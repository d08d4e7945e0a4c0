/** Terminal colours for the console: a foreground colour, a background colour and display
    options, validated against fixed name tables and rendered as the parameter string of an
    ECMA-48 "select graphic rendition" control (section 8.3.117 of ECMA-48): foreground
    codes 30-37 and 39, background codes 40-47 and 49, option codes 1-8, joined by `;`. */
module ConsoleColor {
  import opened Wrappers
  import opened Strings

  const FgBase: nat := 30
  const BgBase: nat := 40

  /** `Color::COLORS`: colour name to its offset from the base. */
  const Colors: map<string, nat> :=
    map["black" := 0, "red" := 1, "green" := 2, "yellow" := 3, "blue" := 4,
        "magenta" := 5, "cyan" := 6, "white" := 7, "normal" := 9]

  /** `Color::OPTIONS`: option name to its code. */
  const Options: map<string, nat> :=
    map["bold" := 1, "fuzzy" := 2, "italic" := 3, "underscore" := 4, "blink" := 5,
        "reverse" := 7, "concealed" := 8]

  /** A colour: 0 stands for an unset foreground or background. */
  datatype Color = Color(fgColor: nat, bgColor: nat, options: seq<nat>)

  datatype ColorError =
    | UnknownColor                  // a foreground or background name not in the table
    | UnknownOption(option: string) // the first option name not in the table

  /** A colour name is acceptable when it is empty (in PHP's sense) or a table key. */
  predicate ColorNameOk(name: string) {
    PhpEmpty(name) || name in Colors
  }

  /** The option codes of a run of option names, or the first unknown name. */
  function OptionCodes(options: seq<string>): (r: Result<seq<nat>, ColorError>)
    ensures r.Ok? <==> forall i :: 0 <= i < |options| ==> options[i] in Options
    ensures r.Ok? ==> |r.value| == |options| && forall i :: 0 <= i < |options| ==> r.value[i] == Options[options[i]]
    ensures r.Err? ==> exists i :: 0 <= i < |options| && r.error == UnknownOption(options[i])
                                   && options[i] !in Options && forall j :: 0 <= j < i ==> options[j] in Options
    decreases |options|
  {
    if |options| == 0 then Ok([])
    else if options[0] !in Options then Err(UnknownOption(options[0]))
    else
      var rest := OptionCodes(options[1..]);
      assert forall i :: 1 <= i < |options| ==> options[1..][i - 1] == options[i];
      match rest
      case Err(e) =>
        var i :| 0 <= i < |options[1..]| && e == UnknownOption(options[1..][i])
                 && options[1..][i] !in Options && forall j :: 0 <= j < i ==> options[1..][j] in Options;
        assert options[i + 1] == options[1..][i];
        Err(e)
      case Ok(codes) => Ok([Options[options[0]]] + codes)
  }

  /** `Color::make($fg, $bg, $options)`: both colour names are checked first, then the
      options in order; a set colour is its base plus its table offset. */
  function Make(fg: string, bg: string, options: seq<string>): (r: Result<Color, ColorError>)
    ensures !ColorNameOk(fg) || !ColorNameOk(bg) ==> r == Err(UnknownColor)
    ensures ColorNameOk(fg) && ColorNameOk(bg) ==> (r.Ok? <==> OptionCodes(options).Ok?)
    ensures ColorNameOk(fg) && ColorNameOk(bg) && r.Err? ==> r.error == OptionCodes(options).error
    ensures r.Ok? ==> r.value.fgColor == (if PhpEmpty(fg) then 0 else FgBase + Colors[fg])
    ensures r.Ok? ==> r.value.bgColor == (if PhpEmpty(bg) then 0 else BgBase + Colors[bg])
    ensures r.Ok? ==> r.value.options == OptionCodes(options).value
  {
    if !ColorNameOk(fg) || !ColorNameOk(bg) then Err(UnknownColor)
    else
      var fgColor := if PhpEmpty(fg) then 0 else FgBase + Colors[fg];
      var bgColor := if PhpEmpty(bg) then 0 else BgBase + Colors[bg];
      match OptionCodes(options)
      case Err(e) => Err(e)
      case Ok(codes) => Ok(Color(fgColor, bgColor, codes))
  }

  /** The codes a colour shows: the foreground if set, then the background if set, then
      the options. */
  function Codes(c: Color): seq<nat> {
    (if c.fgColor > 0 then [c.fgColor] else []) + (if c.bgColor > 0 then [c.bgColor] else []) + c.options
  }

  /** Each code in decimal. */
  function Rendered(codes: seq<nat>): (r: seq<string>)
    ensures |r| == |codes|
    ensures forall i :: 0 <= i < |codes| ==> r[i] == NatStr(codes[i])
  {
    seq(|codes|, i requires 0 <= i < |codes| => NatStr(codes[i]))
  }

  /** `getStyle()`: the options with the background and then the foreground put in front
      when set, joined by `;`. */
  function GetStyle(c: Color): (r: string)
    ensures r == Join(Rendered(Codes(c)), ";")
  {
    var values := c.options;
    var values := if c.bgColor > 0 then [c.bgColor] + values else values;
    var values := if c.fgColor > 0 then [c.fgColor] + values else values;
    assert values == Codes(c);
    Join(Rendered(values), ";")
  }

  /** `__toString()`. */
  function ToString(c: Color): (r: string)
    ensures r == GetStyle(c)
  {
    GetStyle(c)
  }

  /** The codes read back from a style string. */
  function ParseCodes(pieces: seq<string>): seq<nat>
    requires forall i :: 0 <= i < |pieces| ==> forall j :: 0 <= j < |pieces[i]| ==> IsDigit(pieces[i][j])
  {
    seq(|pieces|, i requires 0 <= i < |pieces| => ParseNat(pieces[i]))
  }

  /** A style string splits on `;` back into exactly the codes it shows. */
  lemma StyleRoundTrip(c: Color)
    requires |Codes(c)| > 0
    ensures Split(GetStyle(c), ';') == Rendered(Codes(c))
    ensures ParseCodes(Split(GetStyle(c), ';')) == Codes(c)
  {
    var pieces := Rendered(Codes(c));
    forall i | 0 <= i < |pieces| ensures ';' !in pieces[i] {
      assert forall j :: 0 <= j < |pieces[i]| ==> IsDigit(pieces[i][j]);
    }
    assert ";" == [';'];
    SplitJoin(pieces, ';');
    forall i | 0 <= i < |pieces| ensures ParseNat(pieces[i]) == Codes(c)[i] {
      ParseNatStr(Codes(c)[i]);
    }
  }

  /** Every colour `make` builds shows a foreground code in 30-37 or 39 first when one is
      set, a background code in 40-47 or 49 next when one is set, and option codes 1-8. */
  lemma MadeCodesAreSgr(fg: string, bg: string, options: seq<string>)
    requires Make(fg, bg, options).Ok?
    ensures var c := Make(fg, bg, options).value;
            (c.fgColor == 0 || 30 <= c.fgColor <= 37 || c.fgColor == 39)
            && (c.bgColor == 0 || 40 <= c.bgColor <= 47 || c.bgColor == 49)
            && (forall i :: 0 <= i < |c.options| ==> 1 <= c.options[i] <= 8 && c.options[i] != 6)
  {
    var c := Make(fg, bg, options).value;
    assert forall o :: o in Colors ==> Colors[o] <= 7 || Colors[o] == 9;
    assert forall o :: o in Options ==> 1 <= Options[o] <= 8 && Options[o] != 6;
    forall i | 0 <= i < |c.options| ensures 1 <= c.options[i] <= 8 && c.options[i] != 6 {
      assert options[i] in Options;
    }
  }

  /** An empty foreground and background with no options make the empty style. */
  lemma PlainStyleIsEmpty()
    ensures Make("", "", []) == Ok(Color(0, 0, []))
    ensures GetStyle(Color(0, 0, [])) == ""
  {
  }

  /** A colour made from a foreground, a background and one option shows three codes. */
  lemma ThreeCodes(fg: string, bg: string, option: string)
    requires fg in Colors && bg in Colors && option in Options
    ensures Make(fg, bg, [option]).Ok?
    ensures Codes(Make(fg, bg, [option]).value) == [FgBase + Colors[fg], BgBase + Colors[bg], Options[option]]
  {
    assert !PhpEmpty(fg) && !PhpEmpty(bg) by {
      assert "" !in Colors && "0" !in Colors;
    }
  }
}
