/** The static helpers of the HTTP router: method validation, route-pattern compilation
    into a regex string with its "first segment" / "include hint" classification,
    static-route method lookup, capture filtering, path normalisation, dash-to-camel
    conversion and convention-based controller lookup. Only the text of the compiled
    regex is modelled; matching a regex against a path is not. */
module HttpRouter {
  import opened Wrappers
  import opened Strings
  import opened PhpArrays

  // ---------------------------------------------------------------------------
  // constants

  /** Match statuses reported by the router. */
  const FOUND: int := 1
  const NOT_FOUND: int := 2
  const METHOD_NOT_ALLOWED: int := 3

  /** Regex used for a `{name}` placeholder that has no pattern of its own. */
  const DefaultRegex: string := "[^/]+"

  /** The supported request methods, `ANY` first. */
  const SupportedMethods: seq<string> :=
    ["ANY", "GET", "POST", "PUT", "PATCH", "DELETE", "OPTIONS", "HEAD", "SEARCH", "CONNECT", "TRACE"]

  /** `implode(',', SUPPORTED_METHODS) . ','`: a method is accepted when `m + ","` occurs in it. */
  const Allow: string := Join(SupportedMethods, ",") + ","

  /** The whole supported list, as returned for a route registered with `ANY`. */
  const AllMethods: string := Join(SupportedMethods, ",")

  /** The placeholder patterns every router starts with. */
  const InitialGlobalParams: map<string, string> := map[
    "any" := "[^/]+",
    "num" := "[0-9]+",
    "id" := "[1-9][0-9]*",
    "act" := "[a-zA-Z][\\w-]+",
    "all" := ".*"
  ]

  // ---------------------------------------------------------------------------
  // values the helpers take and give

  /** A route handler as the router receives it. */
  datatype Handler =
    | Text(s: string)                   // "Controllers\Home@index" or a class name
    | Segments(parts: seq<string>)      // ['Controllers\Home', 'index']
    | Object(id: nat, callable: bool)   // a closure or another object
    | Scalar(truthy: bool)              // any other PHP value (number, boolean, null)

  /** PHP falsiness of a handler value. */
  predicate HandlerIsEmpty(h: Handler) {
    match h
    case Text(s) => PhpEmpty(s)
    case Segments(parts) => |parts| == 0
    case Object(_, _) => false
    case Scalar(truthy) => !truthy
  }

  /** The `$methods` argument: one string or an array of strings. */
  datatype MethodsArg = Single(s: string) | Many(items: seq<string>)

  function MethodList(m: MethodsArg): seq<string> {
    match m
    case Single(s) => [s]
    case Many(items) => items
  }

  predicate MethodsAreEmpty(m: MethodsArg) {
    match m
    case Single(s) => PhpEmpty(s)
    case Many(items) => |items| == 0
  }

  /** The exceptions the helpers raise. */
  datatype RouterError =
    | EmptyArguments                    // InvalidArgumentException: empty methods or handler
    | UnsupportedMethod(name: string) // InvalidArgumentException: method not in the list
    | HandlerTypeNotAllowed             // InvalidArgumentException: handler neither string nor object
    | HandlerNotCallable                // InvalidArgumentException: object handler not callable
    | OptionalNotAtEnd                  // LogicException: optional segments only at the end

  // ---------------------------------------------------------------------------
  // validateArguments

  /** `strtoupper(trim($m))`. */
  function NormaliseMethod(m: string): string {
    Upper(Trim(m, Whitespace))
  }

  function NormaliseMethods(ms: seq<string>): (r: seq<string>)
    ensures |r| == |ms|
    ensures forall i :: 0 <= i < |ms| ==> r[i] == NormaliseMethod(ms[i])
  {
    seq(|ms|, i requires 0 <= i < |ms| => NormaliseMethod(ms[i]))
  }

  /** A normalised method is accepted when it is non-empty and `m + ","` occurs in `Allow`. */
  predicate MethodAccepted(m: string) {
    !PhpEmpty(m) && Contains(Allow, m + ",")
  }

  /** Index of the first method that is not accepted. */
  function FirstRejected(ms: seq<string>, from: nat): (r: Option<nat>)
    requires from <= |ms|
    ensures r.Some? ==> from <= r.value < |ms| && !MethodAccepted(ms[r.value])
                        && forall j :: from <= j < r.value ==> MethodAccepted(ms[j])
    ensures r.None? ==> forall j :: from <= j < |ms| ==> MethodAccepted(ms[j])
  {
    FirstFailing(ms, from, MethodAccepted)
  }

  /** Index of the first element from `from` on that `ok` refuses. */
  function FirstFailing<T>(xs: seq<T>, from: nat, ok: T -> bool): (r: Option<nat>)
    requires from <= |xs|
    ensures r.Some? ==> from <= r.value < |xs| && !ok(xs[r.value])
                        && forall j :: from <= j < r.value ==> ok(xs[j])
    ensures r.None? ==> forall j :: from <= j < |xs| ==> ok(xs[j])
    decreases |xs| - from
  {
    if from == |xs| then None
    else if !ok(xs[from]) then Some(from)
    else FirstFailing(xs, from + 1, ok)
  }

  /** Some requested method mentions `ANY`. */
  predicate MentionsAny(ms: seq<string>) {
    exists i :: 0 <= i < |ms| && Contains(ms[i], "ANY")
  }

  /** The final `implode` + `strpos(..., 'ANY')` + `trim` step on the normalised methods. */
  function MethodString(ms: seq<string>): (r: string)
    ensures MentionsAny(ms) ==> r == AllMethods
    ensures !MentionsAny(ms) ==> r == Trim(Join(ms, ",") + ",", {','})
  {
    var joined := Join(ms, ",") + ",";
    JoinedMentionsAny(ms);
    AllowTrimmed();
    if Contains(joined, "ANY") then Trim(Allow, {','}) else Trim(joined, {','})
  }

  /** `ANY` occurs in the comma-terminated list exactly when some method mentions it. */
  lemma JoinedMentionsAny(ms: seq<string>)
    ensures Contains(Join(ms, ",") + ",", "ANY") <==> MentionsAny(ms)
  {
    var j := Join(ms, ",");
    assert j + "," == j + [','] + "";
    ContainsAroundSeparator(j, "", ',', "ANY");
    ContainsJoin(ms, ',', "ANY");
  }

  /** Every requested method, trimmed and upper-cased, is accepted. */
  predicate AllAccepted(methods: MethodsArg) {
    forall i :: 0 <= i < |MethodList(methods)| ==> MethodAccepted(NormaliseMethod(MethodList(methods)[i]))
  }

  /** `validateArguments($methods, $handler)`: the comma-joined method list a route is
      registered under, or the exception raised. */
  function ValidateArguments(methods: MethodsArg, handler: Handler): (r: Result<string, RouterError>)
    ensures r == Err(EmptyArguments) <==> MethodsAreEmpty(methods) || HandlerIsEmpty(handler)
    ensures r.Err? && r.error.UnsupportedMethod? <==>
              !MethodsAreEmpty(methods) && !HandlerIsEmpty(handler) && !AllAccepted(methods)
    ensures r.Err? && r.error.UnsupportedMethod? ==>
              var ms := NormaliseMethods(MethodList(methods));
              FirstRejected(ms, 0).Some? && r.error.name == ms[FirstRejected(ms, 0).value]
    ensures r == Err(HandlerTypeNotAllowed) <==>
              !MethodsAreEmpty(methods) && !HandlerIsEmpty(handler) && AllAccepted(methods)
              && !handler.Text? && !handler.Object?
    ensures r == Err(HandlerNotCallable) <==>
              !MethodsAreEmpty(methods) && !HandlerIsEmpty(handler) && AllAccepted(methods)
              && handler.Object? && !handler.callable
    ensures r.Ok? <==> !MethodsAreEmpty(methods) && !HandlerIsEmpty(handler) && AllAccepted(methods)
                       && (handler.Text? || (handler.Object? && handler.callable))
    ensures (r.Ok? && MentionsAny(NormaliseMethods(MethodList(methods)))) ==> r.value == AllMethods
    ensures (r.Ok? && !MentionsAny(NormaliseMethods(MethodList(methods)))) ==>
              r.value == Trim(Join(NormaliseMethods(MethodList(methods)), ",") + ",", {','})
  {
    if MethodsAreEmpty(methods) || HandlerIsEmpty(handler) then Err(EmptyArguments)
    else
      var ms := NormaliseMethods(MethodList(methods));
      var bad := FirstRejected(ms, 0);
      if bad.Some? then Err(UnsupportedMethod(ms[bad.value]))
      else if !handler.Text? && !handler.Object? then Err(HandlerTypeNotAllowed)
      else if handler.Object? && !handler.callable then Err(HandlerNotCallable)
      else Ok(MethodString(ms))
  }

  /** With ordinary method names (no commas, no `ANY`) the result is exactly the normalised
      names comma-joined in input order, and splitting it at `,` gives them back. */
  lemma ValidatePlainMethods(methods: MethodsArg, handler: Handler, joined: string)
    requires ValidateArguments(methods, handler) == Ok(joined)
    requires forall i :: 0 <= i < |MethodList(methods)| ==> ',' !in NormaliseMethod(MethodList(methods)[i])
    requires !MentionsAny(NormaliseMethods(MethodList(methods)))
    ensures joined == Join(NormaliseMethods(MethodList(methods)), ",")
    ensures Split(joined, ',') == NormaliseMethods(MethodList(methods))
  {
    var ms := NormaliseMethods(MethodList(methods));
    AcceptedJoin(methods, handler, joined);
    PlainAccepted(ms, methods);
    PlainMethodString(ms);
  }

  /** What an accepted validation knows about its method list when no method mentions `ANY`. */
  lemma AcceptedJoin(methods: MethodsArg, handler: Handler, joined: string)
    requires ValidateArguments(methods, handler) == Ok(joined)
    requires !MentionsAny(NormaliseMethods(MethodList(methods)))
    ensures AllAccepted(methods) && !MethodsAreEmpty(methods)
    ensures joined == Trim(Join(NormaliseMethods(MethodList(methods)), ",") + ",", {','})
  {
  }

  /** The normalised names of an accepted, non-empty, comma-free method list: there is one,
      and each is accepted and comma-free. */
  lemma PlainAccepted(ms: seq<string>, methods: MethodsArg)
    requires ms == NormaliseMethods(MethodList(methods))
    requires AllAccepted(methods) && !MethodsAreEmpty(methods)
    requires forall i :: 0 <= i < |MethodList(methods)| ==> ',' !in NormaliseMethod(MethodList(methods)[i])
    ensures |ms| >= 1
    ensures forall i :: 0 <= i < |ms| ==> MethodAccepted(ms[i]) && ',' !in ms[i]
  {
  }

  lemma PlainMethodString(ms: seq<string>)
    requires |ms| >= 1
    requires forall i :: 0 <= i < |ms| ==> MethodAccepted(ms[i]) && ',' !in ms[i]
    ensures Trim(Join(ms, ",") + ",", {','}) == Join(ms, ",")
    ensures Split(Join(ms, ","), ',') == ms
  {
    assert forall i :: 0 <= i < |ms| ==> |ms[i]| > 0;
    JoinEnds(ms, ',');
    TrimOneTrailing(Join(ms, ","), ',');
    SplitJoin(ms, ',');
  }

  /** A comma-joined list of non-empty comma-free names starts and ends with a name character. */
  lemma {:induction false} JoinEnds(ms: seq<string>, c: char)
    requires |ms| >= 1
    requires forall i :: 0 <= i < |ms| ==> |ms[i]| > 0 && c !in ms[i]
    ensures |Join(ms, [c])| > 0
    ensures Join(ms, [c])[0] != c && Join(ms, [c])[|Join(ms, [c])| - 1] != c
  {
    if |ms| > 1 {
      JoinEnds(ms[1..], c);
      var rest := Join(ms[1..], [c]);
      assert Join(ms, [c]) == ms[0] + [c] + rest;
      assert Join(ms, [c])[0] == ms[0][0];
    }
  }

  /** Trimming `c` from `s + c` removes just that character when `s` neither starts nor ends with `c`. */
  lemma TrimOneTrailing(s: string, c: char)
    requires |s| > 0 && s[0] != c && s[|s| - 1] != c
    ensures Trim(s + [c], {c}) == s
  {
    var w := s + [c];
    assert LeadCount(w, {c}) == 0;
    assert TrimLeft(w, {c}) == w;
    assert TrailCount(w, {c}) == 1;
  }

  /** Trimming the commas off `Allow` gives the supported list joined by commas. */
  lemma AllowTrimmed()
    ensures Trim(Allow, {','}) == AllMethods
  {
    assert forall i :: 0 <= i < |SupportedMethods| ==> |SupportedMethods[i]| > 0 && ',' !in SupportedMethods[i];
    JoinEnds(SupportedMethods, ',');
    TrimOneTrailing(AllMethods, ',');
  }

  // ---------------------------------------------------------------------------
  // isNoDynamicParam, getFirstFromPath, formatUriPath

  /** `isNoDynamicParam($route)`: both `strpos` calls find nothing, so the route holds no
      `{` and no `[`. */
  predicate IsNoDynamicParam(route: string): (b: bool)
    ensures b <==> !Contains(route, "{") && !Contains(route, "[")
  {
    ContainsChar(route, '{');
    ContainsChar(route, '[');
    assert "{" == ['{'] && "[" == ['['];
    '{' !in route && '[' !in route
  }

  /** PHP's `if (strpos($s, $c))`: found, and not at position 0. */
  predicate StrposTruthy(s: string, c: char) {
    c in s && FirstIndex(s, c) > 0
  }

  /** `getFirstFromPath($path)`: the first node of the path, used to pick the route partition. */
  function GetFirstFromPath(path: string): (r: string)
    ensures r <= Trim(path, {'/'})
    ensures '/' !in r
    ensures '/' in Trim(path, {'/'}) ==> |r| < |Trim(path, {'/'})| && Trim(path, {'/'})[|r|] == '/'
    ensures '/' !in Trim(path, {'/'}) && '.' in Trim(path, {'/'}) && Trim(path, {'/'})[0] != '.' ==>
              |r| < |Trim(path, {'/'})| && Trim(path, {'/'})[|r|] == '.' && '.' !in r
    ensures '/' !in Trim(path, {'/'}) && ('.' !in Trim(path, {'/'}) || Trim(path, {'/'})[0] == '.') ==>
              r == Trim(path, {'/'})
  {
    var tmp := Trim(path, {'/'});
    if StrposTruthy(tmp, '/') then tmp[..FirstIndex(tmp, '/')]
    else if StrposTruthy(tmp, '.') then tmp[..FirstIndex(tmp, '.')]
    else tmp
  }

  /** No two consecutive slashes. */
  ghost predicate NoDoubleSlash(s: string) {
    forall i, j :: 0 <= i < j < |s| && j == i + 1 ==> !(s[i] == '/' && s[j] == '/')
  }

  /** The characters of `s` other than `/`, in order. */
  function NonSlash(s: string): string {
    if |s| == 0 then "" else (if s[0] == '/' then "" else [s[0]]) + NonSlash(s[1..])
  }

  /** `preg_replace('#\/\/+#', '/', $s)`: every run of slashes becomes one slash. */
  function CollapseSlashes(s: string): (r: string)
    ensures |s| > 0 ==> |r| > 0 && r[0] == s[0]
    ensures NoDoubleSlash(r)
    ensures NonSlash(r) == NonSlash(s)
    ensures ('/' in r) <==> ('/' in s)
    ensures |r| <= |s|
  {
    if |s| < 2 then s
    else if s[0] == '/' && s[1] == '/' then CollapseSlashes(s[1..])
    else [s[0]] + CollapseSlashes(s[1..])
  }

  /** A path without double slashes is left as it is, so collapsing is idempotent. */
  lemma {:induction false} CollapseSlashesKeeps(s: string)
    requires NoDoubleSlash(s)
    ensures CollapseSlashes(s) == s
  {
    if |s| >= 2 {
      assert !(s[0] == '/' && s[1] == '/');
      CollapseSlashesKeeps(s[1..]);
    }
  }

  /** Dropping one slash of a doubled slash does not change the collapsed path. Together with
      `CollapseSlashesKeeps` this determines the collapse: reduce `//` to `/` until no double
      slash is left. */
  lemma {:induction false} CollapseSlashesDouble(a: string, b: string)
    ensures CollapseSlashes(a + "//" + b) == CollapseSlashes(a + "/" + b)
    decreases |a|
  {
    var s := a + "//" + b;
    var t := a + "/" + b;
    if |a| == 0 {
      assert s == "//" + b && t == "/" + b;
      assert s[1..] == t;
    } else {
      var a' := a[1..];
      assert s[0] == a[0] && t[0] == a[0];
      assert s[1..] == a' + "//" + b;
      assert t[1..] == a' + "/" + b;
      assert s[1] == t[1];
      CollapseSlashesDouble(a', b);
    }
  }

  /** `formatUriPath($path, $ignoreLastSep)`; `decode` stands for `rawurldecode`. With
      `ignoreLastSep` (and a path other than `/`), exactly the trailing slashes are cut. */
  function FormatUriPath(path: string, ignoreLastSep: bool, decode: string -> string): (r: string)
    ensures r <= decode(CollapseSlashes(path))
    ensures !ignoreLastSep ==> r == decode(CollapseSlashes(path))
    ensures ignoreLastSep && |r| > 0 && r[|r| - 1] == '/' ==> r == "/"
    ensures decode(CollapseSlashes(path)) == "/" ==> r == "/"
    ensures ignoreLastSep && decode(CollapseSlashes(path)) != "/" ==>
              (forall k :: |r| <= k < |decode(CollapseSlashes(path))| ==> decode(CollapseSlashes(path))[k] == '/')
              && (|r| == 0 || r[|r| - 1] != '/')
  {
    var p := decode(CollapseSlashes(path));
    if p != "/" && ignoreLastSep then TrimRight(p, {'/'}) else p
  }

  /** A prefix of a path without double slashes has none either. */
  lemma NoDoubleSlashPrefix(s: string, n: nat)
    requires NoDoubleSlash(s) && n <= |s|
    ensures NoDoubleSlash(s[..n])
  {
    forall i, j | 0 <= i < j < n && j == i + 1 ensures !(s[..n][i] == '/' && s[..n][j] == '/') {
      assert s[..n][i] == s[i] && s[..n][j] == s[j];
    }
  }

  /** On paths without percent escapes (`decode` is the identity), formatting a formatted
      path changes nothing. */
  lemma FormatUriPathIdempotent(path: string, ignoreLastSep: bool, decode: string -> string)
    requires forall x :: decode(x) == x
    ensures FormatUriPath(FormatUriPath(path, ignoreLastSep, decode), ignoreLastSep, decode)
            == FormatUriPath(path, ignoreLastSep, decode)
  {
    var p := CollapseSlashes(path);
    var r := FormatUriPath(path, ignoreLastSep, decode);
    assert decode(p) == p;
    assert r == p[..|r|];
    NoDoubleSlashPrefix(p, |r|);
    CollapseSlashesKeeps(r);
    assert decode(CollapseSlashes(r)) == r;
    if ignoreLastSep && r != "/" {
      assert |r| == 0 || r[|r| - 1] != '/';
      assert TrailCount(r, {'/'}) == 0;
    }
  }

  // ---------------------------------------------------------------------------
  // filterMatches

  /** `filterMatches($matches, $conf)`: the named captures, with `defaults` (the route's
      `option.defaults`, when set) filling the names no capture provides. */
  function FilterMatches(matches: Entries<Key, string>, defaults: Option<Entries<Key, string>>): (r: Entries<Key, string>)
    requires DistinctKeys(matches)
    requires defaults.Some? ==> DistinctKeys(defaults.value)
    ensures DistinctKeys(r)
    ensures forall s :: Get(matches, StrKey(s)).Some? ==> Get(r, StrKey(s)) == Get(matches, StrKey(s))
    ensures forall s :: Get(matches, StrKey(s)).None? ==>
              Get(r, StrKey(s)) == (if defaults.Some? then Get(defaults.value, StrKey(s)) else None)
    ensures IntValues(r) == (if defaults.Some? then IntValues(defaults.value) else [])
  {
    var named := StringKeyed(matches);
    StringKeyedDistinct(matches);
    if defaults.Some? then ArrayMerge(defaults.value, named) else named
  }

  /** The named captures keep their order. With defaults, the default names come first in
      their own order, then the captured names the defaults lack, in capture order. */
  lemma FilterMatchesOrder(matches: Entries<Key, string>, defaults: Option<Entries<Key, string>>)
    requires DistinctKeys(matches)
    requires defaults.Some? ==> DistinctKeys(defaults.value)
    ensures defaults.None? ==> StrKeys(FilterMatches(matches, defaults)) == StrKeys(matches)
    ensures defaults.Some? ==>
              StrKeys(FilterMatches(matches, defaults))
              == StrKeys(defaults.value) + FreshStrKeys(StrKeys(defaults.value), matches)
  {
    if defaults.Some? {
      StringKeyedFresh(StrKeys(defaults.value), matches);
      ArrayMergeOrder(defaults.value, StringKeyed(matches));
    } else {
      StringKeyedOrder(matches);
    }
  }

  // ---------------------------------------------------------------------------
  // parseParamRoute: the three rewriting steps

  /** `str_replace(['[', ']'], ['(?:', ')?'], $route)`. */
  function RewriteOptional(s: string): (r: string)
    ensures '[' !in r && ']' !in r
    ensures ('[' !in s && ']' !in s) ==> r == s
  {
    if |s| == 0 then ""
    else RewriteChar(s[0]) + RewriteOptional(s[1..])
  }

  function RewriteChar(c: char): string {
    if c == '[' then "(?:" else if c == ']' then ")?" else [c]
  }

  /** Reads `(?:` back as `[` and `)?` back as `]`. */
  function UnrewriteOptional(s: string): string {
    if |s| >= 3 && s[0] == '(' && s[1] == '?' && s[2] == ':' then "[" + UnrewriteOptional(s[3..])
    else if |s| >= 2 && s[0] == ')' && s[1] == '?' then "]" + UnrewriteOptional(s[2..])
    else if |s| == 0 then ""
    else [s[0]] + UnrewriteOptional(s[1..])
  }

  /** The optional-segment rewrite loses nothing for a route without parentheses. */
  lemma {:induction false} RewriteOptionalRoundTrip(s: string)
    requires '(' !in s && ')' !in s
    ensures UnrewriteOptional(RewriteOptional(s)) == s
  {
    if |s| > 0 {
      var t := s[1..];
      assert '(' !in t && ')' !in t by {
        assert forall j :: 0 <= j < |t| ==> t[j] == s[j + 1];
      }
      RewriteOptionalRoundTrip(t);
      var rest := RewriteOptional(t);
      UnrewriteStep(s[0], rest);
      HeadTail(s);
    }
  }

  lemma UnrewriteStep(c: char, rest: string)
    requires c != '(' && c != ')'
    ensures UnrewriteOptional(RewriteChar(c) + rest) == [c] + UnrewriteOptional(rest)
  {
    var w := RewriteChar(c) + rest;
    DropPrefix(RewriteChar(c), rest);
    if c == '[' {
      assert w[0] == '(' && w[1] == '?' && w[2] == ':';
    } else if c == ']' {
      assert w[0] == ')' && w[1] == '?';
    } else {
      assert w[0] == c;
    }
  }

  /** `str_replace('.', '\.', $route)`. */
  function EscapeDots(s: string): (r: string)
    ensures |r| == |s| + CountChar(s, '.')
    ensures '.' !in s ==> r == s
  {
    if |s| == 0 then ""
    else (if s[0] == '.' then "\\." else [s[0]]) + EscapeDots(s[1..])
  }

  /** Reads `\.` back as `.`. */
  function UnescapeDots(s: string): string {
    if |s| >= 2 && s[0] == '\\' && s[1] == '.' then "." + UnescapeDots(s[2..])
    else if |s| == 0 then ""
    else [s[0]] + UnescapeDots(s[1..])
  }

  /** Escaping dots is undone by unescaping them, whatever the route holds. */
  lemma {:induction false} EscapeDotsRoundTrip(s: string)
    ensures UnescapeDots(EscapeDots(s)) == s
  {
    if |s| > 0 {
      EscapeDotsRoundTrip(s[1..]);
      var rest := EscapeDots(s[1..]);
      assert |rest| > 0 ==> rest[0] != '.' by {
        if |rest| > 0 && s[1..][0] == '.' {
          assert rest[0] == '\\';
        }
      }
      if s[0] == '.' {
        assert ("\\." + rest)[2..] == rest;
      } else {
        assert ([s[0]] + rest)[1..] == rest;
      }
    }
  }

  predicate IsNameStart(c: char) { 'a' <= c <= 'z' || 'A' <= c <= 'Z' || c == '_' }
  predicate IsNameChar(c: char) { IsNameStart(c) || '0' <= c <= '9' || c == '-' }

  /** A placeholder name, `[a-zA-Z_][a-zA-Z0-9_-]*`. */
  predicate ValidName(n: string) {
    |n| > 0 && IsNameStart(n[0]) && forall i :: 1 <= i < |n| ==> IsNameChar(n[i])
  }

  /** Length of the run of name characters starting at `i`. */
  function NameRun(s: string, i: nat): (n: nat)
    requires i <= |s|
    ensures i + n <= |s|
    ensures forall j :: i <= j < i + n ==> IsNameChar(s[j])
    ensures i + n == |s| || !IsNameChar(s[i + n])
    decreases |s| - i
  {
    if i == |s| || !IsNameChar(s[i]) then 0 else 1 + NameRun(s, i + 1)
  }

  /** The name of the `{name}` placeholder `s` starts with, if it starts with one. */
  function TokenAt(s: string): (r: Option<string>)
    ensures r.Some? ==> ValidName(r.value) && "{" + r.value + "}" <= s
    ensures forall n :: ValidName(n) && "{" + n + "}" <= s ==> r == Some(n)
  {
    if |s| >= 2 && s[0] == '{' && IsNameStart(s[1]) then
      var k := NameRun(s, 2);
      if 2 + k < |s| && s[2 + k] == '}' then
        var n := s[1..2 + k];
        assert "{" + n + "}" == s[..3 + k];
        TokenUnique(s, n);
        Some(n)
      else
        TokenAbsent(s, k);
        None
    else None
  }

  /** A placeholder at the front of `s` spans exactly the run of name characters after `{`. */
  lemma TokenLength(s: string, n: string)
    requires ValidName(n) && "{" + n + "}" <= s
    ensures NameRun(s, 1) == |n| && s[1..|n| + 1] == n
  {
    assert s[|n| + 1] == '}';
    assert forall j :: 1 <= j <= |n| ==> s[j] == n[j - 1];
  }

  /** At most one placeholder can start at the front of `s`. */
  lemma TokenUnique(s: string, n: string)
    requires ValidName(n) && "{" + n + "}" <= s
    ensures forall m :: ValidName(m) && "{" + m + "}" <= s ==> m == n
  {
    TokenLength(s, n);
    forall m | ValidName(m) && "{" + m + "}" <= s
      ensures m == n
    {
      TokenLength(s, m);
    }
  }

  lemma TokenAbsent(s: string, k: nat)
    requires |s| >= 2 && s[0] == '{' && IsNameStart(s[1])
    requires k == NameRun(s, 2) && !(2 + k < |s| && s[2 + k] == '}')
    ensures forall n :: !(ValidName(n) && "{" + n + "}" <= s)
  {
    assert NameRun(s, 1) == 1 + k;
    forall n | ValidName(n) && "{" + n + "}" <= s
      ensures false
    {
      TokenLength(s, n);
    }
  }

  /** `(?P<name>` + the name's pattern, or `[^/]+` + `)`. */
  function Group(name: string, params: map<string, string>): string {
    "(?P<" + name + ">" + (if name in params then params[name] else DefaultRegex) + ")"
  }

  /** The `preg_match_all` + `strtr` step: every `{name}` placeholder becomes a named group. */
  function ReplaceParams(s: string, params: map<string, string>): string
    decreases |s|
  {
    if |s| == 0 then ""
    else
      match TokenAt(s)
      case Some(n) => Group(n, params) + ReplaceParams(s[|n| + 2..], params)
      case None => [s[0]] + ReplaceParams(s[1..], params)
  }

  /** Text without `{` passes through the placeholder step unchanged. */
  lemma {:induction false} ReplaceParamsLiteral(a: string, b: string, params: map<string, string>)
    requires '{' !in a
    ensures ReplaceParams(a + b, params) == a + ReplaceParams(b, params)
  {
    if |a| > 0 {
      var t := a[1..];
      assert '{' !in t by {
        assert forall j :: 0 <= j < |t| ==> t[j] == a[j + 1];
      }
      ReplaceParamsLiteral(t, b, params);
      ReplaceParamsHead(a, b, params);
      ConsAssoc(a, ReplaceParams(b, params));
    } else {
      assert a + b == b;
    }
  }

  /** A character other than `{` at the front passes through. */
  lemma ReplaceParamsHead(a: string, b: string, params: map<string, string>)
    requires |a| > 0 && a[0] != '{'
    ensures ReplaceParams(a + b, params) == [a[0]] + ReplaceParams(a[1..] + b, params)
  {
    AppendTail(a, b);
    assert TokenAt(a + b).None?;
  }

  /** A placeholder at the front becomes its named group. */
  lemma ReplaceParamsToken(n: string, b: string, params: map<string, string>)
    requires ValidName(n)
    ensures ReplaceParams("{" + n + "}" + b, params) == Group(n, params) + ReplaceParams(b, params)
  {
    var w := "{" + n + "}" + b;
    assert "{" + n + "}" <= w;
    assert TokenAt(w) == Some(n);
    assert w[|n| + 2..] == b;
  }

  /** The regex body of a route: optional brackets (only when a `]` is present), then
      dots, then placeholders. A route with no placeholder and no optional part compiles to
      itself with its dots escaped. */
  function CompileBody(route: string, params: map<string, string>): (r: string)
    ensures IsNoDynamicParam(route) && ']' !in route ==> r == EscapeDots(route)
  {
    var bracketed := if ']' in route then RewriteOptional(route) else route;
    if IsNoDynamicParam(route) && ']' !in route then
      EscapeDotsNoBrace(route);
      ReplaceParamsLiteral(EscapeDots(route), "", params);
      assert EscapeDots(route) + "" == EscapeDots(route);
      ReplaceParams(EscapeDots(bracketed), params)
    else
      ReplaceParams(EscapeDots(bracketed), params)
  }

  /** A route `isNoDynamicParam` accepts (and with no stray `]`) is parsed without error into
      the regex of its own text with the dots escaped. */
  lemma StaticRouteRegex(route: string, params: map<string, string>, conf: map<string, InfoValue>)
    requires IsNoDynamicParam(route) && ']' !in route && "regex" !in conf
    ensures ParseParamRoute(route, params, conf).Ok?
    ensures ParseParamRoute(route, params, conf).value.info["regex"] == Str("#^" + EscapeDots(route) + "$#")
  {
  }

  lemma EscapeDotsNoBrace(s: string)
    requires '{' !in s
    ensures '{' !in EscapeDots(s)
  {
  }

  // ---------------------------------------------------------------------------
  // parseParamRoute: classification

  /** `[\w-]`. */
  predicate IsSegChar(c: char) { IsWordChar(c) || c == '-' }

  /** Length of the run of `[\w-]` characters starting at `i`. */
  function SegRun(s: string, i: nat): (n: nat)
    requires i <= |s|
    ensures i + n <= |s|
    ensures forall j :: i <= j < i + n ==> IsSegChar(s[j])
    ensures i + n == |s| || !IsSegChar(s[i + n])
    decreases |s| - i
  {
    if i == |s| || !IsSegChar(s[i]) then 0 else 1 + SegRun(s, i + 1)
  }

  /** The route starts `/word/` with `word` ending at index `k`. */
  predicate LiteralHeadAt(route: string, k: int) {
    1 < k < |route| && route[0] == '/' && route[k] == '/' && forall j :: 1 <= j < k ==> IsSegChar(route[j])
  }

  /** `m` is the whole greedy match `$m[0]` of `^/([\w-]+)/[\w-]*` for the head `/word/`
      whose second slash is at `k`: the route up to the end of the `[\w-]` run after it. */
  predicate StartMatch(route: string, k: nat, m: string) {
    k + 1 <= |m| <= |route| && m == route[..|m|]
    && (forall j :: k + 1 <= j < |m| ==> IsSegChar(route[j]))
    && (|m| == |route| || !IsSegChar(route[|m|]))
  }

  /** The greedy match is unique. */
  lemma StartMatchUnique(route: string, k: nat, m1: string, m2: string)
    requires StartMatch(route, k, m1) && StartMatch(route, k, m2)
    ensures m1 == m2
  {
  }

  /** `preg_match('#^/([\w-]+)/[\w-]*#', $route, $m)`: `($m[1], $m[0])` on a match. */
  function FirstLiteral(route: string): (r: Option<(string, string)>)
    ensures r.Some? ==> exists k :: LiteralHeadAt(route, k) && r.value.0 == route[1..k]
    ensures forall k :: LiteralHeadAt(route, k) ==> r.Some? && r.value.0 == route[1..k] && StartMatch(route, k, r.value.1)
    ensures r.Some? ==> "/" + r.value.0 + "/" <= r.value.1 && r.value.1 <= route
  {
    if |route| == 0 || route[0] != '/' then None
    else
      var n := SegRun(route, 1);
      if n > 0 && 1 + n < |route| && route[1 + n] == '/' then
        var k := 1 + n;
        assert LiteralHeadAt(route, k);
        assert forall k' :: LiteralHeadAt(route, k') ==> k' == k;
        var start := route[..k + 1 + SegRun(route, k + 1)];
        assert "/" + route[1..k] + "/" == route[..k + 1];
        Some((route[1..k], start))
      else
        assert forall k :: !LiteralHeadAt(route, k);
        None
  }

  /** The include-hint regex `/([\w-]+)/?[\w-]*` can start matching at `p`. */
  predicate IncludeStartsAt(s: string, p: int) {
    0 <= p && p + 1 < |s| && s[p] == '/' && IsSegChar(s[p + 1])
  }

  /** The leftmost position from `from` on where the include-hint regex matches. */
  function FindInclude(s: string, from: nat): (r: Option<nat>)
    ensures r.Some? ==> from <= r.value && IncludeStartsAt(s, r.value)
                        && forall q :: from <= q < r.value ==> !IncludeStartsAt(s, q)
    ensures r.None? ==> forall q :: from <= q ==> !IncludeStartsAt(s, q)
    decreases |s| - from
  {
    if from + 1 >= |s| then None
    else if IncludeStartsAt(s, from) then Some(from)
    else FindInclude(s, from + 1)
  }

  /** The greedy match of `/([\w-]+)/?[\w-]*` starting at `p`. */
  function IncludeMatchAt(s: string, p: nat): (m: string)
    requires IncludeStartsAt(s, p)
    ensures |m| >= 2 && m[0] == '/' && m <= s[p..]
  {
    var e1 := p + 1 + SegRun(s, p + 1);
    if e1 < |s| && s[e1] == '/' then s[p..e1 + 1 + SegRun(s, e1 + 1)] else s[p..e1]
  }

  /** `preg_match('#/([\w-]+)/?[\w-]*#', $route, $m) ? $m[0] : null`. */
  function IncludeHint(route: string): (r: Option<string>)
    ensures r.None? <==> forall p :: !IncludeStartsAt(route, p)
    ensures r.Some? ==> exists p :: IncludeStartsAt(route, p) && (forall q :: 0 <= q < p ==> !IncludeStartsAt(route, q))
                                    && r.value == IncludeMatchAt(route, p)
  {
    match FindInclude(route, 0)
    case Some(p) => Some(IncludeMatchAt(route, p))
    case None => None
  }

  /** The include hint as stored in the route info: the matched text, or `null`. */
  function HintValue(route: string): InfoValue {
    match IncludeHint(route)
    case Some(h) => Str(h)
    case None => Null
  }

  /** A value in the route-info array. */
  datatype InfoValue = Null | Str(s: string) | Opaque(id: nat)

  /** `[$first, $info]` as returned by `parseParamRoute`. */
  datatype ParsedRoute = ParsedRoute(first: Option<string>, info: map<string, InfoValue>)

  /** The number of trailing `]` equals the number of `[` before them. */
  predicate OptionalSegmentsAtEnd(route: string) {
    TrailCount(route, {']'}) == CountChar(TrimRight(route, {']'}), '[')
  }

  /** `parseParamRoute($route, $params, $conf)`. */
  function ParseParamRoute(route: string, params: map<string, string>, conf: map<string, InfoValue>): (r: Result<ParsedRoute, RouterError>)
    ensures r.Err? <==> ']' in route && !OptionalSegmentsAtEnd(route)
    ensures r.Err? ==> r.error == OptionalNotAtEnd
    ensures r.Ok? ==> forall k :: k in conf ==> k in r.value.info && r.value.info[k] == conf[k]
    ensures r.Ok? ==> "regex" in r.value.info && "original" in r.value.info
    ensures r.Ok? && r.value.first.None? ==> "include" in r.value.info
    ensures r.Ok? && "regex" !in conf ==> r.value.info["regex"] == Str("#^" + CompileBody(route, params) + "$#")
    ensures r.Ok? && "original" !in conf ==> r.value.info["original"] == Str(route)
    ensures r.Ok? ==> (r.value.first.Some? <==> exists k :: LiteralHeadAt(route, k))
    ensures r.Ok? ==> forall k :: LiteralHeadAt(route, k) ==> r.value.first == Some(route[1..k])
    ensures r.Ok? && r.value.first.None? && "include" !in conf ==>
              r.value.info["include"] == HintValue(route)
    ensures r.Ok? && r.value.first.Some? && "include" !in conf ==> "include" !in r.value.info
    ensures r.Ok? && "start" !in conf ==>
              forall k :: LiteralHeadAt(route, k) ==>
                "start" in r.value.info && r.value.info["start"].Str? && StartMatch(route, k, r.value.info["start"].s)
    ensures r.Ok? ==> r.value.info.Keys == conf.Keys + {"regex", "original"}
                                           + (if r.value.first.Some? then {"start"} else {"include"})
  {
    if ']' in route && !OptionalSegmentsAtEnd(route) then Err(OptionalNotAtEnd)
    else
      var lit := FirstLiteral(route);
      var info := RouteInfo(route, "#^" + CompileBody(route, params) + "$#", lit, conf);
      Ok(ParsedRoute(if lit.Some? then Some(lit.value.0) else None, info))
  }

  /** The route-info array `parseParamRoute` builds, with `conf` laid over it: the regex,
      the start (for a literal head) or the include hint (without one) and the original. */
  function RouteInfo(route: string, regex: string, lit: Option<(string, string)>, conf: map<string, InfoValue>): (info: map<string, InfoValue>)
    ensures forall k :: k in conf ==> k in info && info[k] == conf[k]
    ensures "regex" in info && "original" in info
    ensures lit.None? ==> "include" in info
    ensures "regex" !in conf ==> info["regex"] == Str(regex)
    ensures "original" !in conf ==> info["original"] == Str(route)
    ensures lit.None? && "include" !in conf ==> info["include"] == HintValue(route)
    ensures lit.Some? && "include" !in conf ==> "include" !in info
    ensures lit.Some? && "start" !in conf ==> "start" in info && info["start"] == Str(lit.value.1)
    ensures info.Keys == conf.Keys + {"regex", "original"} + (if lit.Some? then {"start"} else {"include"})
  {
    match lit
    case Some((_, start)) => map["regex" := Str(regex), "start" := Str(start), "original" := Str(route)] + conf
    case None => map["regex" := Str(regex), "include" := HintValue(route), "original" := Str(route)] + conf
  }

  /** `'/a[/b]/c'` is rejected: its optional part is not at the end. */
  lemma RejectsInnerOptional()
    ensures ParseParamRoute("/a[/b]/c", map[], map[]) == Err(OptionalNotAtEnd)
  {
    var r := "/a[/b]/c";
    assert r[|r| - 1] == 'c';
    assert TrailCount(r, {']'}) == 0;
    assert TrimRight(r, {']'}) == r;
    assert r[2] == '[';
    assert CountChar(r, '[') != 0;
    assert r[5] == ']';
    assert ']' in r && !OptionalSegmentsAtEnd(r);
  }

  /** `[p1[p2...` : each part opens one optional segment. */
  function OpenAll(parts: seq<string>): string {
    if |parts| == 0 then "" else "[" + parts[0] + OpenAll(parts[1..])
  }

  /** `n` closing brackets. */
  function Closes(n: nat): (r: string)
    ensures |r| == n && forall i :: 0 <= i < n ==> r[i] == ']'
  {
    if n == 0 then "" else "]" + Closes(n - 1)
  }

  lemma {:induction false} OpenAllCounts(parts: seq<string>)
    requires forall i :: 0 <= i < |parts| ==> '[' !in parts[i] && ']' !in parts[i]
    ensures CountChar(OpenAll(parts), '[') == |parts|
    ensures ']' !in OpenAll(parts)
  {
    if |parts| > 0 {
      OpenAllCounts(parts[1..]);
      CountCharAppend("[" + parts[0], OpenAll(parts[1..]), '[');
      CountCharAppend("[", parts[0], '[');
    }
  }

  /** A route whose optional segments are nested and all close at its end is accepted. */
  lemma TrailingOptionalsAccepted(base: string, parts: seq<string>)
    requires |base| > 0 && '[' !in base && ']' !in base
    requires forall i :: 0 <= i < |parts| ==> '[' !in parts[i] && ']' !in parts[i]
    ensures OptionalSegmentsAtEnd(base + OpenAll(parts) + Closes(|parts|))
  {
    OpenAllCounts(parts);
    ClosedAtEnd(base, OpenAll(parts), |parts|);
  }

  /** The bracket count behind `TrailingOptionalsAccepted`, for any opening part `o`. */
  lemma ClosedAtEnd(base: string, o: string, n: nat)
    requires |base| > 0 && '[' !in base && ']' !in base
    requires ']' !in o && CountChar(o, '[') == n
    ensures OptionalSegmentsAtEnd(base + o + Closes(n))
  {
    var p := base + o;
    assert p[|p| - 1] != ']' by {
      if |o| > 0 { assert p[|p| - 1] == o[|o| - 1]; }
    }
    TrailCountExact(p, Closes(n), {']'});
    CountCharAppend(base, o, '[');
  }

  /** A route like `/hello[/{name}]`, whose first node runs straight into an optional part,
      has no first literal segment: it is classified by its include hint instead. */
  lemma OptionalAfterFirstNode(w: string, rest: string)
    requires forall i :: 0 <= i < |w| ==> IsSegChar(w[i])
    ensures forall k :: !LiteralHeadAt("/" + w + "[" + rest, k)
  {
    var r := "/" + w + "[" + rest;
    assert r[|w| + 1] == '[';
  }

  // ---------------------------------------------------------------------------
  // findInStaticRoutes

  /** One registration of a static path: its comma-joined methods and its handler. */
  datatype RouteConf = RouteConf(methods: string, handler: Handler)

  /** The test `strpos($conf['methods'] . ',', $method . ',') !== false`. */
  predicate Accepts(conf: RouteConf, requestMethod: string) {
    Contains(conf.methods + ",", requestMethod + ",")
  }

  /** The `$methods .= $conf['methods'] . ','` accumulation over all registrations. */
  function ConcatMethods(routes: seq<RouteConf>): string {
    if |routes| == 0 then "" else ConcatMethods(routes[..|routes| - 1]) + routes[|routes| - 1].methods + ","
  }

  /** The allowed-method list reported when no registration accepts the method. */
  function AllowedList(routes: seq<RouteConf>): seq<string> {
    Values(ArrayUnique(Split(Trim(ConcatMethods(routes), {','}), ',')))
  }

  datatype StaticMatch =
    | StaticFound(path: string, conf: RouteConf)
    | StaticNotAllowed(path: string, allowed: seq<string>)

  /** `findInStaticRoutes($routes, $path, $requestMethod)`. */
  method FindInStaticRoutes(routes: seq<RouteConf>, path: string, requestMethod: string) returns (r: StaticMatch)
    ensures r.path == path
    ensures r.StaticFound? <==> exists i :: 0 <= i < |routes| && Accepts(routes[i], requestMethod)
    ensures r.StaticFound? ==> exists i :: 0 <= i < |routes| && r.conf == routes[i] && Accepts(routes[i], requestMethod)
                                           && forall j :: 0 <= j < i ==> !Accepts(routes[j], requestMethod)
    ensures r.StaticNotAllowed? ==> r.allowed == AllowedList(routes)
  {
    var methods := "";
    var i := 0;
    while i < |routes|
      invariant 0 <= i <= |routes|
      invariant forall j :: 0 <= j < i ==> !Accepts(routes[j], requestMethod)
      invariant methods == ConcatMethods(routes[..i])
    {
      if Accepts(routes[i], requestMethod) {
        return StaticFound(path, routes[i]);
      }
      methods := methods + routes[i].methods + ",";
      assert routes[..i + 1][..i] == routes[..i];
      i := i + 1;
    }
    assert routes[..i] == routes;
    r := StaticNotAllowed(path, Values(ArrayUnique(Split(Trim(methods, {','}), ','))));
  }

  /** The reported allowed methods are pairwise distinct and are exactly the method names
      occurring in the registrations' lists. */
  lemma AllowedListIsDeduplicated(routes: seq<RouteConf>)
    ensures forall p, q :: 0 <= p < q < |AllowedList(routes)| ==> AllowedList(routes)[p] != AllowedList(routes)[q]
    ensures forall m :: m in AllowedList(routes) <==> m in Split(Trim(ConcatMethods(routes), {','}), ',')
  {
    var xs := Split(Trim(ConcatMethods(routes), {','}), ',');
    ArrayUniqueValues(xs);
    var u := ArrayUnique(xs);
    assert forall p :: 0 <= p < |u| ==> Values(u)[p] == u[p].1;
  }

  /** `ET` is accepted for a `GET` registration: the test is a substring test. */
  lemma MethodFragmentAccepted()
    ensures Accepts(RouteConf("GET", Text("h")), "ET")
  {
    var w := "GET" + ",";
    var t := "ET" + ",";
    assert w[1..1 + |t|] == t;
    assert OccursAt(w, t, 1);
  }

  // ---------------------------------------------------------------------------
  // convertNodeStr

  /** No `-` is directly followed by a lower-case letter. */
  ghost predicate NoDashLower(s: string) {
    forall i, j :: 0 <= i < j < |s| && j == i + 1 ==> !(s[i] == '-' && IsLower(s[j]))
  }

  /** Length of the run of `-` starting at `i`. */
  function DashRun(s: string, i: nat): (n: nat)
    requires i <= |s|
    ensures i + n <= |s|
    ensures forall j :: i <= j < i + n ==> s[j] == '-'
    ensures i + n == |s| || s[i + n] != '-'
    decreases |s| - i
  {
    if i == |s| || s[i] != '-' then 0 else 1 + DashRun(s, i + 1)
  }

  /** `preg_replace_callback('/-+([a-z])/', strtoupper($1), $s)`: a run of dashes followed by a
      lower-case letter becomes that letter upper-cased; other dashes stay. */
  function CamelDashes(s: string): (r: string)
    ensures |r| <= |s|
    ensures NoDashLower(r)
    ensures |s| > 0 ==> |r| > 0 && (r[0] == s[0] || (s[0] == '-' && r[0] != '-' && !IsLower(r[0])))
    ensures |s| > 0 && s[0] != '-' ==> r[0] == s[0]
    decreases |s|
  {
    if |s| == 0 then ""
    else if s[0] != '-' then
      var rest := CamelDashes(s[1..]);
      [s[0]] + rest
    else
      var k := DashRun(s, 0);
      if k < |s| && IsLower(s[k]) then [UpperChar(s[k])] + CamelDashes(s[k + 1..])
      else
        var rest := CamelDashes(s[k..]);
        assert |s[k..]| > 0 ==> s[k..][0] != '-';
        s[..k] + rest
  }

  /** A string with no dash before a lower-case letter is left as it is. */
  lemma {:induction false} CamelDashesKeeps(s: string)
    requires NoDashLower(s)
    ensures CamelDashes(s) == s
    decreases |s|
  {
    if |s| > 0 {
      if s[0] != '-' {
        NoDashLowerDrop(s, 1);
        CamelDashesKeeps(s[1..]);
        assert CamelDashes(s) == [s[0]] + CamelDashes(s[1..]);
        assert [s[0]] + s[1..] == s;
      } else {
        var k := DashRun(s, 0);
        assert k < |s| ==> !IsLower(s[k]) by {
          if k < |s| {
            assert s[k - 1] == '-';
          }
        }
        NoDashLowerDrop(s, k);
        CamelDashesKeeps(s[k..]);
        assert CamelDashes(s) == s[..k] + CamelDashes(s[k..]);
        TakeDrop(s, k);
      }
    }
  }

  /** A suffix of a string with no dash before a lower-case letter has none either. */
  lemma NoDashLowerDrop(s: string, j: nat)
    requires NoDashLower(s) && j <= |s|
    ensures NoDashLower(s[j..])
  {
    forall p, q | 0 <= p < q < |s[j..]| && q == p + 1 ensures !(s[j..][p] == '-' && IsLower(s[j..][q])) {
      assert s[j..][p] == s[j + p] && s[j..][q] == s[j + q];
    }
  }

  /** `n` dashes. */
  function Dashes(n: nat): (r: string)
    ensures |r| == n && forall i :: 0 <= i < n ==> r[i] == '-'
  {
    seq(n, _ => '-')
  }

  /** The same rewrite as a left-to-right scan that holds back the dashes it has read
      (`pending` of them): a lower-case letter after held dashes replaces them by its upper
      case, any other character releases them unchanged. */
  function CamelScan(s: string, pending: nat): string
    decreases |s|
  {
    if |s| == 0 then Dashes(pending)
    else if s[0] == '-' then CamelScan(s[1..], pending + 1)
    else if pending > 0 && IsLower(s[0]) then [UpperChar(s[0])] + CamelScan(s[1..], 0)
    else Dashes(pending) + [s[0]] + CamelScan(s[1..], 0)
  }

  /** Reading a run of `k` dashes only adds them to the held ones. */
  lemma {:induction false} ScanDashes(s: string, k: nat, pending: nat)
    requires k <= |s| && forall j :: 0 <= j < k ==> s[j] == '-'
    ensures CamelScan(s, pending) == CamelScan(s[k..], pending + k)
    decreases k
  {
    if k > 0 {
      assert s[0] == '-';
      ScanDashes(s[1..], k - 1, pending + 1);
      assert s[1..][k - 1..] == s[k..];
    }
  }

  /** The rewrite agrees with the scan: the camel-case conversion is determined character by
      character. */
  lemma {:induction false} CamelDashesScan(s: string)
    ensures CamelDashes(s) == CamelScan(s, 0)
    decreases |s|
  {
    if |s| > 0 {
      if s[0] != '-' {
        CamelDashesScan(s[1..]);
        CamelScanHead(s);
      } else {
        var k := DashRun(s, 0);
        if k < |s| && IsLower(s[k]) {
          CamelDashesLower(s, k);
          CamelScanLower(s, k);
          CamelDashesScan(s[k + 1..]);
        } else if k == |s| {
          CamelAllDashes(s, k);
        } else {
          CamelDashesRelease(s, k);
          CamelScanRelease(s, k);
          CamelDashesScan(s[k + 1..]);
        }
      }
    }
  }

  lemma CamelScanHead(s: string)
    requires |s| > 0 && s[0] != '-'
    ensures CamelDashes(s) == [s[0]] + CamelDashes(s[1..])
    ensures CamelScan(s, 0) == [s[0]] + CamelScan(s[1..], 0)
  {
    assert Dashes(0) + [s[0]] == [s[0]];
  }

  lemma CamelScanLower(s: string, k: nat)
    requires |s| > 0 && s[0] == '-' && k == DashRun(s, 0) && k < |s| && IsLower(s[k])
    ensures CamelScan(s, 0) == [UpperChar(s[k])] + CamelScan(s[k + 1..], 0)
  {
    ScanDashes(s, k, 0);
    assert s[k..][0] == s[k] && s[k..][1..] == s[k + 1..];
  }

  lemma CamelAllDashes(s: string, k: nat)
    requires |s| > 0 && s[0] == '-' && k == DashRun(s, 0) && k == |s|
    ensures CamelDashes(s) == s && CamelScan(s, 0) == s
  {
    ScanDashes(s, k, 0);
    assert s[k..] == [];
    assert s[..k] == s == Dashes(k);
  }

  lemma CamelDashesRelease(s: string, k: nat)
    requires |s| > 0 && s[0] == '-' && k == DashRun(s, 0) && k < |s| && !IsLower(s[k])
    ensures CamelDashes(s) == s[..k] + ([s[k]] + CamelDashes(s[k + 1..]))
  {
    var t := s[k..];
    assert t[0] == s[k] && t[0] != '-' && t[1..] == s[k + 1..];
    assert CamelDashes(s) == s[..k] + CamelDashes(t);
  }

  lemma CamelScanRelease(s: string, k: nat)
    requires |s| > 0 && s[0] == '-' && k == DashRun(s, 0) && k < |s| && !IsLower(s[k])
    ensures CamelScan(s, 0) == s[..k] + ([s[k]] + CamelScan(s[k + 1..], 0))
  {
    ScanDashes(s, k, 0);
    var t := s[k..];
    assert t[0] == s[k] && t[1..] == s[k + 1..];
    CamelScanReleaseStep(t, k);
    assert s[..k] == Dashes(k);
  }

  /** Any character other than a dash or a letter after held dashes releases them. */
  lemma CamelScanReleaseStep(t: string, pending: nat)
    requires |t| > 0 && t[0] != '-' && !(pending > 0 && IsLower(t[0]))
    ensures CamelScan(t, pending) == Dashes(pending) + ([t[0]] + CamelScan(t[1..], 0))
  {
    ConcatAssoc(Dashes(pending), [t[0]], CamelScan(t[1..], 0));
  }

  /** `convertNodeStr($str)`: `first-second` becomes `firstSecond`. */
  function ConvertNodeStr(str: string): (r: string)
    ensures NoDashLower(r)
    ensures '-' !in str ==> r == str
    ensures |r| > 0 ==> r[0] != '-' && r[|r| - 1] != '-'
  {
    var t := Trim(str, {'-'});
    if StrposTruthy(t, '-') then
      var u := Trim(t, {'-', ' '});
      var r := CamelDashes(u);
      CamelDashesEnds(u);
      r
    else
      assert '-' !in t ==> NoDashLower(t);
      t
  }

  /** What `convertNodeStr` computes: after the outer dashes are trimmed, a node with an inner
      dash also loses its outer spaces and is rewritten as `CamelScan` does; any other node
      is the trimmed string. */
  lemma ConvertNodeStrScan(str: string)
    ensures '-' in Trim(str, {'-'}) ==> ConvertNodeStr(str) == CamelScan(Trim(Trim(str, {'-'}), {'-', ' '}), 0)
    ensures '-' !in Trim(str, {'-'}) ==> ConvertNodeStr(str) == Trim(str, {'-'})
  {
    var t := Trim(str, {'-'});
    if '-' in t {
      assert t[0] != '-';
      assert StrposTruthy(t, '-');
      CamelDashesScan(Trim(t, {'-', ' '}));
    }
  }

  /** The camel-case rewrite of a string that neither starts nor ends with `-` or a space
      neither starts nor ends with one. */
  lemma {:induction false} CamelDashesEnds(u: string)
    requires |u| > 0 ==> u[0] !in {'-', ' '} && u[|u| - 1] !in {'-', ' '}
    ensures |CamelDashes(u)| > 0 ==> CamelDashes(u)[0] !in {'-', ' '}
    ensures |CamelDashes(u)| > 0 ==> CamelDashes(u)[|CamelDashes(u)| - 1] !in {'-', ' '}
    decreases |u|
  {
    if |u| > 0 {
      CamelLast(u);
    }
  }

  /** The last character of the rewrite is the last character of the input, or a letter
      that replaced a dash run. */
  lemma {:induction false} CamelLast(s: string)
    requires |s| > 0 && s[|s| - 1] != '-'
    ensures EndsWithOrUpper(CamelDashes(s), s[|s| - 1])
    decreases |s|, 2
  {
    if s[0] != '-' {
      var rest := CamelDashes(s[1..]);
      assert CamelDashes(s) == [s[0]] + rest;
      if |s| == 1 {
        assert rest == [];
      } else {
        CamelLast(s[1..]);
        DropLast(s, 1);
        EndsWithOrUpperPrefix([s[0]], rest, s[|s| - 1]);
      }
    } else {
      var k := DashRun(s, 0);
      assert k < |s| by {
        assert s[|s| - 1] != '-';
      }
      if IsLower(s[k]) {
        CamelLastLower(s, k);
      } else {
        var rest := CamelDashes(s[k..]);
        assert CamelDashes(s) == s[..k] + rest;
        DropLast(s, k);
        CamelLast(s[k..]);
        EndsWithOrUpperPrefix(s[..k], rest, s[|s| - 1]);
      }
    }
  }

  /** The case of `CamelLast` where a dash run ends in a lower-case letter. */
  lemma {:induction false} CamelLastLower(s: string, k: nat)
    requires |s| > 0 && s[|s| - 1] != '-' && s[0] == '-'
    requires k == DashRun(s, 0) && k < |s| && IsLower(s[k])
    ensures EndsWithOrUpper(CamelDashes(s), s[|s| - 1])
    decreases |s|, 1
  {
    CamelDashesLower(s, k);
    if k + 1 == |s| {
      assert s[k + 1..] == [];
    } else {
      CamelLastLowerTail(s, k);
    }
  }

  lemma {:induction false} CamelLastLowerTail(s: string, k: nat)
    requires |s| > 0 && s[|s| - 1] != '-' && k + 1 < |s|
    ensures EndsWithOrUpper([UpperChar(s[k])] + CamelDashes(s[k + 1..]), s[|s| - 1])
    decreases |s|, 0
  {
    var t := s[k + 1..];
    DropLast(s, k + 1);
    CamelLast(t);
    EndsWithOrUpperPrefix([UpperChar(s[k])], CamelDashes(t), s[|s| - 1]);
  }

  /** A dash run ending in a lower-case letter becomes that letter in upper case. */
  lemma CamelDashesLower(s: string, k: nat)
    requires |s| > 0 && s[0] == '-' && k == DashRun(s, 0) && k < |s| && IsLower(s[k])
    ensures CamelDashes(s) == [UpperChar(s[k])] + CamelDashes(s[k + 1..])
  {
  }

  /** `r` is non-empty and ends in `c` or in an upper-case letter. */
  predicate EndsWithOrUpper(r: string, c: char) {
    |r| > 0 && (r[|r| - 1] == c || IsUpperAscii(r[|r| - 1]))
  }

  lemma EndsWithOrUpperPrefix(p: string, r: string, c: char)
    requires EndsWithOrUpper(r, c)
    ensures EndsWithOrUpper(p + r, c)
  {
    assert (p + r)[|p + r| - 1] == r[|r| - 1];
  }

  predicate IsUpperAscii(c: char) { 'A' <= c <= 'Z' }

  /** Converting twice is the same as converting once. */
  lemma ConvertNodeStrIdempotent(str: string)
    ensures ConvertNodeStr(ConvertNodeStr(str)) == ConvertNodeStr(str)
  {
    var t := Trim(str, {'-'});
    if StrposTruthy(t, '-') {
      var u := Trim(t, {'-', ' '});
      assert ConvertNodeStr(str) == CamelDashes(u);
      CamelDashesKept(u);
    } else {
      assert ConvertNodeStr(str) == t;
      assert '-' !in t;
    }
  }

  /** The camel-case rewrite of a node without outer dashes or spaces converts to itself. */
  lemma CamelDashesKept(u: string)
    requires |u| > 0 ==> u[0] !in {'-', ' '} && u[|u| - 1] !in {'-', ' '}
    ensures ConvertNodeStr(CamelDashes(u)) == CamelDashes(u)
  {
    CamelDashesEnds(u);
    ConvertNodeStrKeeps(CamelDashes(u));
  }

  /** A node with no dash before a lower-case letter, neither starting nor ending with a
      dash or a space, is left as it is. */
  lemma ConvertNodeStrKeeps(s: string)
    requires NoDashLower(s)
    requires |s| > 0 ==> s[0] !in {'-', ' '} && s[|s| - 1] !in {'-', ' '}
    ensures ConvertNodeStr(s) == s
  {
    TrimEndsKept(s, {'-'});
    if StrposTruthy(s, '-') {
      TrimEndsKept(s, {'-', ' '});
      CamelDashesKeeps(s);
    }
  }

  // ---------------------------------------------------------------------------
  // matchAutoRoute

  /** Builds `$cnp\\$dir\\Ucfirst($last)$sfx`, the class name tried for a node list. */
  function ControllerClass(cnp: string, dirs: seq<string>, last: string, sfx: string): string {
    cnp + "\\" + Join(dirs, "\\") + "\\" + Ucfirst(last) + sfx
  }

  function ConvertAll(nodes: seq<string>): (r: seq<string>)
    ensures |r| == |nodes|
    ensures forall i :: 0 <= i < |nodes| ==> r[i] == ConvertNodeStr(nodes[i])
  {
    seq(|nodes|, i requires 0 <= i < |nodes| => ConvertNodeStr(nodes[i]))
  }

  /** `r` is an existing class, or `class@action` for an existing class. */
  predicate NamesExistingClass(r: string, classExists: string -> bool) {
    classExists(r) || exists k :: 0 <= k < |r| && r[k] == '@' && classExists(r[..k])
  }

  /** Tries `first` as a controller class, then `second` with `action` as the action. */
  function TryClasses(first: string, second: string, action: string, classExists: string -> bool): (r: Option<string>)
    ensures r.Some? ==> NamesExistingClass(r.value, classExists)
    ensures r.Some? ==> r.value == first || second <= r.value
    ensures r.None? <==> !classExists(first) && !classExists(second)
    ensures classExists(first) ==> r == Some(first)
    ensures !classExists(first) && classExists(second) ==> r == Some(second + "@" + action)
  {
    if classExists(first) then Some(first)
    else if classExists(second) then
      var w := second + "@" + action;
      assert w[|second|] == '@' && w[..|second|] == second;
      Some(w)
    else None
  }

  /** The class first tried for two to five nodes: the last node is the controller. */
  function FirstCandidate(ary: seq<string>, cnp: string, sfx: string): string
    requires |ary| >= 2
  {
    ControllerClass(cnp, ary[..|ary| - 1], ary[|ary| - 1], sfx)
  }

  /** The class tried next: the last-but-one node is the controller (no directory part for
      two nodes). */
  function SecondCandidate(ary: seq<string>, cnp: string, sfx: string): string
    requires |ary| >= 2
  {
    if |ary| == 2 then cnp + "\\" + (Ucfirst(ary[0]) + sfx)
    else ControllerClass(cnp, ary[..|ary| - 2], ary[|ary| - 2], sfx)
  }

  /** The lookup for a path of two or more converted nodes `ary`: at most five nodes, the
      last node as controller first, then the last-but-one as controller with the last as action. */
  function AutoNodes(ary: seq<string>, cnp: string, sfx: string, classExists: string -> bool): (r: Option<string>)
    requires |ary| >= 2
    ensures r.Some? ==> NamesExistingClass(r.value, classExists) && cnp + "\\" <= r.value
    ensures |ary| > 5 ==> r.None?
    ensures |ary| <= 5 && classExists(FirstCandidate(ary, cnp, sfx)) ==> r == Some(FirstCandidate(ary, cnp, sfx))
    ensures |ary| <= 5 && !classExists(FirstCandidate(ary, cnp, sfx)) && classExists(SecondCandidate(ary, cnp, sfx)) ==>
              r == Some(SecondCandidate(ary, cnp, sfx) + "@" + ary[|ary| - 1])
    ensures !classExists(FirstCandidate(ary, cnp, sfx)) && !classExists(SecondCandidate(ary, cnp, sfx)) ==> r.None?
  {
    if |ary| > 5 then None
    else
      var c1 := FirstCandidate(ary, cnp, sfx);
      var c2 := SecondCandidate(ary, cnp, sfx);
      assert cnp + "\\" <= c1 && cnp + "\\" <= c2;
      TryClasses(c1, c2, ary[|ary| - 1], classExists)
  }

  /** The class tried for a path of one node. */
  function SingleCandidate(node: string, cnp: string, sfx: string): string {
    cnp + "\\" + (Ucfirst(ConvertNodeStr(node)) + sfx)
  }

  /** The path `matchAutoRoute` works on: slashes, dashes and spaces trimmed from both ends. */
  function AutoPath(path: string): string {
    Trim(path, {'/', '-', ' '})
  }

  /** `matchAutoRoute($path, $controllerNamespace, $controllerSuffix)`; `classExists` stands
      for `class_exists`. `None` is PHP's `false`. A path of one node names one class; a path
      of several nodes is looked up as `AutoNodes` does on its converted nodes. */
  function MatchAutoRoute(path: string, controllerNamespace: string, controllerSuffix: string,
                          classExists: string -> bool): (r: Option<string>)
    ensures r.Some? ==> NamesExistingClass(r.value, classExists)
    ensures r.Some? ==> Trim(controllerNamespace, Whitespace) + "\\" <= r.value
    ensures |Split(AutoPath(path), '/')| > 5 ==> r.None?
    ensures '/' !in AutoPath(path) ==>
              var cls := SingleCandidate(AutoPath(path), Trim(controllerNamespace, Whitespace), Trim(controllerSuffix, Whitespace));
              (r.Some? <==> classExists(cls)) && (r.Some? ==> r.value == cls)
    ensures '/' in AutoPath(path) ==>
              |Split(AutoPath(path), '/')| >= 2
              && r == AutoNodes(ConvertAll(Split(AutoPath(path), '/')), Trim(controllerNamespace, Whitespace),
                                Trim(controllerSuffix, Whitespace), classExists)
  {
    var cnp := Trim(controllerNamespace, Whitespace);
    var sfx := Trim(controllerSuffix, Whitespace);
    var tmp := AutoPath(path);
    assert '/' in tmp ==> StrposTruthy(tmp, '/') by {
      if '/' in tmp {
        assert tmp[0] != '/';
      }
    }
    if !StrposTruthy(tmp, '/') then
      var cls := SingleCandidate(tmp, cnp, sfx);
      if classExists(cls) then Some(cls) else None
    else
      var nodes := Split(tmp, '/');
      assert |nodes| >= 2;
      AutoNodes(ConvertAll(nodes), cnp, sfx, classExists)
  }

  /** A joined list starts with its first part's first character and ends with its last
      part's last character. */
  lemma JoinBounds(ms: seq<string>, sep: string)
    requires |ms| >= 1 && |ms[0]| > 0 && |ms[|ms| - 1]| > 0
    ensures |Join(ms, sep)| > 0
    ensures Join(ms, sep)[0] == ms[0][0]
    ensures Join(ms, sep)[|Join(ms, sep)| - 1] == ms[|ms| - 1][|ms[|ms| - 1]| - 1]
  {
    JoinLast(ms, sep);
    if |ms| > 1 {
      assert Join(ms, sep) == ms[0] + sep + Join(ms[1..], sep);
    }
  }

  lemma {:induction false} JoinLast(ms: seq<string>, sep: string)
    requires |ms| >= 1 && |ms[|ms| - 1]| > 0
    ensures |Join(ms, sep)| > 0
    ensures Join(ms, sep)[|Join(ms, sep)| - 1] == ms[|ms| - 1][|ms[|ms| - 1]| - 1]
  {
    if |ms| > 1 {
      var rest := ms[1..];
      assert rest[|rest| - 1] == ms[|ms| - 1];
      JoinLast(rest, sep);
      var j := Join(rest, sep);
      assert Join(ms, sep) == ms[0] + sep + j;
      assert Join(ms, sep)[|Join(ms, sep)| - 1] == j[|j| - 1];
    }
  }

  /** A path written as two or more slash-free nodes, with no slash, dash or space at either
      end, is looked up node by node: `matchAutoRoute` splits it back into exactly those
      nodes and converts each. */
  lemma MatchAutoRouteNodes(nodes: seq<string>, controllerNamespace: string, controllerSuffix: string,
                            classExists: string -> bool)
    requires |nodes| >= 2
    requires forall i :: 0 <= i < |nodes| ==> '/' !in nodes[i]
    requires |nodes[0]| > 0 && nodes[0][0] !in {'/', '-', ' '}
    requires |nodes[|nodes| - 1]| > 0 && nodes[|nodes| - 1][|nodes[|nodes| - 1]| - 1] !in {'/', '-', ' '}
    ensures MatchAutoRoute(Join(nodes, "/"), controllerNamespace, controllerSuffix, classExists)
            == AutoNodes(ConvertAll(nodes), Trim(controllerNamespace, Whitespace), Trim(controllerSuffix, Whitespace), classExists)
  {
    var path := Join(nodes, "/");
    JoinBounds(nodes, "/");
    TrimEndsKept(path, {'/', '-', ' '});
    assert path == nodes[0] + "/" + Join(nodes[1..], "/");
    assert path[|nodes[0]|] == '/';
    assert "/" == ['/'];
    SplitJoin(nodes, '/');
  }

  // ---------------------------------------------------------------------------
  // getAvailableParams, addGlobalParam

  /** A placeholder name with its braces trimmed, `trim($name, '{}')`. */
  function TrimBraces(name: string): string {
    Trim(name, {'{', '}'})
  }

  /** The assignments `getAvailableParams` performs, in order. */
  function BraceTrimmed(tmpParams: seq<(string, string)>): (kvs: seq<(string, string)>)
    ensures |kvs| == |tmpParams|
    ensures forall i :: 0 <= i < |tmpParams| ==> kvs[i] == (TrimBraces(tmpParams[i].0), tmpParams[i].1)
  {
    seq(|tmpParams|, i requires 0 <= i < |tmpParams| => (TrimBraces(tmpParams[i].0), tmpParams[i].1))
  }

  /** `getAvailableParams($params, $tmpParams)`: each `{name}` of `tmpParams` (braces trimmed)
      is set to its pattern, in order, so the last pattern for a name wins and names not
      given keep their pattern. */
  function GetAvailableParams(params: map<string, string>, tmpParams: seq<(string, string)>): (r: map<string, string>)
    ensures forall k :: k in r <==> k in params || exists i :: 0 <= i < |tmpParams| && TrimBraces(tmpParams[i].0) == k
    ensures forall k :: k in params && (forall i :: 0 <= i < |tmpParams| ==> TrimBraces(tmpParams[i].0) != k) ==> r[k] == params[k]
    ensures forall i :: 0 <= i < |tmpParams| && (forall j :: i < j < |tmpParams| ==> TrimBraces(tmpParams[j].0) != TrimBraces(tmpParams[i].0))
              ==> r[TrimBraces(tmpParams[i].0)] == tmpParams[i].1
  {
    AvailableKeys(params, tmpParams);
    AvailableKept(params, tmpParams);
    AvailableLast(params, tmpParams);
    AssignAll(params, BraceTrimmed(tmpParams))
  }

  lemma AvailableKeys(params: map<string, string>, tmpParams: seq<(string, string)>)
    ensures var r := AssignAll(params, BraceTrimmed(tmpParams));
            forall k :: k in r <==> k in params || exists i :: 0 <= i < |tmpParams| && TrimBraces(tmpParams[i].0) == k
  {
    var kvs := BraceTrimmed(tmpParams);
    forall k | Assigned(kvs, k) ensures exists i :: 0 <= i < |tmpParams| && TrimBraces(tmpParams[i].0) == k {
      var i :| 0 <= i < |kvs| && kvs[i].0 == k;
      assert TrimBraces(tmpParams[i].0) == k;
    }
    forall k, i | 0 <= i < |tmpParams| && TrimBraces(tmpParams[i].0) == k ensures Assigned(kvs, k) {
      assert kvs[i].0 == k;
    }
  }

  lemma AvailableKept(params: map<string, string>, tmpParams: seq<(string, string)>)
    ensures var r := AssignAll(params, BraceTrimmed(tmpParams));
            forall k :: k in params && (forall i :: 0 <= i < |tmpParams| ==> TrimBraces(tmpParams[i].0) != k) ==> r[k] == params[k]
  {
    var kvs := BraceTrimmed(tmpParams);
    forall k | k in params && (forall i :: 0 <= i < |tmpParams| ==> TrimBraces(tmpParams[i].0) != k)
      ensures AssignAll(params, kvs)[k] == params[k]
    {
      assert !Assigned(kvs, k);
      AssignAllKeep(params, kvs, k);
    }
  }

  lemma AvailableLast(params: map<string, string>, tmpParams: seq<(string, string)>)
    ensures var r := AssignAll(params, BraceTrimmed(tmpParams));
            forall i :: 0 <= i < |tmpParams| && (forall j :: i < j < |tmpParams| ==> TrimBraces(tmpParams[j].0) != TrimBraces(tmpParams[i].0))
              ==> TrimBraces(tmpParams[i].0) in r && r[TrimBraces(tmpParams[i].0)] == tmpParams[i].1
  {
    var kvs := BraceTrimmed(tmpParams);
    forall i | 0 <= i < |tmpParams| && (forall j :: i < j < |tmpParams| ==> TrimBraces(tmpParams[j].0) != TrimBraces(tmpParams[i].0))
      ensures TrimBraces(tmpParams[i].0) in AssignAll(params, kvs)
      ensures AssignAll(params, kvs)[TrimBraces(tmpParams[i].0)] == tmpParams[i].1
    {
      assert LastAssigned(kvs, i);
      assert Assigned(kvs, kvs[i].0);
      AssignAllLast(params, kvs, i);
    }
  }

  /** `addGlobalParam($name, $pattern)`: the name, with `{`, `}` and spaces trimmed, now maps to the pattern. */
  function AddGlobalParam(globals: map<string, string>, name: string, pattern: string): (r: map<string, string>)
    ensures Trim(name, {'{', '}', ' '}) in r && r[Trim(name, {'{', '}', ' '})] == pattern
    ensures forall k :: k != Trim(name, {'{', '}', ' '}) ==> (k in r <==> k in globals) && (k in r ==> r[k] == globals[k])
  {
    globals[Trim(name, {'{', '}', ' '}) := pattern]
  }

  /** The assignments `addGlobalParams` performs, in order. */
  function GlobalAssignments(params: seq<(string, string)>): (kvs: seq<(string, string)>)
    ensures |kvs| == |params|
    ensures forall i :: 0 <= i < |params| ==> kvs[i] == (Trim(params[i].0, {'{', '}', ' '}), params[i].1)
  {
    seq(|params|, i requires 0 <= i < |params| => (Trim(params[i].0, {'{', '}', ' '}), params[i].1))
  }

  /** `addGlobalParams($params)`: `addGlobalParam` for each pair, in order. */
  function AddGlobalParams(globals: map<string, string>, params: seq<(string, string)>): (r: map<string, string>)
    ensures forall k :: k in globals ==> k in r
    ensures forall i :: 0 <= i < |params| ==> Trim(params[i].0, {'{', '}', ' '}) in r
    decreases |params|
  {
    if |params| == 0 then globals
    else AddGlobalParams(AddGlobalParam(globals, params[0].0, params[0].1), params[1..])
  }

  /** Adding the pairs one by one is one run of assignments: the last pattern for a trimmed
      name wins and the other global patterns stay. */
  lemma {:induction false} AddGlobalParamsAssigns(globals: map<string, string>, params: seq<(string, string)>)
    ensures AddGlobalParams(globals, params) == AssignAll(globals, GlobalAssignments(params))
    ensures forall k :: k in globals && !Assigned(GlobalAssignments(params), k) ==> AddGlobalParams(globals, params)[k] == globals[k]
    ensures forall i :: LastAssigned(GlobalAssignments(params), i) ==>
              AddGlobalParams(globals, params)[GlobalAssignments(params)[i].0] == params[i].1
    decreases |params|
  {
    if |params| > 0 {
      AddGlobalParamsAssigns(AddGlobalParam(globals, params[0].0, params[0].1), params[1..]);
      assert GlobalAssignments(params)[1..] == GlobalAssignments(params[1..]);
    }
    AssignAllValues(globals, GlobalAssignments(params));
  }
}
