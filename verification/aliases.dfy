/** Path aliases (`App::setAlias`, `App::getAlias`, `App::setAliases`): a table from `@name`
    to a path, where a path may itself start with a registered root alias that is expanded
    when the alias is set. The static table is passed in and returned explicitly. */
module PathAliases {
  import opened Wrappers
  import opened Strings

  /** `App::$aliases`. */
  type Aliases = map<string, string>

  /** The table before any alias is set: `@Swoft` is the framework's own directory. */
  function InitialAliases(swoftDir: string): Aliases {
    map["@Swoft" := swoftDir]
  }

  /** Every alias name starts with `@`. */
  predicate WellNamed(m: Aliases) {
    forall k :: k in m ==> |k| > 0 && k[0] == '@'
  }

  datatype AliasError = RootNotRegistered(root: string)   // \InvalidArgumentException

  /** `@` is prepended to a name that does not start with it. */
  function AliasName(alias: string): (r: string)
    ensures |r| > 0 && r[0] == '@'
    ensures |alias| > 0 && alias[0] == '@' ==> r == alias
    ensures !(|alias| > 0 && alias[0] == '@') ==> r == "@" + alias
  {
    if |alias| > 0 && alias[0] == '@' then alias else "@" + alias
  }

  /** The text before the first `/`: `list($root) = explode('/', $path)`. */
  function Root(path: string): string {
    Split(path, '/')[0]
  }

  /** A path starting with a registered root: the root's path followed by the given path with
      every occurrence of the root removed. */
  function Expand(m: Aliases, path: string): Result<string, AliasError> {
    var root := Root(path);
    if root !in m then Err(RootNotRegistered(root)) else Ok(m[root] + ReplaceAll(path, root, ""))
  }

  /** `setAlias($alias, $path)`: no path (or "", which PHP compares equal to null) removes
      the alias; a path without `@` is stored as it is; a registered alias is copied; any
      other path is expanded from its root, which must be registered. */
  function SetAlias(m: Aliases, alias: string, path: Option<string>): (r: Result<Aliases, AliasError>)
    ensures path.None? || path == Some("") ==> r == Ok(m - {AliasName(alias)})
    ensures path.Some? && path.value != "" && '@' !in path.value ==> r == Ok(m[AliasName(alias) := path.value])
    ensures path.Some? && '@' in path.value && path.value in m ==> r == Ok(m[AliasName(alias) := m[path.value]])
    ensures path.Some? && '@' in path.value && path.value !in m ==>
              (r.Err? <==> Root(path.value) !in m)
              && (r.Err? ==> r.error == RootNotRegistered(Root(path.value)))
              && (r.Ok? ==> r.value == m[AliasName(alias) := Expand(m, path.value).value])
    ensures r.Ok? ==> forall k :: k != AliasName(alias) ==> (k in r.value <==> k in m) && (k in m ==> r.value[k] == m[k])
    ensures r.Ok? && WellNamed(m) ==> WellNamed(r.value)
  {
    var name := AliasName(alias);
    match path
    case None => Ok(m - {name})
    case Some(p) =>
      if p == "" then Ok(m - {name})
      else if '@' !in p then Ok(m[name := p])
      else if p in m then Ok(m[name := m[p]])
      else
        var e := Expand(m, p);
        if e.Err? then Err(e.error) else Ok(m[name := e.value])
  }

  /** `getAlias($alias)`: a registered alias gives its path; a string without `@` is a plain
      path and comes back as it is; anything else is expanded from its root. */
  function GetAlias(m: Aliases, alias: string): (r: Result<string, AliasError>)
    ensures alias in m ==> r == Ok(m[alias])
    ensures alias !in m && '@' !in alias ==> r == Ok(alias)
    ensures alias !in m && '@' in alias ==> r == Expand(m, alias)
  {
    if alias in m then Ok(m[alias])
    else if '@' !in alias then Ok(alias)
    else Expand(m, alias)
  }

  /** Setting an alias stores what reading its path back gives: `setAlias` and `getAlias`
      resolve a path alike, and a failing resolution sets nothing. */
  lemma SetStoresResolved(m: Aliases, alias: string, path: string)
    requires WellNamed(m) && path != ""
    ensures SetAlias(m, alias, Some(path)).Ok? <==> GetAlias(m, path).Ok?
    ensures SetAlias(m, alias, Some(path)).Ok? ==>
              SetAlias(m, alias, Some(path)).value == m[AliasName(alias) := GetAlias(m, path).value]
    ensures SetAlias(m, alias, Some(path)).Err? ==> SetAlias(m, alias, Some(path)).error == GetAlias(m, path).error
  {
  }

  /** An alias that was set reads back as the path it was given, resolved. */
  lemma SetThenGet(m: Aliases, alias: string, path: string)
    requires WellNamed(m) && path != "" && GetAlias(m, path).Ok?
    ensures SetAlias(m, alias, Some(path)).Ok?
    ensures GetAlias(SetAlias(m, alias, Some(path)).value, AliasName(alias)) == GetAlias(m, path)
  {
    SetStoresResolved(m, alias, path);
  }

  /** A removed alias is no longer registered, and nothing else changes. */
  lemma RemoveForgets(m: Aliases, alias: string)
    ensures SetAlias(m, alias, None).Ok?
    ensures AliasName(alias) !in SetAlias(m, alias, None).value
    ensures forall k :: k in m && k != AliasName(alias) ==> k in SetAlias(m, alias, None).value
  {
  }

  /** `setAlias('x', ...)` and `setAlias('@x', ...)` are the same. */
  lemma NameWithOrWithoutAt(m: Aliases, x: string, path: Option<string>)
    ensures !(|x| > 0 && x[0] == '@') ==> SetAlias(m, x, path) == SetAlias(m, "@" + x, path)
    ensures AliasName(AliasName(x)) == AliasName(x)
  {
  }

  /** `@root/rest` expands to the root's path followed by `/rest` when the root does not occur
      again in the rest. */
  lemma ExpandRootPrefix(m: Aliases, root: string, rest: string)
    requires '/' !in root && |root| > 0 && root in m
    requires !Contains("/" + rest, root)
    ensures Expand(m, root + "/" + rest) == Ok(m[root] + "/" + rest)
  {
    var q := "/" + rest;
    var p := root + q;
    assert root + "/" + rest == p;
    assert root + ['/'] + rest == p;
    SplitHead(root, rest, '/');
    assert Root(p) == root;
    ReplaceAllLeading(q, root, "");
    ReplaceAllAbsent(q, root, "");
    assert ReplaceAll(p, root, "") == q;
    assert m[root] + q == m[root] + "/" + rest;
  }

  /** What `setAliases` leaves behind: the table after every pair, or the table after the
      pairs before the first failing one together with that failure (the static table keeps
      the aliases set before the exception). */
  datatype SetOutcome =
    | Done(table: Aliases)
    | Failed(table: Aliases, error: AliasError)

  /** `setAliases($aliases)`: each pair in order, stopping at the first failure. */
  function SetAliases(m: Aliases, pairs: seq<(string, Option<string>)>): (r: SetOutcome)
    ensures WellNamed(m) ==> WellNamed(r.table)
    ensures |pairs| == 0 ==> r == Done(m)
    ensures |pairs| > 0 && SetAlias(m, pairs[0].0, pairs[0].1).Err? ==>
              r == Failed(m, SetAlias(m, pairs[0].0, pairs[0].1).error)
    decreases |pairs|
  {
    if |pairs| == 0 then Done(m)
    else
      match SetAlias(m, pairs[0].0, pairs[0].1)
      case Err(e) => Failed(m, e)
      case Ok(m1) => SetAliases(m1, pairs[1..])
  }

  /** Setting a run of aliases and then another is setting the longer run. */
  lemma {:induction false} SetAliasesAppend(m: Aliases, a: seq<(string, Option<string>)>, b: seq<(string, Option<string>)>)
    ensures SetAliases(m, a + b) == match SetAliases(m, a) case Failed(t, e) => Failed(t, e) case Done(m1) => SetAliases(m1, b)
    decreases |a|
  {
    if |a| == 0 {
      assert a + b == b;
    } else {
      assert (a + b)[0] == a[0];
      assert (a + b)[1..] == a[1..] + b;
      match SetAlias(m, a[0].0, a[0].1)
      case Err(_) =>
      case Ok(m1) => SetAliasesAppend(m1, a[1..], b);
    }
  }

  /** A failing pair stops the run, and the aliases the pairs before it set stay set. */
  lemma FailureKeepsEarlierPairs(m: Aliases, a: seq<(string, Option<string>)>, p: (string, Option<string>),
                                 b: seq<(string, Option<string>)>)
    requires SetAliases(m, a).Done?
    requires SetAlias(SetAliases(m, a).table, p.0, p.1).Err?
    ensures SetAliases(m, a + [p] + b)
            == Failed(SetAliases(m, a).table, SetAlias(SetAliases(m, a).table, p.0, p.1).error)
  {
    SetAliasesAppend(m, a, [p] + b);
    assert a + [p] + b == a + ([p] + b);
    assert ([p] + b)[0] == p;
  }

  /** The last pair for a name decides its alias when every path is plain. */
  lemma {:induction false} PlainAliasesLastWins(m: Aliases, pairs: seq<(string, Option<string>)>, i: int)
    requires 0 <= i < |pairs|
    requires forall j :: 0 <= j < |pairs| ==> pairs[j].1.Some? && pairs[j].1.value != "" && '@' !in pairs[j].1.value
    requires forall j :: i < j < |pairs| ==> AliasName(pairs[j].0) != AliasName(pairs[i].0)
    ensures SetAliases(m, pairs).Done?
    ensures AliasName(pairs[i].0) in SetAliases(m, pairs).table
    ensures SetAliases(m, pairs).table[AliasName(pairs[i].0)] == pairs[i].1.value
    decreases |pairs|
  {
    var m1 := m[AliasName(pairs[0].0) := pairs[0].1.value];
    assert SetAlias(m, pairs[0].0, pairs[0].1) == Ok(m1);
    assert forall j :: 0 <= j < |pairs[1..]| ==> pairs[1..][j] == pairs[j + 1];
    if i == 0 {
      PlainAliasesKeep(m1, pairs[1..], AliasName(pairs[0].0));
    } else {
      PlainAliasesLastWins(m1, pairs[1..], i - 1);
    }
  }

  /** Plain paths set under other names leave an alias as it is. */
  lemma {:induction false} PlainAliasesKeep(m: Aliases, pairs: seq<(string, Option<string>)>, name: string)
    requires name in m
    requires forall j :: 0 <= j < |pairs| ==> pairs[j].1.Some? && pairs[j].1.value != "" && '@' !in pairs[j].1.value
    requires forall j :: 0 <= j < |pairs| ==> AliasName(pairs[j].0) != name
    ensures SetAliases(m, pairs).Done?
    ensures name in SetAliases(m, pairs).table && SetAliases(m, pairs).table[name] == m[name]
    decreases |pairs|
  {
    if |pairs| > 0 {
      var m1 := m[AliasName(pairs[0].0) := pairs[0].1.value];
      assert SetAlias(m, pairs[0].0, pairs[0].1) == Ok(m1);
      assert forall j :: 0 <= j < |pairs[1..]| ==> pairs[1..][j] == pairs[j + 1];
      PlainAliasesKeep(m1, pairs[1..], name);
    }
  }
}
