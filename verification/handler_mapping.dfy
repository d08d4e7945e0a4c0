/** The RPC handler mapping: the route table that sends a `Prefix::method` service key to the
    class and method that handle it, built from the collected service mapping. */
module RpcRouter {
  import opened Wrappers
  import opened Strings
  import opened PhpArrays
  import opened ServiceBeans

  /** The class-name suffix a service prefix is derived from. */
  const Suffix: string := "Service"

  /** `[$className, $methodName]`. */
  type Handler = (string, string)

  /** `HandlerMapping::$routes`: service key to handler. */
  type RouteTable = map<string, Handler>

  predicate AllWordChars(s: string) {
    forall i :: 0 <= i < |s| ==> IsWordChar(s[i])
  }

  // ---------------------------------------------------------------------------
  // getPrefix

  /** The class name without one final newline, which PCRE's `$` lets through. */
  function Subject(className: string): string {
    if |className| > 0 && className[|className| - 1] == '\n' then className[..|className| - 1] else className
  }

  /** The prefix a match gives from the text before the last backslash and the word after
      it: `.*` must not cross a newline, and the word must end in the suffix. */
  function PrefixOfTail(head: string, tail: string): (r: string)
    ensures r != "" ==> |tail| > |Suffix| && tail[|tail| - |Suffix|..] == Suffix && AllWordChars(r)
  {
    if '\n' !in head && |tail| > |Suffix| && tail[|tail| - |Suffix|..] == Suffix && AllWordChars(tail) then
      var w := tail[..|tail| - |Suffix|];
      assert AllWordChars(w) by { assert forall j :: 0 <= j < |w| ==> w[j] == tail[j]; }
      Ucfirst(w)
    else ""
  }

  /** The prefix `preg_match('/^.*\\(\w+)Service$/', $className)` derives: the word between
      the last backslash and the `Service` suffix, upper-cased first, or "" without a match. */
  function DerivePrefix(className: string): (r: string)
    ensures r != "" ==> '\\' in Subject(className) && |Suffix| < |Subject(className)|
                        && Subject(className)[|Subject(className)| - |Suffix|..] == Suffix
    ensures r != "" ==> AllWordChars(r)
  {
    var body := Subject(className);
    if '\\' !in body then ""
    else
      var i := LastIndex(body, '\\');
      var r := PrefixOfTail(body[..i], body[i + 1..]);
      assert r != "" ==> body[|body| - |Suffix|..] == body[i + 1..][|body[i + 1..]| - |Suffix|..];
      r
  }

  /** A word ending in the suffix after a newline-free head gives the word, upper-cased first. */
  lemma PrefixOfWord(ns: string, w: string)
    requires '\n' !in ns && |w| > 0 && AllWordChars(w)
    ensures PrefixOfTail(ns, w + Suffix) == Ucfirst(w)
  {
    var tail := w + Suffix;
    assert tail[|tail| - |Suffix|..] == Suffix;
    assert tail[..|tail| - |Suffix|] == w;
    assert AllWordChars(tail) by {
      forall j | 0 <= j < |tail| ensures IsWordChar(tail[j]) {
        if j >= |w| { assert tail[j] == Suffix[j - |w|]; }
      }
    }
  }

  /** `Ns\WordService` gives the prefix `Word`: the namespace is dropped and the first letter
      upper-cased. */
  lemma DerivePrefixOf(ns: string, w: string)
    requires '\n' !in ns && |w| > 0 && AllWordChars(w)
    ensures DerivePrefix(ns + "\\" + w + Suffix) == Ucfirst(w)
  {
    var tail := w + Suffix;
    var cn := ns + "\\" + tail;
    assert cn == ns + "\\" + w + Suffix;
    assert cn[|cn| - 1] == Suffix[|Suffix| - 1];
    assert Subject(cn) == cn;
    var i := |ns|;
    assert cn[i] == '\\';
    assert cn[i + 1..] == tail;
    assert cn[..i] == ns;
    assert '\\' !in tail by {
      assert AllWordChars(tail) by {
        forall j | 0 <= j < |tail| ensures IsWordChar(tail[j]) {
          if j >= |w| { assert tail[j] == Suffix[j - |w|]; }
        }
      }
    }
    LastIndexUnique(cn, '\\', i);
    PrefixOfWord(ns, w);
  }

  /** A class name without a namespace separator gives no prefix. */
  lemma DerivePrefixNeedsNamespace(className: string)
    requires '\\' !in className
    ensures DerivePrefix(className) == ""
  {
    assert '\\' !in Subject(className) by {
      if Subject(className) != className {
        assert Subject(className) == className[..|className| - 1];
      }
    }
  }

  /** `getPrefix($suffix, $prefix, $className)`: a non-empty declared prefix is used as it
      is; otherwise the prefix is derived from the class name. */
  function GetPrefix(prefix: string, className: string): (r: string)
    ensures !PhpEmpty(prefix) ==> r == prefix
    ensures PhpEmpty(prefix) ==> r == DerivePrefix(className)
  {
    if !PhpEmpty(prefix) then prefix else DerivePrefix(className)
  }

  // ---------------------------------------------------------------------------
  // registerRoute, register

  /** The name a route is exposed under: its mapped name, or its method name when the mapped
      name is empty. */
  function ExposedName(route: Route): string {
    if PhpEmpty(route.mappedName) then route.methodName else route.mappedName
  }

  /** `$prefix . '::' . $mappedName`, the method name standing in for an empty mapped name. */
  function ServiceKey(prefix: string, route: Route): (r: string)
    ensures |r| == |prefix| + 2 + |ExposedName(route)|
    ensures r[..|prefix|] == prefix && r[|prefix|..|prefix| + 2] == "::"
    ensures r[|prefix| + 2..] == ExposedName(route)
  {
    prefix + "::" + ExposedName(route)
  }

  /** Two routes of one service share a key exactly when they are exposed under the same
      name, so a later route replaces an earlier one only then. */
  lemma ServiceKeysCollide(prefix: string, a: Route, b: Route)
    ensures ServiceKey(prefix, a) == ServiceKey(prefix, b) <==> ExposedName(a) == ExposedName(b)
  {
    if ServiceKey(prefix, a) == ServiceKey(prefix, b) {
      assert ServiceKey(prefix, a)[|prefix| + 2..] == ServiceKey(prefix, b)[|prefix| + 2..];
    }
  }

  /** Keys of services with different prefixes never collide when neither prefix holds a `:`. */
  lemma ServiceKeysSeparate(p: string, q: string, a: Route, b: Route)
    requires ':' !in p && ':' !in q && p != q
    ensures ServiceKey(p, a) != ServiceKey(q, b)
  {
    if |p| < |q| {
      ShorterPrefixSeparate(p, q, a, b);
    } else if |q| < |p| {
      ShorterPrefixSeparate(q, p, b, a);
    }
  }

  lemma ShorterPrefixSeparate(p: string, q: string, a: Route, b: Route)
    requires ':' !in q && |p| < |q|
    ensures ServiceKey(p, a) != ServiceKey(q, b)
  {
    assert ServiceKey(p, a)[|p|] == ':' && ServiceKey(q, b)[|p|] == q[|p|];
  }

  /** The assignments `registerRoute` performs, in order. */
  function RouteAssignments(className: string, prefix: string, routes: seq<Route>): (kvs: seq<(string, Handler)>)
    ensures |kvs| == |routes|
    ensures forall i :: 0 <= i < |routes| ==> kvs[i] == (ServiceKey(prefix, routes[i]), (className, routes[i].methodName))
  {
    seq(|routes|, i requires 0 <= i < |routes| => (ServiceKey(prefix, routes[i]), (className, routes[i].methodName)))
  }

  /** `registerRoute($className, $routes, $prefix)`: every route's service key now leads to
      the class and its method; a key given twice keeps the later route. */
  function RegisterRoute(table: RouteTable, className: string, routes: seq<Route>, prefix: string): (r: RouteTable)
    ensures forall k :: k in r <==> k in table || exists i :: 0 <= i < |routes| && ServiceKey(prefix, routes[i]) == k
    ensures forall k :: k in table && (forall i :: 0 <= i < |routes| ==> ServiceKey(prefix, routes[i]) != k) ==> r[k] == table[k]
    ensures forall i :: 0 <= i < |routes| && (forall j :: i < j < |routes| ==> ServiceKey(prefix, routes[j]) != ServiceKey(prefix, routes[i]))
              ==> r[ServiceKey(prefix, routes[i])] == (className, routes[i].methodName)
  {
    RouteKeys(table, className, routes, prefix);
    RouteKept(table, className, routes, prefix);
    RouteLast(table, className, routes, prefix);
    AssignAll(table, RouteAssignments(className, prefix, routes))
  }

  lemma RouteKeys(table: RouteTable, className: string, routes: seq<Route>, prefix: string)
    ensures var r := AssignAll(table, RouteAssignments(className, prefix, routes));
            forall k :: k in r <==> k in table || exists i :: 0 <= i < |routes| && ServiceKey(prefix, routes[i]) == k
  {
    var kvs := RouteAssignments(className, prefix, routes);
    forall k | Assigned(kvs, k) ensures exists i :: 0 <= i < |routes| && ServiceKey(prefix, routes[i]) == k {
      var i :| 0 <= i < |kvs| && kvs[i].0 == k;
      assert ServiceKey(prefix, routes[i]) == k;
    }
    forall k, i | 0 <= i < |routes| && ServiceKey(prefix, routes[i]) == k ensures Assigned(kvs, k) {
      assert kvs[i].0 == k;
    }
  }

  lemma RouteKept(table: RouteTable, className: string, routes: seq<Route>, prefix: string)
    ensures var r := AssignAll(table, RouteAssignments(className, prefix, routes));
            forall k :: k in table && (forall i :: 0 <= i < |routes| ==> ServiceKey(prefix, routes[i]) != k) ==> r[k] == table[k]
  {
    var kvs := RouteAssignments(className, prefix, routes);
    forall k | k in table && (forall i :: 0 <= i < |routes| ==> ServiceKey(prefix, routes[i]) != k)
      ensures AssignAll(table, kvs)[k] == table[k]
    {
      assert !Assigned(kvs, k);
      AssignAllKeep(table, kvs, k);
    }
  }

  lemma RouteLast(table: RouteTable, className: string, routes: seq<Route>, prefix: string)
    ensures var r := AssignAll(table, RouteAssignments(className, prefix, routes));
            forall i :: 0 <= i < |routes| && (forall j :: i < j < |routes| ==> ServiceKey(prefix, routes[j]) != ServiceKey(prefix, routes[i]))
              ==> ServiceKey(prefix, routes[i]) in r && r[ServiceKey(prefix, routes[i])] == (className, routes[i].methodName)
  {
    var kvs := RouteAssignments(className, prefix, routes);
    forall i | 0 <= i < |routes| && (forall j :: i < j < |routes| ==> ServiceKey(prefix, routes[j]) != ServiceKey(prefix, routes[i]))
      ensures ServiceKey(prefix, routes[i]) in AssignAll(table, kvs)
      ensures AssignAll(table, kvs)[ServiceKey(prefix, routes[i])] == (className, routes[i].methodName)
    {
      assert LastAssigned(kvs, i);
      assert Assigned(kvs, kvs[i].0);
      AssignAllLast(table, kvs, i);
    }
  }

  /** Both parts a class entry needs before it can be registered. */
  predicate Complete(e: ServiceEntry) {
    e.name.Some? && e.routes.Some?
  }

  /** The outcome of `register`: the finished table, or the `TypeError` PHP raises for the
      first entry without a name or a route list, with the routes registered before it. */
  datatype Registration = Registered(table: RouteTable) | TypeError(partial: RouteTable, className: string)

  /** `register($serviceMapping)`: the classes in order. */
  function Register(table: RouteTable, serviceMapping: ServiceMapping): (r: Registration)
    ensures r.Registered? <==> forall i :: 0 <= i < |serviceMapping| ==> Complete(serviceMapping[i].1)
    ensures r.TypeError? ==> exists i :: 0 <= i < |serviceMapping| && serviceMapping[i].0 == r.className
                                        && !Complete(serviceMapping[i].1)
                                        && forall j :: 0 <= j < i ==> Complete(serviceMapping[j].1)
    ensures |serviceMapping| > 0 && !Complete(serviceMapping[0].1) ==> r == TypeError(table, serviceMapping[0].0)
    decreases |serviceMapping|
  {
    if |serviceMapping| == 0 then Registered(table)
    else
      var (className, entry) := serviceMapping[0];
      if !Complete(entry) then TypeError(table, className)
      else
        var rest := serviceMapping[1..];
        var r := Register(RegisterRoute(table, className, entry.routes.value, GetPrefix(entry.name.value, className)), rest);
        assert forall i :: 1 <= i < |serviceMapping| ==> rest[i - 1] == serviceMapping[i];
        if r.TypeError? then
          var i :| 0 <= i < |rest| && rest[i].0 == r.className
                   && !Complete(rest[i].1) && forall j :: 0 <= j < i ==> Complete(rest[j].1);
          assert serviceMapping[i + 1] == rest[i];
          r
        else r
  }

  /** Every assignment registering a complete service mapping performs, class after class. */
  function AllAssignments(serviceMapping: ServiceMapping): seq<(string, Handler)>
    requires forall i :: 0 <= i < |serviceMapping| ==> Complete(serviceMapping[i].1)
    decreases |serviceMapping|
  {
    if |serviceMapping| == 0 then []
    else
      var (className, entry) := serviceMapping[0];
      assert Complete(entry);
      assert forall i :: 1 <= i < |serviceMapping| ==> serviceMapping[1..][i - 1] == serviceMapping[i];
      RouteAssignments(className, GetPrefix(entry.name.value, className), entry.routes.value) + AllAssignments(serviceMapping[1..])
  }

  /** Registering a complete service mapping is one run of assignments over all its routes. */
  lemma {:induction false} RegisterAssigns(table: RouteTable, serviceMapping: ServiceMapping)
    requires forall i :: 0 <= i < |serviceMapping| ==> Complete(serviceMapping[i].1)
    ensures Register(table, serviceMapping) == Registered(AssignAll(table, AllAssignments(serviceMapping)))
    decreases |serviceMapping|
  {
    if |serviceMapping| > 0 {
      var (className, entry) := serviceMapping[0];
      var kvs := RouteAssignments(className, GetPrefix(entry.name.value, className), entry.routes.value);
      assert forall i :: 1 <= i < |serviceMapping| ==> serviceMapping[1..][i - 1] == serviceMapping[i];
      RegisterAssigns(AssignAll(table, kvs), serviceMapping[1..]);
      AssignAllAppend(table, kvs, AllAssignments(serviceMapping[1..]));
    }
  }

  /** A class without a name or routes stops registration with a `TypeError`, after the
      classes before it have written all their routes to the table; the classes after it
      write nothing. */
  lemma {:induction false} FailureKeepsEarlierClasses(table: RouteTable, a: ServiceMapping, className: string,
                                                      entry: ServiceEntry, b: ServiceMapping)
    requires forall i :: 0 <= i < |a| ==> Complete(a[i].1)
    requires !Complete(entry)
    ensures Register(table, a + [(className, entry)] + b) == TypeError(AssignAll(table, AllAssignments(a)), className)
    decreases |a|
  {
    var s := a + [(className, entry)] + b;
    if |a| == 0 {
      assert s[0] == (className, entry);
    } else {
      var (c0, e0) := a[0];
      var kvs := RouteAssignments(c0, GetPrefix(e0.name.value, c0), e0.routes.value);
      assert s[0] == a[0];
      assert s[1..] == a[1..] + [(className, entry)] + b;
      assert forall i :: 1 <= i < |a| ==> a[1..][i - 1] == a[i];
      FailureKeepsEarlierClasses(AssignAll(table, kvs), a[1..], className, entry, b);
      AssignAllAppend(table, kvs, AllAssignments(a[1..]));
    }
  }

  // ---------------------------------------------------------------------------
  // match, getHandler

  datatype MappingError = ServiceNotFound(func: string)

  /** `match($func)`: the handler registered under the service key, or the
      `InvalidArgumentException` for an unknown key. */
  function Match(table: RouteTable, func: string): (r: Result<Handler, MappingError>)
    ensures r.Ok? <==> func in table
    ensures r.Ok? ==> r.value == table[func]
    ensures r.Err? ==> r.error == ServiceNotFound(func)
  {
    if func !in table then Err(ServiceNotFound(func)) else Ok(table[func])
  }

  /** `getHandler($data)`: matches `$data['func']`, or "" when it is missing. */
  function GetHandler(table: RouteTable, data: map<string, string>): (r: Result<Handler, MappingError>)
    ensures "func" in data ==> r == Match(table, data["func"])
    ensures "func" !in data ==> r == Match(table, "")
  {
    Match(table, if "func" in data then data["func"] else "")
  }

  /** After registering a complete service mapping from an empty table, a service key leads to
      the handler of the last route that produced it, and a key no route produced is not found. */
  lemma MatchAfterRegister(serviceMapping: ServiceMapping, func: string)
    requires forall i :: 0 <= i < |serviceMapping| ==> Complete(serviceMapping[i].1)
    ensures (Match(Register(map[], serviceMapping).table, func).Ok?) <==> Assigned(AllAssignments(serviceMapping), func)
    ensures forall i :: LastAssigned(AllAssignments(serviceMapping), i) && AllAssignments(serviceMapping)[i].0 == func ==>
              Match(Register(map[], serviceMapping).table, func) == Ok(AllAssignments(serviceMapping)[i].1)
  {
    RegisterAssigns(map[], serviceMapping);
    AssignAllValues(map[], AllAssignments(serviceMapping));
  }

  /** A service declared without a name is reached under the word its class name ends in:
      the method `sum` of `Ns\MathService` mapped as `add` is `Math::add`, unmapped `Math::sum`. */
  lemma UnnamedServiceKey(ns: string, w: string, route: Route)
    requires '\n' !in ns && |w| > 0 && AllWordChars(w)
    ensures ServiceKey(GetPrefix("", ns + "\\" + w + Suffix), route)
              == Ucfirst(w) + "::" + (if PhpEmpty(route.mappedName) then route.methodName else route.mappedName)
  {
    DerivePrefixOf(ns, w);
  }
}
