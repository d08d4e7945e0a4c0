/** The HTTP handler adapter: turns a routing result into the controller action (or callable)
    to invoke and the arguments bound to its declared parameters. Reflection is replaced by
    a declared-parameter list per callee, `method_exists` by a predicate, and a controller
    bean is identified by its class name. */
module HttpAdapter {
  import opened Wrappers
  import opened Strings
  import opened PhpArrays
  import opened HttpRouter

  const RequestClass: string := "Swoft\\Web\\Request"
  const ResponseClass: string := "Swoft\\Web\\Response"

  /** The captures of a matched route. */
  type Matches = Entries<Key, string>

  /** The third element of a routing result: the allowed methods for METHOD_NOT_ALLOWED,
      otherwise the route's `['handler' => ..., 'matches' => ...]`. */
  datatype Info =
    | AllowedMethods(methods: seq<string>)
    | Target(handler: Handler, matches: Option<Matches>)

  /** `[$status, $path, $info]`. */
  datatype RouteInfo = RouteInfo(status: int, path: string, info: Info)

  datatype AdapterError =
    | RouteNotFound(message: string)      // RouteNotFoundException
    | MethodNotAllowed(message: string)   // MethodNotAllowedException
    | InvalidHandler(message: string)     // \InvalidArgumentException from createHandler
    | ActionNotFound(message: string)     // InvalidArgumentException from defaultHandler
    | MalformedRouteInfo                  // METHOD_NOT_ALLOWED without a method list

  /** What gets invoked: `[$controller, $action]` or a closure / callable object. */
  datatype Callee = Action(controller: string, action: string) | Callable(id: nat)

  /** What `createHandler` returns, with the controller context it records. */
  datatype Created = Created(handler: Callee, matches: Matches, context: Option<(string, string)>)

  // ---------------------------------------------------------------------------
  // createHandler

  /** The segments of an array or string handler: a string is trimmed and split on `@`. */
  function SegmentsOf(handler: Handler): seq<string>
    requires handler.Text? || handler.Segments?
  {
    if handler.Segments? then handler.parts else Split(Trim(handler.s, Whitespace), '@')
  }

  /** The action an array or string handler names: its second segment, or else the first
      capture when a capture has key 0 (taken out of the captures), or else none. */
  function PickAction(segments: seq<string>, matches: Matches): (r: (string, Matches))
    ensures |segments| >= 2 ==> r == (segments[1], matches)
    ensures |segments| < 2 && Get(matches, IntKey(0)).None? ==> r == ("", matches)
    ensures |segments| < 2 && Get(matches, IntKey(0)).Some? ==>
              |matches| > 0 && r.0 == matches[0].1 && IntValues(r.1) == IntValues(matches[1..])
              && (DistinctKeys(matches[1..]) ==> forall s :: Get(r.1, StrKey(s)) == Get(matches[1..], StrKey(s)))
  {
    if |segments| >= 2 then (segments[1], matches)
    else if Get(matches, IntKey(0)).Some? then
      var (first, rest) := ArrayShift(matches);
      (first.GetOr(""), rest)
    else ("", matches)
  }

  /** `$action ?: 'index'`. */
  function ContextAction(action: string): string {
    if PhpEmpty(action) then "index" else action
  }

  /** `createHandler($path, $info)`. */
  function CreateHandler(path: string, handler: Handler, matches: Option<Matches>): (r: Result<Created, AdapterError>)
    ensures handler.Object? ==> r == Ok(Created(Callable(handler.id), matches.GetOr([]), None))
    ensures handler.Scalar? ==> r == Err(InvalidHandler("Invalid route handler for URI: " + path))
    ensures handler.Text? || handler.Segments? ==>
              r.Ok? && r.value.handler.Action?
              && r.value.handler.controller == (if |SegmentsOf(handler)| > 0 then SegmentsOf(handler)[0] else "")
              && r.value.handler.action == ConvertNodeStr(PickAction(SegmentsOf(handler), matches.GetOr([])).0)
              && r.value.matches == PickAction(SegmentsOf(handler), matches.GetOr([])).1
              && r.value.context == Some((r.value.handler.controller, ContextAction(r.value.handler.action)))
  {
    var m := matches.GetOr([]);
    match handler
    case Object(id, _) => Ok(Created(Callable(id), m, None))
    case Scalar(_) => Err(InvalidHandler("Invalid route handler for URI: " + path))
    case _ =>
      var segments := SegmentsOf(handler);
      var className := if |segments| > 0 then segments[0] else "";
      var (picked, rest) := PickAction(segments, m);
      var action := ConvertNodeStr(picked);
      Ok(Created(Action(className, action), rest, Some((className, ContextAction(action)))))
  }

  /** `Class@action` names the class and the action: the action is normalised and the
      captures are left alone. */
  lemma ExplicitAction(path: string, cls: string, act: string, matches: Option<Matches>)
    requires '@' !in cls && '@' !in act
    requires Trim(cls + "@" + act, Whitespace) == cls + "@" + act
    ensures CreateHandler(path, Text(cls + "@" + act), matches)
              == Ok(Created(Action(cls, ConvertNodeStr(act)), matches.GetOr([]), Some((cls, ContextAction(ConvertNodeStr(act))))))
  {
    assert SegmentsOf(Text(cls + "@" + act)) == [cls, act] by {
      assert Join([cls, act], "@") == cls + "@" + act;
      SplitJoin([cls, act], '@');
    }
    assert PickAction([cls, act], matches.GetOr([])) == (act, matches.GetOr([]));
  }

  /** A bare class name whose captures start with key 0 takes that capture as the action;
      the other captures stay, the integer-keyed ones renumbered from 0. */
  lemma DynamicAction(path: string, cls: string, v: string, rest: Matches)
    requires '@' !in cls && Trim(cls, Whitespace) == cls
    requires DistinctKeys([(IntKey(0), v)] + rest)
    ensures CreateHandler(path, Text(cls), Some([(IntKey(0), v)] + rest)).Ok?
    ensures CreateHandler(path, Text(cls), Some([(IntKey(0), v)] + rest)).value.handler == Action(cls, ConvertNodeStr(v))
    ensures IntValues(CreateHandler(path, Text(cls), Some([(IntKey(0), v)] + rest)).value.matches) == IntValues(rest)
    ensures forall s :: Get(CreateHandler(path, Text(cls), Some([(IntKey(0), v)] + rest)).value.matches, StrKey(s)) == Get(rest, StrKey(s))
  {
    var m := [(IntKey(0), v)] + rest;
    assert Join([cls], "@") == cls;
    SplitJoin([cls], '@');
    assert Get(m, IntKey(0)) == Some(v);
    assert m[1..] == rest;
    assert DistinctKeys(rest) by {
      forall i, j | 0 <= i < j < |rest| ensures rest[i].0 != rest[j].0 {
        assert rest[i] == m[i + 1] && rest[j] == m[j + 1];
      }
    }
    MergeAllIntValues([], rest);
    MergeAllLookups([], rest);
  }

  /** `array_shift` takes the first capture, not the one under key 0: when a named capture
      comes first, its value becomes the action and the key-0 capture stays. */
  lemma ShiftTakesFirstCapture(path: string, cls: string, name: string, v: string, w: string)
    requires '@' !in cls && Trim(cls, Whitespace) == cls
    ensures CreateHandler(path, Text(cls), Some([(StrKey(name), v), (IntKey(0), w)])).value.handler == Action(cls, ConvertNodeStr(v))
    ensures CreateHandler(path, Text(cls), Some([(StrKey(name), v), (IntKey(0), w)])).value.matches == [(IntKey(0), w)]
  {
    var m: Matches := [(StrKey(name), v), (IntKey(0), w)];
    var one: Matches := [(IntKey(0), w)];
    assert SegmentsOf(Text(cls)) == [cls] by {
      assert Join([cls], "@") == cls;
      SplitJoin([cls], '@');
    }
    assert MergeAll([], one) == one by {
      assert MergeEntry([], one[0]) == one;
      assert one[1..] == [];
    }
    assert PickAction([cls], m) == (v, one) by {
      assert Get(m, IntKey(0)) == Some(w);
      assert m[1..] == one;
    }
  }

  // ---------------------------------------------------------------------------
  // defaultHandler

  /** `defaultHandler([$controller, $actionId])`: an empty action falls back to the router's
      default action, which must then exist on the controller. */
  function DefaultHandler(controller: string, actionId: string, defaultAction: string,
                          methodExists: (string, string) -> bool): (r: Result<Callee, AdapterError>)
    ensures r.Ok? <==> methodExists(controller, if PhpEmpty(actionId) then defaultAction else actionId)
    ensures r.Ok? ==> r.value == Action(controller, if PhpEmpty(actionId) then defaultAction else actionId)
    ensures r.Err? ==> r.error == ActionNotFound("the " + (if PhpEmpty(actionId) then defaultAction else actionId) + " of action is not exist!")
  {
    var chosen := if PhpEmpty(actionId) then defaultAction else actionId;
    if !methodExists(controller, chosen) then Err(ActionNotFound("the " + chosen + " of action is not exist!"))
    else Ok(Action(controller, chosen))
  }

  /** The action `createHandler` records in the request context (`$action ?: 'index'`) is
      the action `defaultHandler` checks when the router's default action is `index`,
      whatever default is used with the recorded name. */
  lemma ContextNamesCheckedAction(controller: string, action: string, defaultAction: string,
                                  methodExists: (string, string) -> bool)
    ensures DefaultHandler(controller, ContextAction(action), defaultAction, methodExists)
            == DefaultHandler(controller, action, "index", methodExists)
  {
    assert !PhpEmpty("index");
  }

  /** With a non-empty default action, a checked handler passes the check again unchanged. */
  lemma DefaultHandlerStable(controller: string, actionId: string, defaultAction: string, otherDefault: string,
                             methodExists: (string, string) -> bool)
    requires !PhpEmpty(defaultAction)
    requires DefaultHandler(controller, actionId, defaultAction, methodExists).Ok?
    ensures var c := DefaultHandler(controller, actionId, defaultAction, methodExists).value;
            DefaultHandler(c.controller, c.action, otherDefault, methodExists) == Ok(c)
  {
  }

  // ---------------------------------------------------------------------------
  // bindParams

  /** A declared parameter: its name and, when declared, its type's name. */
  datatype Param = Param(name: string, typ: Option<string>)

  /** A bound argument. `CastArg` is a PHP cast of a capture (`(int)`, `(float)`,
      `(double)`), whose numeric value is not modelled. */
  datatype Arg =
    | NullArg
    | RequestArg                 // the current request object
    | ResponseArg                // the context's response object
    | StringArg(s: string)
    | IntArg(i: int)
    | BoolArg(b: bool)
    | CastArg(typ: string, raw: string)

  /** `parserParamType($type, $value)` for a string capture. */
  function ParserParamType(typ: string, value: string): (a: Arg)
    ensures typ == "bool" ==> a == BoolArg(!PhpEmpty(value))
    ensures typ == "int" || typ == "float" || typ == "double" ==> a == CastArg(typ, value)
    ensures typ != "bool" && typ != "int" && typ != "float" && typ != "double" ==> a == StringArg(value)
  {
    match typ
    case "int" => CastArg(typ, value)
    case "string" => StringArg(value)
    case "bool" => BoolArg(!PhpEmpty(value))
    case "float" => CastArg(typ, value)
    case "double" => CastArg(typ, value)
    case _ => StringArg(value)
  }

  /** `getDefaultValue($type)`: float and double get the integer 0. */
  function GetDefaultValue(typ: string): (a: Arg)
    ensures typ == "int" || typ == "float" || typ == "double" <==> a == IntArg(0)
    ensures typ == "string" <==> a == StringArg("")
    ensures typ == "bool" <==> a == BoolArg(false)
    ensures a == NullArg <==> typ != "int" && typ != "string" && typ != "bool" && typ != "float" && typ != "double"
  {
    match typ
    case "int" => IntArg(0)
    case "string" => StringArg("")
    case "bool" => BoolArg(false)
    case "float" => IntArg(0)
    case "double" => IntArg(0)
    case _ => NullArg
  }

  /** For a string or bool parameter, the default is what an empty capture would be cast to. */
  lemma DefaultIsEmptyCapture(typ: string)
    requires typ == "string" || typ == "bool"
    ensures GetDefaultValue(typ) == ParserParamType(typ, "")
  {
  }

  /** The binding policy for one declared parameter. */
  predicate Binds(p: Param, matches: Matches, a: Arg) {
    var capture := Get(matches, StrKey(p.name));
    match p.typ
    case None => a == (if capture.Some? then StringArg(capture.value) else NullArg)
    case Some(t) =>
      if t == RequestClass then a == RequestArg
      else if t == ResponseClass then a == ResponseArg
      else if capture.Some? then a == ParserParamType(t, capture.value)
      else a == GetDefaultValue(t)
  }

  /** `bindParams($request, $handler, $matches)`: one argument per declared parameter, in
      declaration order. */
  method BindParams(params: seq<Param>, matches: Matches) returns (args: seq<Arg>)
    ensures |args| == |params|
    ensures forall i :: 0 <= i < |params| ==> Binds(params[i], matches, args[i])
  {
    args := [];
    var k := 0;
    while k < |params|
      invariant 0 <= k <= |params|
      invariant |args| == k
      invariant forall i :: 0 <= i < k ==> Binds(params[i], matches, args[i])
    {
      var p := params[k];
      var capture := Get(matches, StrKey(p.name));
      var a: Arg;
      if p.typ.None? {
        if capture.Some? {
          a := StringArg(capture.value);
        } else {
          a := NullArg;
        }
      } else {
        var t := p.typ.value;
        if t == RequestClass {
          a := RequestArg;
        } else if t == ResponseClass {
          a := ResponseArg;
        } else if capture.Some? {
          a := ParserParamType(t, capture.value);
        } else {
          a := GetDefaultValue(t);
        }
      }
      args := args + [a];
      k := k + 1;
    }
  }

  /** A parameter's binding depends on the captures only through the capture of its name. */
  lemma BindsByName(p: Param, m1: Matches, m2: Matches, a: Arg)
    requires forall s :: Get(m1, StrKey(s)) == Get(m2, StrKey(s))
    ensures Binds(p, m1, a) <==> Binds(p, m2, a)
  {
    assert Get(m1, StrKey(p.name)) == Get(m2, StrKey(p.name));
  }

  /** When the first capture is positional (key 0 or another integer), the captures
      `createHandler` passes on bind every parameter as the router's captures would: the
      dynamic action only takes that positional capture away. */
  lemma CreatedMatchesBindAlike(path: string, handler: Handler, matches: Matches, created: Created)
    requires handler.Text? || handler.Segments?
    requires DistinctKeys(matches)
    requires |matches| == 0 || matches[0].0.IntKey?
    requires CreateHandler(path, handler, Some(matches)) == Ok(created)
    ensures forall s :: Get(created.matches, StrKey(s)) == Get(matches, StrKey(s))
    ensures forall p, a :: Binds(p, created.matches, a) <==> Binds(p, matches, a)
  {
    var rest := PickAction(SegmentsOf(handler), matches).1;
    assert created.matches == rest;
    PickActionKeepsNamed(SegmentsOf(handler), matches);
    BindAlike(rest, matches);
  }

  lemma BindAlike(m1: Matches, m2: Matches)
    requires forall s :: Get(m1, StrKey(s)) == Get(m2, StrKey(s))
    ensures forall p, a :: Binds(p, m1, a) <==> Binds(p, m2, a)
  {
    forall p, a ensures Binds(p, m1, a) <==> Binds(p, m2, a) {
      BindsByName(p, m1, m2, a);
    }
  }

  /** Taking a positional first capture as the action leaves every named capture in place. */
  lemma PickActionKeepsNamed(segments: seq<string>, matches: Matches)
    requires DistinctKeys(matches)
    requires |matches| == 0 || matches[0].0.IntKey?
    ensures forall s :: Get(PickAction(segments, matches).1, StrKey(s)) == Get(matches, StrKey(s))
  {
    if |segments| < 2 && Get(matches, IntKey(0)).Some? {
      var tail := matches[1..];
      assert DistinctKeys(tail) by {
        forall i, j | 0 <= i < j < |tail| ensures tail[i].0 != tail[j].0 {
          assert tail[i] == matches[i + 1] && tail[j] == matches[j + 1];
        }
      }
      forall s ensures Get(matches, StrKey(s)) == Get(tail, StrKey(s)) {
        assert matches[0].0 != StrKey(s);
      }
    }
  }

  // ---------------------------------------------------------------------------
  // doHandler

  /** The callee and its bound arguments; calling it and wrapping the result in a response
      are not part of this model. */
  datatype Invocation = Invocation(callee: Callee, args: seq<Arg>)

  /** `$info['handler']` and `$info['matches']`: a method list has neither. */
  function TargetOf(info: Info): (Handler, Option<Matches>) {
    match info
    case Target(h, m) => (h, m)
    case AllowedMethods(_) => (Scalar(false), None)
  }

  /** The callee after `defaultHandler` has checked an action handler. */
  function Checked(c: Callee, defaultAction: string, methodExists: (string, string) -> bool): Result<Callee, AdapterError> {
    match c
    case Action(controller, action) => DefaultHandler(controller, action, defaultAction, methodExists)
    case Callable(_) => Ok(c)
  }

  /** What `doHandler` ends with, up to the call: NOT_FOUND and METHOD_NOT_ALLOWED fail
      before any handler is built; otherwise the handler is created and an action handler is
      checked, and the first failure is the outcome; on success the checked callee runs with
      one argument bound per declared parameter from the captures `createHandler` passed on. */
  predicate Handled(requestMethod: string, routeInfo: RouteInfo, defaultAction: string,
                    methodExists: (string, string) -> bool, signatureOf: Callee -> seq<Param>,
                    r: Result<Invocation, AdapterError>)
  {
    var created := CreateHandler(routeInfo.path, TargetOf(routeInfo.info).0, TargetOf(routeInfo.info).1);
    var rejected := routeInfo.status == NOT_FOUND || routeInfo.status == METHOD_NOT_ALLOWED;
    (routeInfo.status == NOT_FOUND ==> r == Err(RouteNotFound("Route not found for " + routeInfo.path)))
    && (routeInfo.status == METHOD_NOT_ALLOWED && routeInfo.info.AllowedMethods? ==>
          r == Err(MethodNotAllowed("Method '" + requestMethod + "' not allowed for access " + routeInfo.path
                                    + ", Allow: " + Join(routeInfo.info.methods, ","))))
    && (routeInfo.status == METHOD_NOT_ALLOWED && routeInfo.info.Target? ==> r == Err(MalformedRouteInfo))
    && (!rejected && created.Err? ==> r == Err(created.error))
    && (!rejected && created.Ok? && Checked(created.value.handler, defaultAction, methodExists).Err? ==>
          r == Err(Checked(created.value.handler, defaultAction, methodExists).error))
    && (r.Ok? <==> !rejected && created.Ok? && Checked(created.value.handler, defaultAction, methodExists).Ok?)
    && (r.Ok? ==>
          r.value.callee == Checked(created.value.handler, defaultAction, methodExists).value
          && |r.value.args| == |signatureOf(r.value.callee)|
          && forall i :: 0 <= i < |r.value.args| ==> Binds(signatureOf(r.value.callee)[i], created.value.matches, r.value.args[i]))
  }

  /** `doHandler($request, $routeInfo)` up to the call. */
  method DoHandler(requestMethod: string, routeInfo: RouteInfo, defaultAction: string,
                   methodExists: (string, string) -> bool, signatureOf: Callee -> seq<Param>)
    returns (r: Result<Invocation, AdapterError>)
    ensures Handled(requestMethod, routeInfo, defaultAction, methodExists, signatureOf, r)
  {
    if routeInfo.status == NOT_FOUND {
      return Err(RouteNotFound("Route not found for " + routeInfo.path));
    }
    if routeInfo.status == METHOD_NOT_ALLOWED {
      if routeInfo.info.Target? {
        return Err(MalformedRouteInfo);
      }
      return Err(MethodNotAllowed("Method '" + requestMethod + "' not allowed for access " + routeInfo.path
                                  + ", Allow: " + Join(routeInfo.info.methods, ",")));
    }
    var (handler, matches) := TargetOf(routeInfo.info);
    var created := CreateHandler(routeInfo.path, handler, matches);
    if created.Err? {
      return Err(created.error);
    }
    var callee := Checked(created.value.handler, defaultAction, methodExists);
    if callee.Err? {
      return Err(callee.error);
    }
    var args := BindParams(signatureOf(callee.value), created.value.matches);
    return Ok(Invocation(callee.value, args));
  }

  /** A found `Class@act` route runs the controller's converted action (or the default action
      when it converts to an empty name) if the controller has that method, with the route's
      captures bound by parameter name, and otherwise fails naming the missing action. */
  lemma FoundActionRuns(requestMethod: string, path: string, cls: string, act: string, matches: Matches,
                        defaultAction: string, methodExists: (string, string) -> bool,
                        signatureOf: Callee -> seq<Param>, r: Result<Invocation, AdapterError>)
    requires '@' !in cls && '@' !in act
    requires Trim(cls + "@" + act, Whitespace) == cls + "@" + act
    requires Handled(requestMethod, RouteInfo(FOUND, path, Target(Text(cls + "@" + act), Some(matches))),
                     defaultAction, methodExists, signatureOf, r)
    ensures var action := if PhpEmpty(ConvertNodeStr(act)) then defaultAction else ConvertNodeStr(act);
            (r.Ok? <==> methodExists(cls, action))
            && (r.Ok? ==> r.value.callee == Action(cls, action)
                          && |r.value.args| == |signatureOf(Action(cls, action))|
                          && forall i :: 0 <= i < |r.value.args| ==> Binds(signatureOf(Action(cls, action))[i], matches, r.value.args[i]))
            && (r.Err? ==> r.error == ActionNotFound("the " + action + " of action is not exist!"))
  {
    ExplicitAction(path, cls, act, Some(matches));
  }
}
