/** The RPC service annotations (`@Service`, `@Mapping`), the collector that gathers the
    annotated classes and methods into the service mapping, and the two annotation parsers
    that feed it. The collector's static array is passed in and returned explicitly. */
module ServiceBeans {
  import opened Wrappers
  import opened PhpArrays

  // ---------------------------------------------------------------------------
  // annotations

  /** The name an annotation's values give: `name` overrides `value`; the default is "". */
  function AnnotationName(values: map<string, string>): (name: string)
    ensures "name" in values ==> name == values["name"]
    ensures "name" !in values && "value" in values ==> name == values["value"]
    ensures "name" !in values && "value" !in values ==> name == ""
  {
    var fromValue := if "value" in values then values["value"] else "";
    if "name" in values then values["name"] else fromValue
  }

  /** `@Service`: marks a class as an RPC service; its name becomes the route prefix. */
  datatype Service = Service(name: string) {
    function GetName(): string { name }
  }

  /** `@Mapping`: marks a method as an RPC route; its name replaces the method name in the key. */
  datatype Mapping = Mapping(name: string) {
    function GetName(): string { name }
  }

  /** `new Service($values)`. */
  function MakeService(values: map<string, string>): (a: Service)
    ensures a.GetName() == AnnotationName(values)
    ensures "name" !in values && "value" !in values ==> a.GetName() == ""
  {
    Service(AnnotationName(values))
  }

  /** `new Mapping($values)`. */
  function MakeMapping(values: map<string, string>): (a: Mapping)
    ensures a.GetName() == AnnotationName(values)
    ensures "name" !in values && "value" !in values ==> a.GetName() == ""
  {
    Mapping(AnnotationName(values))
  }

  /** `@Service(name="user")` and `@Service("user")` name the service alike; an explicit
      `name` wins over the positional value. */
  lemma AnnotationNameForms(n: string, v: string)
    ensures MakeService(map["name" := n]).GetName() == MakeService(map["value" := n]).GetName() == n
    ensures MakeMapping(map["value" := v, "name" := n]).GetName() == n
  {
  }

  // ---------------------------------------------------------------------------
  // collector

  /** One collected route of a service class. */
  datatype Route = Route(mappedName: string, methodName: string)

  /** The collected facts about one class: `['name' => ..., 'routes' => [...]]`, either part
      possibly never set. */
  datatype ServiceEntry = ServiceEntry(name: Option<string>, routes: Option<seq<Route>>)

  /** `ServiceCollector::$serviceMapping`, keyed by class name in first-collection order. */
  type ServiceMapping = Entries<string, ServiceEntry>

  const Blank: ServiceEntry := ServiceEntry(None, None)

  /** The annotation object handed to the collector for a class or a method. */
  datatype Annotation =
    | ServiceAnnotation(service: Service)
    | MappingAnnotation(mapping: Mapping)
    | NoAnnotation                        // `null`
    | OtherAnnotation                     // an annotation of another kind

  /** The routes collected so far for a class. */
  function RoutesOf(m: ServiceMapping, cls: string): seq<Route> {
    match Get(m, cls)
    case Some(e) => e.routes.GetOr([])
    case None => []
  }

  /** `$serviceMapping[$cls]['name'] = $name`. */
  function SetName(m: ServiceMapping, cls: string, name: string): (r: ServiceMapping)
    ensures Get(r, cls) == Some(ServiceEntry(Some(name), Get(m, cls).GetOr(Blank).routes))
    ensures forall c :: c != cls ==> Get(r, c) == Get(m, c)
    ensures DistinctKeys(m) ==> DistinctKeys(r)
    ensures Get(m, cls).Some? ==> |r| == |m| && forall i :: 0 <= i < |m| ==> r[i].0 == m[i].0
    ensures Get(m, cls).None? ==> r == m + [(cls, ServiceEntry(Some(name), None))]
  {
    PutKeeps(m, cls, Get(m, cls).GetOr(Blank).(name := Some(name)));
    Put(m, cls, Get(m, cls).GetOr(Blank).(name := Some(name)))
  }

  /** `$serviceMapping[$cls]['routes'][] = $route`. */
  function AddRoute(m: ServiceMapping, cls: string, route: Route): (r: ServiceMapping)
    ensures Get(r, cls) == Some(ServiceEntry(Get(m, cls).GetOr(Blank).name, Some(RoutesOf(m, cls) + [route])))
    ensures forall c :: c != cls ==> Get(r, c) == Get(m, c)
    ensures DistinctKeys(m) ==> DistinctKeys(r)
    ensures Get(m, cls).Some? ==> |r| == |m| && forall i :: 0 <= i < |m| ==> r[i].0 == m[i].0
    ensures Get(m, cls).None? ==> r == m + [(cls, ServiceEntry(None, Some([route])))]
  {
    var e := Get(m, cls).GetOr(Blank);
    assert e.routes.GetOr([]) == RoutesOf(m, cls);
    assert Get(m, cls).None? ==> RoutesOf(m, cls) + [route] == [route];
    PutKeeps(m, cls, e.(routes := Some(e.routes.GetOr([]) + [route])));
    Put(m, cls, e.(routes := Some(e.routes.GetOr([]) + [route])))
  }

  /** `ServiceCollector::collect($className, $objectAnnotation, ..., $methodName)`. */
  function Collect(m: ServiceMapping, className: string, annotation: Annotation, methodName: string): (r: ServiceMapping)
    ensures DistinctKeys(m) ==> DistinctKeys(r)
    ensures forall c :: c != className ==> Get(r, c) == Get(m, c)
    ensures annotation.ServiceAnnotation? ==>
              Get(r, className) == Some(ServiceEntry(Some(annotation.service.name), Get(m, className).GetOr(Blank).routes))
    ensures annotation.MappingAnnotation? ==>
              Get(r, className).Some? && Get(r, className).value.name == Get(m, className).GetOr(Blank).name
              && Get(r, className).value.routes == Some(RoutesOf(m, className) + [Route(annotation.mapping.name, methodName)])
    ensures annotation.NoAnnotation? && Get(m, className).Some? ==>
              Get(r, className).Some? && Get(r, className).value.name == Get(m, className).value.name
              && Get(r, className).value.routes == Some(RoutesOf(m, className) + [Route("", methodName)])
    ensures annotation.NoAnnotation? && Get(m, className).None? ==> r == m
    ensures annotation.OtherAnnotation? ==> r == m
    ensures Get(m, className).Some? ==> |r| == |m| && forall i :: 0 <= i < |m| ==> r[i].0 == m[i].0
    ensures Get(m, className).None? && r != m ==> |r| == |m| + 1 && r[..|m|] == m && r[|m|].0 == className
  {
    match annotation
    case ServiceAnnotation(s) => SetName(m, className, s.GetName())
    case MappingAnnotation(a) => AddRoute(m, className, Route(a.GetName(), methodName))
    case NoAnnotation => if Get(m, className).Some? then AddRoute(m, className, Route("", methodName)) else m
    case OtherAnnotation => m
  }

  /** `ServiceCollector::getCollector()`. */
  function GetCollector(m: ServiceMapping): (r: ServiceMapping)
    ensures forall c :: Get(r, c) == Get(m, c)
  {
    m
  }

  /** One annotated method of an already known class, as the bean scanner reports it. */
  datatype MethodEvent = MethodEvent(annotation: Annotation, methodName: string)

  /** Collects the method events of one class in order. */
  function CollectMethods(m: ServiceMapping, className: string, events: seq<MethodEvent>): (r: ServiceMapping)
    ensures forall c :: c != className ==> Get(r, c) == Get(m, c)
    ensures DistinctKeys(m) ==> DistinctKeys(r)
    decreases |events|
  {
    if |events| == 0 then m
    else CollectMethods(Collect(m, className, events[0].annotation, events[0].methodName), className, events[1..])
  }

  /** The route one method event contributes: `@Mapping` gives its name, an unannotated method "". */
  function EventRoute(e: MethodEvent): seq<Route> {
    match e.annotation
    case MappingAnnotation(a) => [Route(a.name, e.methodName)]
    case NoAnnotation => [Route("", e.methodName)]
    case _ => []
  }

  /** The routes a run of method events contributes, in order. */
  function EventRoutes(events: seq<MethodEvent>): seq<Route> {
    if |events| == 0 then [] else EventRoute(events[0]) + EventRoutes(events[1..])
  }

  /** One method event of a known class appends its route and keeps the class name. */
  lemma CollectOne(m: ServiceMapping, className: string, e: MethodEvent)
    requires Get(m, className).Some? && !e.annotation.ServiceAnnotation?
    ensures Get(Collect(m, className, e.annotation, e.methodName), className).Some?
    ensures Get(Collect(m, className, e.annotation, e.methodName), className).value.name == Get(m, className).value.name
    ensures RoutesOf(Collect(m, className, e.annotation, e.methodName), className) == RoutesOf(m, className) + EventRoute(e)
  {
    if e.annotation.OtherAnnotation? {
      assert RoutesOf(m, className) + [] == RoutesOf(m, className);
    }
  }

  /** Once a class is known, collecting its methods appends their routes in order, keeps its
      name, and touches no other class. */
  lemma {:induction false} CollectMethodsAppends(m: ServiceMapping, className: string, events: seq<MethodEvent>)
    requires Get(m, className).Some?
    requires forall i :: 0 <= i < |events| ==> !events[i].annotation.ServiceAnnotation?
    ensures Get(CollectMethods(m, className, events), className).Some?
    ensures Get(CollectMethods(m, className, events), className).value.name == Get(m, className).value.name
    ensures RoutesOf(CollectMethods(m, className, events), className) == RoutesOf(m, className) + EventRoutes(events)
    ensures forall c :: c != className ==> Get(CollectMethods(m, className, events), c) == Get(m, c)
    decreases |events|
  {
    if |events| > 0 {
      var e := events[0];
      var rest := events[1..];
      var next := Collect(m, className, e.annotation, e.methodName);
      CollectOne(m, className, e);
      assert forall i :: 0 <= i < |rest| ==> !rest[i].annotation.ServiceAnnotation? by {
        forall i | 0 <= i < |rest| ensures !rest[i].annotation.ServiceAnnotation? {
          assert rest[i] == events[i + 1];
        }
      }
      CollectMethodsAppends(next, className, rest);
      assert CollectMethods(m, className, events) == CollectMethods(next, className, rest);
      assert EventRoutes(events) == EventRoute(e) + EventRoutes(rest);
      ConcatAssoc(RoutesOf(m, className), EventRoute(e), EventRoutes(rest));
    } else {
      assert RoutesOf(m, className) + [] == RoutesOf(m, className);
    }
  }

  // ---------------------------------------------------------------------------
  // parsers

  datatype Scope = Singleton

  /** `[$beanName, $scope, ""]`: the bean definition a parser returns. */
  datatype BeanDefinition = BeanDefinition(beanName: string, scope: Scope, ref: string)

  /** `ServiceParser::parser(...)`: collects the annotation and defines the class as a singleton bean. */
  function ServiceParser(m: ServiceMapping, className: string, annotation: Annotation, methodName: string): (r: (BeanDefinition, ServiceMapping))
    ensures r.0 == BeanDefinition(className, Singleton, "")
    ensures r.1 == Collect(m, className, annotation, methodName)
  {
    (BeanDefinition(className, Singleton, ""), Collect(m, className, annotation, methodName))
  }

  /** `MappingParser::parser(...)`: collects only for a class already in the collector, so
      a method annotation never introduces a class. */
  function MappingParser(m: ServiceMapping, className: string, annotation: Annotation, methodName: string): (r: ServiceMapping)
    ensures Get(m, className).None? ==> r == m
    ensures Get(m, className).Some? ==> r == Collect(m, className, annotation, methodName)
    ensures forall c :: Get(r, c).Some? <==> Get(m, c).Some?
  {
    if Get(GetCollector(m), className).None? then m
    else Collect(m, className, annotation, methodName)
  }

  /** A `@Service` class gets its name and then the routes of its methods, in order. */
  lemma ServiceThenMappings(m: ServiceMapping, className: string, s: Service, events: seq<MethodEvent>)
    requires forall i :: 0 <= i < |events| ==> !events[i].annotation.ServiceAnnotation?
    ensures Get(CollectMethods(ServiceParser(m, className, ServiceAnnotation(s), "").1, className, events), className).Some?
    ensures Get(CollectMethods(ServiceParser(m, className, ServiceAnnotation(s), "").1, className, events), className).value.name
              == Some(s.name)
    ensures RoutesOf(CollectMethods(ServiceParser(m, className, ServiceAnnotation(s), "").1, className, events), className)
              == RoutesOf(m, className) + EventRoutes(events)
  {
    var start := ServiceParser(m, className, ServiceAnnotation(s), "").1;
    CollectMethodsAppends(start, className, events);
  }
}
