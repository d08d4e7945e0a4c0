# Swoft RPC server core, modelled in Dafny

This project models the request-routing core of the Swoft PHP framework's RPC server package.

- **HTTP route helpers** (`HttpRouter`): the static helpers of the abstract HTTP router.
  - Validating a route's methods and handler.
  - Normalising a URI path.
  - Compiling a parameterised route (`/user/{id}[/{page}]`) into a regular expression plus its first literal node.
  - Finding a matching static route.
  - Guessing a controller class for an automatic route.
  - Merging global parameter patterns.
- **Service annotations** (`ServiceBeans`): the `@Service` and `@Mapping` annotations.
  - The service collector gathers annotations into a class-keyed service mapping.
  - The two annotation parsers feed the collector.
- **RPC handler mapping** (`RpcRouter`): turns the service mapping into a table from function names such as `Math::sum` to a (class, method) pair.
  - The prefix comes from the service's name, or else from a class name ending in `Service`.
  - Looking up a function name that is not in the table is an error.
- **HTTP handler adapter** (`HttpAdapter`): turns a router result into a call.
  - It reports a missing route or a wrong method.
  - It splits `Class@action` handlers and takes a dynamic action from the first capture.
  - It falls back to a default action.
  - It binds the action's parameters from the request, the response and the route captures, converting the declared scalar types.
- **Middleware chain** (`MiddlewareChain`): the request handler walks a de-duplicated list of middleware names by offset, with a default handler at the end.
- **Path aliases** (`PathAliases`): `@`-prefixed aliases that are set, removed and resolved against a registered root.
- **Console colours** (`ConsoleColor`): a colour renders as the parameter string of an ECMA-48 "select graphic rendition" control (section 8.3.117 of ECMA-48).

Shared modules model the PHP built-ins the core relies on:

- `Wrappers`: `Option` and `Result`.
- `Strings`:
  - `trim`, `explode`, `implode`;
  - `strpos`, `str_replace`, `ucfirst`, `strtoupper`;
  - PHP's `empty()` on strings, in which both `""` and `"0"` are falsy.
- `PhpArrays`: PHP ordered arrays as key/value entry lists, with `array_merge`, `array_shift`, `array_unique`, `array_chunk` and assignment in order.

The state the PHP code keeps in static properties becomes an explicit value that is passed in and returned. This covers the route table, the collected service mapping, the alias map and the global parameter patterns.

Calls the model cannot see become function parameters:

- `class_exists`;
- `method_exists`;
- `rawurldecode`;
- the bean container's "is this a middleware" test;
- reflection of an action's signature.

## Model

| member | source | states |
|---|---|---|
| HttpRouter.ValidateArguments | src/Router/Http/AbstractRouter.php:76-108 | Empty methods or an empty handler give the "not allow empty" error, and only they do. Otherwise, some method that is not supported once trimmed and upper-cased gives the "not supported" error, exactly then, and it names the first such method. With all methods supported, a handler that is neither a string nor an object gives the "type only allow" error, and an object that is not callable gives the "must be callable" error, each exactly in that case. The result succeeds exactly when none of these applies. It is then the full method list when some method mentions `ANY`, and otherwise the normalised methods comma-joined with the outer commas trimmed. |
| HttpRouter.ValidatePlainMethods | src/Router/Http/AbstractRouter.php:101-107 | Without `ANY`, the validated method string is exactly the normalised methods joined by commas, and splitting it on commas gives them back. |
| HttpRouter.JoinedMentionsAny | src/Router/Http/AbstractRouter.php:101-103 | The joined method string contains `ANY` exactly when one of the methods does. |
| HttpRouter.AllowTrimmed | src/Router/Http/AbstractRouter.php:82-104 | Trimming commas from the allow list gives the supported methods joined by commas. |
| HttpRouter.PlainMethodString | src/Router/Http/AbstractRouter.php:101-107 | Trimming the one trailing comma restores the comma-joined methods, and splitting that on commas restores the list. |
| HttpRouter.GetFirstFromPath | src/Router/Http/AbstractRouter.php:124-139 | With the slashes trimmed, the result is a prefix with no slash. When a slash exists past the first character, the result stops right before the first slash. Otherwise, when a dot exists past the first character, the result stops before the first dot. Otherwise the result is the whole trimmed path. |
| HttpRouter.CollapseSlashes | src/Router/Http/AbstractRouter.php:149 | Collapsing runs of slashes leaves no double slash, keeps the first character, the non-slash characters in order and the presence of a slash, and never lengthens the path. |
| HttpRouter.CollapseSlashesDouble | src/Router/Http/AbstractRouter.php:149 | Collapsing a path with a double slash equals collapsing it with a single slash there. Together with the unchanged paths without a double slash, this fixes the result for every path. |
| HttpRouter.CollapseSlashesKeeps | src/Router/Http/AbstractRouter.php:149 | A path without a double slash is unchanged. |
| HttpRouter.FormatUriPath | src/Router/Http/AbstractRouter.php:146-157 | The result is a prefix of the decoded, collapsed path. Without ignoreLastSep it is that path. `/` stays `/`. With ignoreLastSep on any other path, exactly the trailing slashes are cut: everything removed is a slash, and the result does not end in one. |
| HttpRouter.FormatUriPathIdempotent | src/Router/Http/AbstractRouter.php:146-157 | When decoding changes nothing, formatting a formatted path gives it back unchanged. |
| HttpRouter.FilterMatches | src/Router/Http/AbstractRouter.php:163-179 | Every named capture is kept with its value. A name missing from the captures takes its default. Integer keys come only from the defaults, in their order. Keys stay distinct. |
| HttpRouter.FilterMatchesOrder | src/Router/Http/AbstractRouter.php:166-171 | The string keys of the result come in order: without defaults, the capture names in capture order; with defaults, the default names first, then the capture names not among them, in capture order. |
| HttpRouter.RewriteOptionalRoundTrip | src/Router/Http/AbstractRouter.php:204 | Rewriting `[` and `]` into regex groups can be undone when the route has no parentheses, so no route text is lost. |
| HttpRouter.RewriteOptional | src/Router/Http/AbstractRouter.php:204 | No square bracket remains, and a route without brackets is unchanged. |
| HttpRouter.EscapeDots | src/Router/Http/AbstractRouter.php:209 | Each dot gains one backslash: the length grows by the dot count, and a route without dots is unchanged. |
| HttpRouter.EscapeDotsRoundTrip | src/Router/Http/AbstractRouter.php:209 | Unescaping the escaped route gives the route back. |
| HttpRouter.TokenAt | src/Router/Http/AbstractRouter.php:212 | A `{name}` token at the start is recognised exactly when the name matches the parameter-name pattern, and the recognised name is the only one possible. |
| HttpRouter.ReplaceParamsLiteral | src/Router/Http/AbstractRouter.php:212-227 | Text before any brace passes through the parameter substitution unchanged. |
| HttpRouter.ReplaceParamsToken | src/Router/Http/AbstractRouter.php:216-226 | A `{name}` token becomes the named group with the configured pattern, or `[^/]+` when none is configured, and the scan resumes after the token. |
| HttpRouter.ReplaceParamsHead | src/Router/Http/AbstractRouter.php:212-226 | A character that does not open a brace is copied, and the substitution continues with the rest of the route. |
| HttpRouter.CompileBody | src/Router/Http/AbstractRouter.php:195-227 | A route with no dynamic part and no `]` compiles to the route with its dots escaped. |
| HttpRouter.StaticRouteRegex | src/Router/Http/AbstractRouter.php:188-231 | A route with no dynamic part and no `]` always parses, and unless the configuration sets it, its regex is `#^` + the dot-escaped route + `$#`. |
| HttpRouter.FirstLiteral | src/Router/Http/AbstractRouter.php:237-242 | A first node is found exactly when the route starts with `/`, a run of word characters or dashes, and `/`; it is that run. The start match `$m[0]` is the route up to the end of the longest run of word characters or dashes after that second `/`. |
| HttpRouter.StartMatchUnique | src/Router/Http/AbstractRouter.php:237 | The greedy start match of the head pattern is unique, so the start entry is determined by the route. |
| HttpRouter.FindInclude | src/Router/Http/AbstractRouter.php:248 | The include search returns a position where an include match starts, and only reports none when no such position exists. |
| HttpRouter.IncludeHint | src/Router/Http/AbstractRouter.php:246-250 | The include hint is absent exactly when nothing in the route can start a match; otherwise it starts at the earliest such position. |
| HttpRouter.ParseParamRoute | src/Router/Http/AbstractRouter.php:188-260 | The route is rejected exactly when a `]` occurs and the closing brackets at the end do not balance the openings; the rejection is "optional segments only at the end". An accepted route's info holds the compiled regex `#^…$#` and the original route, unless the configuration overrides them. Every configuration entry wins. The first node is present exactly when the route starts with a literal node. With a first node and no configured `start`, the info's `start` is the greedy start match. Without a first node, the info carries the include hint. The info's keys are exactly the configuration's keys plus `regex`, `original`, and `start` or `include`. |
| HttpRouter.RouteInfo | src/Router/Http/AbstractRouter.php:236-257 | The info is `regex`, `start` and `original` when there is a first node, and `regex`, `include` and `original` otherwise, with every configuration entry laid over it. The `start` entry is the first literal's start match. The key set is exactly those keys plus the configuration's. |
| HttpRouter.RejectsInnerOptional | src/Router/Http/AbstractRouter.php:195-201 | An optional part followed by more route text is rejected. |
| HttpRouter.OpenAllCounts | src/Router/Http/AbstractRouter.php:196-199 | Nested openings contain as many `[` as parts and no `]`. |
| HttpRouter.TrailingOptionalsAccepted | src/Router/Http/AbstractRouter.php:195-201 | Any route of nested optional parts closed at the end passes the balance check. |
| HttpRouter.OptionalAfterFirstNode | src/Router/Http/AbstractRouter.php:237 | A route whose first node is directly followed by `[` has no literal first node. |
| HttpRouter.FindInStaticRoutes | src/Router/Http/AbstractRouter.php:281-295 | The result is found exactly when some route's method string, with a comma appended, contains the request method plus a comma; the found configuration is such a route. Otherwise the result is "method not allowed" with the de-duplicated list of all the routes' methods. |
| HttpRouter.AllowedListIsDeduplicated | src/Router/Http/AbstractRouter.php:294 | The allowed list has no repeats and holds exactly the methods named in the concatenated method strings. |
| HttpRouter.MethodFragmentAccepted | src/Router/Http/AbstractRouter.php:286 | The substring test accepts a request method that is only the tail of a configured method: `ET` matches a `GET` route. |
| HttpRouter.CamelDashes | src/Router/Http/AbstractRouter.php:386-388 | No dash is left directly before a lower-case letter. The first character is kept unless it starts a dash run. The result is never longer. |
| HttpRouter.CamelDashesScan | src/Router/Http/AbstractRouter.php:386-388 | The dash rewrite equals a left-to-right scan that holds back dashes: held dashes followed by a lower-case letter become that letter upper-cased, and any other character releases them unchanged. |
| HttpRouter.CamelDashesKeeps | src/Router/Http/AbstractRouter.php:386-388 | A string with no dash before a lower-case letter is unchanged. |
| HttpRouter.ConvertNodeStr | src/Router/Http/AbstractRouter.php:380-392 | The converted node has no dash before a lower-case letter and does not start or end with a dash. A node without dashes is unchanged. |
| HttpRouter.ConvertNodeStrScan | src/Router/Http/AbstractRouter.php:380-392 | After the outer dashes are trimmed, a node with an inner dash also loses its outer dashes and spaces and is rewritten by the scan. Any other node is just the trimmed string. |
| HttpRouter.ConvertNodeStrIdempotent | src/Router/Http/AbstractRouter.php:380-392 | Converting a converted node changes nothing. |
| HttpRouter.CamelDashesEnds | src/Router/Http/AbstractRouter.php:386-388 | When the input neither starts nor ends with a dash or space, neither does the camel-cased result. |
| HttpRouter.CamelLast | src/Router/Http/AbstractRouter.php:386-388 | For an input not ending in a dash, the result is non-empty and ends in the input's last character or in an upper-case letter. |
| HttpRouter.CamelLastLower | src/Router/Http/AbstractRouter.php:386-388 | The same holds when the input opens with a dash run followed by a lower-case letter. |
| HttpRouter.ConvertNodeStrKeeps | src/Router/Http/AbstractRouter.php:380-392 | A node with no dash before a lower-case letter, and no dash or space at either end, is left as it is. |
| HttpRouter.ConvertAll | src/Router/Http/AbstractRouter.php:318 | Each node of the path is converted in place. |
| HttpRouter.TryClasses | src/Router/Http/AbstractRouter.php:326-355 | The controller class is taken first. The second candidate, with `@action`, is taken only when the first class does not exist. Nothing is found only when neither class exists. |
| HttpRouter.AutoNodes | src/Router/Http/AbstractRouter.php:318-356 | For two to five nodes, the deepest controller class wins, then the parent class with the last node as the action. More than five nodes give nothing. Every result names an existing class under the controller namespace. |
| HttpRouter.MatchAutoRoute | src/Router/Http/AbstractRouter.php:304-356 | A result always names an existing class under the trimmed namespace. After the path is trimmed of slashes, dashes and spaces, a single node gives the class named by the converted node, first letter upper-cased, exactly when that class exists. A path of several nodes is looked up by the node rule on its converted nodes, so more than five nodes never match. |
| HttpRouter.MatchAutoRouteNodes | src/Router/Http/AbstractRouter.php:311-318 | Two or more slash-free nodes joined by `/`, with no slash, dash or space at either end, are split back into exactly those nodes, and each is converted. |
| HttpRouter.BraceTrimmed | src/Router/Http/AbstractRouter.php:366-368 | Each temporary parameter name is stripped of braces and keeps its pattern. |
| HttpRouter.GetAvailableParams | src/Router/Http/AbstractRouter.php:363-373 | The result holds the given parameters plus every brace-trimmed temporary name. Untouched parameters keep their pattern, and the last assignment to a name wins. |
| HttpRouter.AvailableKept | src/Router/Http/AbstractRouter.php:363-373 | A given parameter that no temporary name trims to keeps its pattern. |
| HttpRouter.AvailableLast | src/Router/Http/AbstractRouter.php:363-373 | A temporary name whose trimmed form no later name repeats ends with its own pattern. |
| HttpRouter.AddGlobalParam | src/Router/Http/AbstractRouter.php:408-412 | The trimmed name now maps to the pattern, and every other global parameter is unchanged. |
| HttpRouter.GlobalAssignments | src/Router/Http/AbstractRouter.php:399-401 | Each parameter becomes one assignment of its trimmed name. |
| HttpRouter.AddGlobalParams | src/Router/Http/AbstractRouter.php:397-402 | Every global parameter stays present, and every added name, trimmed of braces and spaces, becomes present. |
| HttpRouter.AddGlobalParamsAssigns | src/Router/Http/AbstractRouter.php:397-402 | Adding several parameters assigns them in order: untouched globals survive and the last pattern given for a name wins. |
| HttpRouter.FirstRejected | src/Router/Http/AbstractRouter.php:83-88 | The first unsupported method is reported; when there is none, every method is supported. |
| HttpRouter.MethodString | src/Router/Http/AbstractRouter.php:101-107 | Any mention of `ANY` gives the full method list; otherwise the methods are joined with the outer commas trimmed. |
| HttpRouter.IsNoDynamicParam | src/Router/Http/AbstractRouter.php:115-117 | A route has no dynamic part exactly when it contains neither `{` nor `[`. |
| ServiceBeans.AnnotationName | src/Bean/Annotation/Service.php:25-33 | The annotation name is the `name` value, else the `value` value, else empty. |
| ServiceBeans.MakeService | src/Bean/Annotation/Service.php:25-41 | A built `@Service` reports the name chosen from `name`, then `value`. |
| ServiceBeans.MakeMapping | src/Bean/Annotation/Mapping.php:25-41 | A built `@Mapping` reports the name chosen from `name`, then `value`. |
| ServiceBeans.AnnotationNameForms | src/Bean/Annotation/Service.php:27-32 | `name` and `value` set the same name, and `name` wins when both are given. |
| ServiceBeans.SetName | src/Bean/Collector/ServiceCollector.php:36 | The class's entry gets the name and keeps its routes. Other classes are unchanged, a known class keeps its position, and a new class is appended with no routes. |
| ServiceBeans.AddRoute | src/Bean/Collector/ServiceCollector.php:44-47 | The route is appended to the class's routes and the name is kept. Other classes are unchanged, a known class keeps its position, and a new class is appended with that one route. |
| ServiceBeans.Collect | src/Bean/Collector/ServiceCollector.php:26-58 | `@Service` sets the class's service name. `@Mapping` appends a route of the mapped name and the method. A method with no annotation appends a route named after the method, but only for a class already collected. Other classes are unchanged, a new class is appended at the end, and keys stay distinct. |
| ServiceBeans.GetCollector | src/Bean/Collector/ServiceCollector.php:63-66 | The collector returns the collected mapping as it is. |
| ServiceBeans.CollectOne | src/Bean/Collector/ServiceCollector.php:42-57 | A method event on a collected class keeps its name and appends exactly that event's route. |
| ServiceBeans.CollectMethods | src/Bean/Collector/ServiceCollector.php:42-57 | A run of method events for one class leaves every other class unchanged and keeps the class keys distinct. |
| ServiceBeans.CollectMethodsAppends | src/Bean/Collector/ServiceCollector.php:42-57 | A run of method events appends their routes in order, keeps the service name and changes no other class. |
| ServiceBeans.ServiceParser | src/Bean/Parser/ServiceParser.php:32-40 | Parsing `@Service` collects the annotation and yields a singleton bean named after the class. |
| ServiceBeans.MappingParser | src/Bean/Parser/MappingParser.php:30-38 | Parsing `@Mapping` collects the annotation only for a class already collected, and never adds or removes a class. |
| ServiceBeans.ServiceThenMappings | src/Bean/Collector/ServiceCollector.php:34-57 | A class parsed as a service and then through its methods ends with the service's name and the methods' routes in order. |
| RpcRouter.PrefixOfTail | src/Router/HandlerMapping.php:111-117 | A non-empty prefix comes from a class tail that ends in `Service` and has something before it, and it consists of word characters only. |
| RpcRouter.DerivePrefix | src/Router/HandlerMapping.php:111-117 | A prefix is derived only from a namespaced class name longer than the suffix, and it is made of word characters. |
| RpcRouter.PrefixOfWord | src/Router/HandlerMapping.php:111-117 | A tail of word characters followed by `Service` yields those characters with the first one upper-cased. |
| RpcRouter.DerivePrefixOf | src/Router/HandlerMapping.php:103-119 | A class `Ns\WordService` yields the prefix `Word` with its first letter upper-cased. |
| RpcRouter.DerivePrefixNeedsNamespace | src/Router/HandlerMapping.php:111-117 | A class name without a namespace separator yields no prefix. |
| RpcRouter.GetPrefix | src/Router/HandlerMapping.php:103-119 | A non-empty service name is the prefix as given; otherwise the prefix is derived from the class name. |
| RpcRouter.RouteAssignments | src/Router/HandlerMapping.php:86-92 | Each route becomes one assignment from `prefix::name` to the class and method. The name is the mapped name, or the method's name when the mapped name is empty. |
| RpcRouter.ServiceKey | src/Router/HandlerMapping.php:86-91 | The key is the prefix, then `::`, then the exposed name: the mapped name, or the method name when that is empty. |
| RpcRouter.ServiceKeysCollide | src/Router/HandlerMapping.php:86-92 | Two routes of one service share a key exactly when their exposed names are equal, so only then does the later one replace the earlier. |
| RpcRouter.ServiceKeysSeparate | src/Router/HandlerMapping.php:91 | Services with different prefixes, neither containing `:`, never share a key. |
| RpcRouter.RegisterRoute | src/Router/HandlerMapping.php:81-93 | After registration the table holds the old keys plus every route's service key. Keys no route touches are unchanged, and the last route to a key wins. |
| RpcRouter.RouteKeys | src/Router/HandlerMapping.php:81-93 | After one service is registered, a key is in the table exactly when it was before or some route produced it. |
| RpcRouter.RouteKept | src/Router/HandlerMapping.php:81-93 | A key that no route of the service produces keeps its handler. |
| RpcRouter.RouteLast | src/Router/HandlerMapping.php:81-93 | A route whose key no later route repeats ends mapped to its class and method. |
| RpcRouter.Register | src/Router/HandlerMapping.php:47-56 | Registration succeeds exactly when every collected class has both a name and routes. Otherwise it fails at a class that is missing one; when the first class is incomplete, it fails there with the table unchanged. |
| RpcRouter.FailureKeepsEarlierClasses | src/Router/HandlerMapping.php:47-56 | When the first incomplete class follows complete classes `a`, registration fails at that class, and the table it leaves holds exactly the routes of `a` assigned in order. |
| RpcRouter.RegisterAssigns | src/Router/HandlerMapping.php:47-56 | Registering a complete mapping is the in-order assignment of every class's routes. |
| RpcRouter.Match | src/Router/HandlerMapping.php:65-72 | A function name is found exactly when it is in the table, and then yields its handler. Otherwise it is the "service not found" error naming the function. |
| RpcRouter.GetHandler | src/Router/HandlerMapping.php:34-40 | The handler is looked up by the request's `func` field, or by the empty name when it is missing. |
| RpcRouter.MatchAfterRegister | src/Router/HandlerMapping.php:47-72 | After registering a complete mapping, a function is found exactly when some route produced its key, and the handler found is the last such route's. |
| RpcRouter.UnnamedServiceKey | src/Router/HandlerMapping.php:86-117 | An unnamed service class `Ns\WordService` registers its routes under `Word::name`, with the first letter upper-cased. |
| HttpAdapter.CreateHandler | src/Router/Http/HandlerAdapter.php:87-129 | A callable object handler is called with the captures as given. A non-string, non-array handler is "invalid route handler" for the path. A string or segment handler names its class in the first segment, and the action is taken as follows: the second segment when present; otherwise the first capture, removed from the captures, when capture 0 exists; otherwise empty. Only the action is converted, and the context records the class and the action. |
| HttpAdapter.ExplicitAction | src/Router/Http/HandlerAdapter.php:98-118 | `Class@action` calls that action, converted, and leaves the captures untouched. |
| HttpAdapter.DynamicAction | src/Router/Http/HandlerAdapter.php:108-116 | Without `@`, a first capture at key 0 becomes the action and is removed. The remaining numbered captures are renumbered and the named ones kept. |
| HttpAdapter.ShiftTakesFirstCapture | src/Router/Http/HandlerAdapter.php:108-116 | The action is the first capture in order, even when that is a named capture placed before key 0. |
| HttpAdapter.PickAction | src/Router/Http/HandlerAdapter.php:108-116 | A second segment is the action and the captures stay as given. Without one and without capture 0, the action is empty and the captures stay. Otherwise the action is the first capture in order, and the rest keeps its numbered values in order and, when the keys are distinct, every named capture. |
| HttpAdapter.CreatedMatchesBindAlike | src/Router/Http/HandlerAdapter.php:108-118 | When the first capture is positional, the captures passed on keep every named capture, so each parameter binds exactly as it would against the router's captures. |
| HttpAdapter.DefaultHandler | src/Router/Http/HandlerAdapter.php:138-149 | An empty action falls back to the default action. The call succeeds exactly when that method exists. Otherwise the error is "the … of action is not exist!". |
| HttpAdapter.ContextNamesCheckedAction | src/Router/Http/HandlerAdapter.php:123-146 | The action recorded in the request context, with `index` for an empty one, passes the default-action check exactly as the action does with `index` as the default. |
| HttpAdapter.DefaultHandlerStable | src/Router/Http/HandlerAdapter.php:138-149 | With a non-empty default action, a handler that passed the check passes it again unchanged, whatever the default then. |
| HttpAdapter.ParserParamType | src/Router/Http/HandlerAdapter.php:217-238 | `bool` converts by PHP truthiness; `int`, `float` and `double` are cast; any other type passes the string through. |
| HttpAdapter.GetDefaultValue | src/Router/Http/HandlerAdapter.php:247-269 | Each case holds in both directions: `int`, `float` and `double` default to the integer 0, `string` to `""`, `bool` to false, and every other type to null. |
| HttpAdapter.DefaultIsEmptyCapture | src/Router/Http/HandlerAdapter.php:217-269 | For `string` and `bool`, the default equals converting an empty capture. |
| HttpAdapter.BindParams | src/Router/Http/HandlerAdapter.php:160-207 | There is one argument per parameter, in order. The request and response types get the request and the response. A captured name gets its converted capture; a typed missing name gets its type's default; an untyped missing name gets null. |
| HttpAdapter.DoHandler | src/Router/Http/HandlerAdapter.php:37-76 | "Not found" is the "Route not found for" error with the path. "Method not allowed" is the error naming the method, the path and the comma-joined allowed methods. An error from handler creation or from the default-action check is passed on as it is. The call succeeds exactly when neither happens; it calls the checked handler with one argument per parameter, bound from the created captures. |
| HttpAdapter.FoundActionRuns | src/Router/Http/HandlerAdapter.php:37-149 | A found `Class@action` route succeeds exactly when the converted action, or the default action for an empty one, exists on the class. It then calls that action with the arguments bound from the route's captures; otherwise the error is "the … of action is not exist!". |
| MiddlewareChain.New | src/Base/RequestHandler.php:43-47 | The chain starts at offset 0 with the default handler. Each middleware stays at the index of its first occurrence, and a repeat leaves a gap. The same names are present, each once. |
| MiddlewareChain.UniqueSlot | src/Base/RequestHandler.php:45 | Index j of the de-duplicated list holds the name exactly when j is its first occurrence. |
| MiddlewareChain.Next | src/Base/RequestHandler.php:74-79 | The next handler points one further and is otherwise the same. |
| MiddlewareChain.Handle | src/Base/RequestHandler.php:55-67 | An empty slot with a non-empty default runs the default. Otherwise the slot's middleware runs. The selected bean must be a middleware, else the error is "Invalid Handler". The middleware is handed the next handler. |
| MiddlewareChain.Advance | src/Base/RequestHandler.php:74-79 | After k steps the offset has grown by k and nothing else changed. |
| MiddlewareChain.ChainRunsInOrder | src/Base/RequestHandler.php:43-79 | The k-th step runs the k-th middleware when it is a first occurrence, and hands on the (k+1)-th handler. |
| MiddlewareChain.DuplicateRunsDefault | src/Base/RequestHandler.php:43-67 | The step at a repeated middleware's index runs the default handler instead. |
| MiddlewareChain.EndWithoutDefaultFails | src/Base/RequestHandler.php:55-67 | Past the last middleware with no default, handling fails with "Invalid Handler". |
| MiddlewareChain.InsertMiddlewares | src/Base/RequestHandler.php:88-100 | This is the method as written. An offset below 1 leaves only the new middlewares. Otherwise the result is the middlewares before the offset, then the new ones, then at most offset more; anything later is dropped. The result is renumbered from 0 and the cursor is kept. |
| MiddlewareChain.InsertAt | src/Base/RequestHandler.php:81-88 | This is the intended insertion. The new middlewares sit at the offset, clamped to the list, and removing them gives the old list back. Together they hold the old and new middlewares as a multiset. |
| MiddlewareChain.InsertKeepsShortTail | src/Base/RequestHandler.php:88-100 | When at most offset middlewares follow the offset, the method as written equals the intended insertion. |
| MiddlewareChain.InsertDropsTail | src/Base/RequestHandler.php:90-97 | With three middlewares a, b, c, inserting x at offset 1 gives a, x, b and drops c. The intended insertion gives a, x, b, c. |
| MiddlewareChain.InsertAtStartDropsAll | src/Base/RequestHandler.php:89-97 | At the initial offset 0, the method as written keeps only the new middlewares, where the intended insertion keeps all the old ones after them. |
| PathAliases.AliasName | src/App.php:307-309 | The stored name always starts with `@`. One is prepended exactly when it is missing. |
| PathAliases.SetAlias | src/App.php:305-342 | A null or empty path removes the alias. A path without `@` is stored as given. A path that is itself an alias is copied. Any other `@` path is resolved through its root alias, and an unknown root is the "root not registered" error. No other alias changes, and alias names keep their `@`. |
| PathAliases.GetAlias | src/App.php:351-373 | A registered alias yields its path. A string without `@` is returned as it is. Any other string is resolved by replacing its root alias, and an unknown root is an error. |
| PathAliases.SetStoresResolved | src/App.php:305-373 | Setting an alias to a non-empty path succeeds exactly when resolving that path does, and stores the resolved path under the alias. |
| PathAliases.SetThenGet | src/App.php:305-373 | Reading back a set alias gives what its path resolved to. |
| PathAliases.RemoveForgets | src/App.php:312-316 | Removal always succeeds, forgets the alias and keeps every other alias. |
| PathAliases.NameWithOrWithoutAt | src/App.php:307-309 | Setting `x` and setting `@x` are the same, and normalising a name twice changes nothing. |
| PathAliases.ExpandRootPrefix | src/App.php:333-372 | A path `root/rest`, whose rest does not repeat the root, resolves to the root's path followed by `/rest`. |
| PathAliases.SetAliases | src/App.php:292-297 | Setting no aliases changes nothing. A failing first pair stops at once with the table as it was and that error. When every name starts with `@` before, every name in the resulting table does too, including the partial table kept on failure. |
| PathAliases.SetAliasesAppend | src/App.php:292-297 | Setting a + b is setting a and then b, stopping at the first error. |
| PathAliases.FailureKeepsEarlierPairs | src/App.php:292-297 | When a pair fails after earlier pairs succeeded, the aliases those pairs set stay in place, the rest are not applied, and the error is that pair's. |
| PathAliases.PlainAliasesLastWins | src/App.php:292-323 | With plain paths, every alias is set, and the last pair for a name decides its path. |
| PathAliases.PlainAliasesKeep | src/App.php:292-323 | With plain paths, an alias none of the pairs names keeps its path. |
| ConsoleColor.OptionCodes | src/Console/Style/Color.php:135-141 | The options are accepted exactly when all are known, and map to their codes in order. Otherwise the error names the first unknown option. |
| ConsoleColor.Make | src/Console/Style/Color.php:104-142 | An unknown foreground or background is an error, checked before the options. Otherwise the result succeeds exactly when the options do. A set foreground is 30 plus its offset, a set background 40 plus its offset, and an empty one is 0. |
| ConsoleColor.GetStyle | src/Console/Style/Color.php:159-171 | The style is the decimal codes joined by `;`: the foreground when set, then the background when set, then the options. |
| ConsoleColor.ToString | src/Console/Style/Color.php:149-152 | Converting a colour to a string gives its style. |
| ConsoleColor.StyleRoundTrip | src/Console/Style/Color.php:159-171 | Splitting a non-empty style on `;` and reading each piece as a number gives back exactly the codes. |
| ConsoleColor.MadeCodesAreSgr | src/Console/Style/Color.php:47-142 | Every made colour uses foreground codes 30-37 or 39, background codes 40-47 or 49, and option codes 1-8 except 6. |
| ConsoleColor.PlainStyleIsEmpty | src/Console/Style/Color.php:116-171 | No colours and no options give the empty style. |
| ConsoleColor.ThreeCodes | src/Console/Style/Color.php:116-142 | A known foreground, background and option give exactly three codes in that order. |
| Strings.Trim | src/Router/Http/AbstractRouter.php:126 | `trim` with a character list never lengthens the input. A non-empty result starts and ends outside the list, and an input without list characters is unchanged. |
| Strings.TrimIsInfix | src/Router/Http/AbstractRouter.php:126 | The trimmed string is a contiguous piece of the input. |
| Strings.Split | src/Router/Http/HandlerAdapter.php:102 | `explode` gives at least one piece, no piece holds the delimiter, and joining the pieces restores the input. |
| Strings.SplitJoin | src/Router/Http/HandlerAdapter.php:102 | Exploding joined pieces that lack the delimiter gives the pieces back. |
| Strings.ContainsJoin | src/Router/Http/AbstractRouter.php:103 | A needle without the delimiter occurs in a joined string exactly when it occurs in one piece. |
| Strings.ReplaceAllAbsent | src/Router/Http/AbstractRouter.php:209 | Replacing text that does not occur changes nothing. |
| Strings.ParseNatStr | src/Console/Style/Color.php:170 | Reading back a number's decimal rendering gives the number. |
| PhpArrays.ArrayMerge | src/Router/Http/AbstractRouter.php:170 | `array_merge` appends the numbered values of both arrays in order. A later string key overrides an earlier one, and keys stay distinct. |
| PhpArrays.ArrayMergeOrder | src/Router/Http/AbstractRouter.php:170 | The string keys of `array_merge(a, b)` are those of `a` in order, followed by the string keys of `b` that are new, in `b`'s order. |
| PhpArrays.ArrayShift | src/Router/Http/HandlerAdapter.php:115 | `array_shift` on an empty array returns nothing and leaves it empty. Otherwise it returns the first value, whatever its key. The rest keeps its numbered values in order, renumbered from 0, and, when its keys are distinct, every string key with its value. |
| PhpArrays.ArrayUnique | src/Base/RequestHandler.php:45 | `array_unique` keeps exactly the first occurrences, at their original indices and in order. |
| PhpArrays.ArrayUniqueValues | src/Base/RequestHandler.php:45 | After `array_unique`, values are distinct and the same values are present. |
| PhpArrays.ArrayChunk | src/Base/RequestHandler.php:91 | `array_chunk` fails exactly for a size below 1. Otherwise the chunks concatenate to the input, each holds 1 to size items, and all but the last hold exactly size. |
| PhpArrays.FirstChunks | src/Base/RequestHandler.php:91-96 | The first chunk is the first size items, and a second chunk exists exactly when more items remain; it holds the next size at most. |
| PhpArrays.AssignAllLast | src/Router/HandlerMapping.php:90-91 | Assigning in order leaves each key with its last assigned value. |
| PhpArrays.AssignAllKeep | src/Router/HandlerMapping.php:90-91 | A key never assigned keeps its value. |
| PhpArrays.Put | src/Bean/Collector/ServiceCollector.php:36 | Writing an array key sets it, and a key not yet present is appended at the end. |
| PhpArrays.PutKeeps | src/Bean/Collector/ServiceCollector.php:36-49 | Writing a key leaves every other key's value alone. An existing key keeps its position, so the key order is unchanged, and distinct keys stay distinct. |
| PhpArrays.StringKeyed | src/Router/Http/AbstractRouter.php:166 | Filtering on string keys keeps only string-keyed entries, all taken from the input, with the same value under every string key. |
| PhpArrays.StringKeyedDistinct | src/Router/Http/AbstractRouter.php:166 | Filtering an array with distinct keys keeps them distinct. |

## Left out

- Regular expressions are not executed.
  - The route regex compiled by `parseParamRoute` is produced as text and never matched against a path.
  - The regexes that are matched are written out character by character: the first-node and include patterns of `parseParamRoute`, the `getPrefix` class pattern, the dash pattern of `convertNodeStr` and the slash collapse of `formatUriPath`.
- `rawurldecode`, `class_exists`, `method_exists` and the container's middleware test are parameters; their behaviour is not modelled.
- Reflection in `bindParams` becomes a list of parameters with optional type names. The call of the action itself, and the response wrapping in `doHandler`, are left out.
- HttpAdapter.ParserParamType: the `int`, `float` and `double` casts are kept symbolic. PHP's numeric-prefix conversion of strings and floating point are not modelled.
- MiddlewareChain.Handle: stops at the choice of middleware and next handler. The middleware's `process` call and the response are outside the model, and a name the container does not know is treated like a non-middleware.
- MiddlewareChain.InsertMiddlewares: takes middleware names only (not objects) and assumes the current list is numbered; `array_merge` then renumbers the result from 0.
- PHP's conversion of numeric string keys to integers is not modelled: collector and route-table keys are strings, and capture keys are either integers or names.
- HttpAdapter.CreateHandler: an empty segment list gives an empty class name rather than PHP's null.
- HttpAdapter.DoHandler: a "method not allowed" result carrying a handler instead of a method list cannot come from the router. The model reports it as a malformed route result.
- RpcRouter.Register: a collected class without a name or without routes is a `TypeError` in PHP, modelled as an error outcome. The table entries written before it are kept in that outcome; `RpcRouter.FailureKeepsEarlierClasses` states which ones.
- The suffix `Service` is the constant the mapping uses; `getPrefix` receives it as a parameter but is only ever called with it.
- The rest of the framework is not part of this model: bean container, application lifecycle, servers, connection pools, logging, i18n, timers and the HTTP router's dynamic route tables.
- App's other static accessors are not part of this model: beans, properties, logging and counters.
- `getPrefix` derives the prefix with `ucfirst` only. Apart from that first letter there is no case normalisation.
- `getDefaultValue` returns the integer 0 for `float` and `double`, not `0.0`; the model follows that code.
- An untyped parameter with a capture of the same name receives the raw capture string.
- A lookup of an unknown RPC function is modelled as an "invalid argument" error naming the function, which is what the code raises.

## Findings

| source | as written | input that shows it | evidently intended | confidence | as-written member | corrected member |
|---|---|---|---|---|---|---|
| src/Base/RequestHandler.php:88-100 | The list is cut into chunks of `offset` items, and only the first two chunks are merged around the new middlewares; an offset below 1 makes the chunking fail and loses the whole list | middlewares a, b, c with offset 1 and one new middleware x: the result is a, x, b (c is lost); a fresh handler (offset 0) keeps only x | insert the new middlewares at the offset and keep every current middleware after them | high, not executed | MiddlewareChain.InsertMiddlewares (shown by MiddlewareChain.InsertDropsTail and MiddlewareChain.InsertAtStartDropsAll) | MiddlewareChain.InsertAt (with MiddlewareChain.InsertKeepsShortTail) |
