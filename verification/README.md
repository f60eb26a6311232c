# A verified model of the gon web framework

This project models the parts of the framework that hold state machines, codecs and recursive
algorithms, and proves what they promise. Verify everything with `dafny verify dfyconfig.toml`.

| files | what they model |
|---|---|
| `Wrappers`, `Text`, `Utf8` | failure values; splitting, joining, decimal and hexadecimal digits, percent-encoding; runes in byte strings |
| `Braces`, `Regexp`, `TemplateErrors`, `NestedTemplates`, `Matching`, `Query` | route templates: finding variables, compiling and why that fails, nesting, matching, extracting; query lookup |
| `RouteMatching`, `RouteGraph`, `RouteForest`, `RouteCalls` | the recursive matcher, what builder calls and runs of them mean |
| `RouteVariables`, `RouteReports`, `NestedRoutes`, `TemplateSubjects` | what a match reports: route, controller and variables; paths under a prefix; what hosts and queries are matched against |
| `ConfCopy`, `Router`, `RouterRuns` | configurations as slices over shared arrays; the route and router objects; runs of calls on them |
| `Templates`, `TemplateSearch`, `TemplateResult`, `TemplateTermination` | the include loader, the sibling search, what it leaves and how it ends, when it ends at all |
| `FileWalk`, `TemplateFiles` | the directory walk and the table it fills |
| `Base64`, `Base64Groups`, `Session`, `Flash`, `JsonEscape` | signed session cookies, flash cookies, `\u` escaping |
| `AsyncLog`, `LogRotation` | the asynchronous logger's flush barrier; log rotation over a disk |
| `Restart`, `Shutdown` | listeners handed from process to process; the meeting of Serve and shutdown |
| `StaticCache` | the cache of encoded static files |

**Form.** Code that only computes is functions and lemmas. Loops and methods that change fields are
methods and classes proved against a function of the old state, about which the lemmas speak:
`BraceIndices`, `NewRouteRegexp`, the classes `Route`, `Multiplexer`, `TemplateSet`, `TemplateFile`,
`Controller`, `FileLogWriter`, `Process`, `FileCache`, and the in-place buffers of `Base64` and
`Session`. The asynchronous logger is a machine whose steps are single channel, pool and WaitGroup
operations, because what matters there is how goroutines interleave.

**Slices.** A configuration holds slices over arrays, into whose spare capacity append writes. The
objects of `Router` carry the contents of their slices as a ghost value, `Owned` says that the slices
hold it and that no two objects share an array, and every builder method keeps that. `RouteGraph` and
`RouteForest` speak about these contents.

**Bytes and text.** A Go string is a Dafny string whose characters are its bytes, except in
`JsonEscape`, where it is the code points that ranging over the string yields. Expressions match
runes, so `Utf8` decodes them as the library does, a byte that starts no valid encoding being a
rune of its own, and no value of a variable ends within a rune.

**What is taken as given.** HMAC, the AES keystream and gob are functions, with only the laws
written in `Session.Lawful` (a keystream of the length asked for; gob decodes what it encodes, to
which it gives at least one byte). `SameMacSameSession` also takes the MAC as injective. Clocks,
random bytes and the success of system calls are parameters.

## What turned out different from what the code suggests

- A route whose matchers go on after a subrouter can fail and still leave its inner route in the
  `RouteMatch`; the next route that matches is then reported under the wrong route
  (`RouteForest.WrongRouteReported`). `RouteMatching.FailedRouteUnchangedIff` says, for every tree,
  exactly when a failed route leaves the match alone.
- Calling `Subrouter` twice on one route nests the second router's routes under the first router's
  matcher, so a route added to the first one changes what routes of the second answer
  (`RouteForest.SharedSubrouter`). `RouteGraph.TreeChangesIff` says exactly which calls change which
  routes.
- Two variables without a separator between them (a slash in paths, a dot in hosts) make a template
  ambiguous; extraction is then greedy (`Matching.SubmatchesMeaning`), and unique exactly when a
  separator stands between any two (`UnambiguousIffSeparated`). A literal U+FFFD also matches a byte
  that is not UTF-8, so extracted values rebuild every accepted subject exactly when no literal holds
  U+FFFD (`RebuiltIff`).
- The builder compares the names of a new query with those of the host and of earlier queries, not with
  those of the path: the query's value then replaces the path's (`RouteVariables.QueryReplacesPath`).
  After any run of builder calls every value survives exactly when path and queries agree on the names
  they share (`KeptAfterAnyRun`).
- A path under a prefix is added to the prefix without its trailing slashes, but the prefix itself is
  still tested with them. Where a prefix ends in more slashes than the path begins with, no request
  reaches the nested route (`NestedRoutes.LiteralRoutesMatch`).
- The lifetime check subtracts in 64-bit arithmetic that wraps. The window is the intended one if and
  only if the difference of reading time and lifetime fits 64 bits (`Session.LifetimeIff`). Where it
  does not, a cookie read in the second it was issued is accepted exactly if the lifetime is negative
  (`LifetimeWraps`): refused before 1970 with the longest lifetime, accepted later with the most
  negative one (`WrappingTimes`).
- The comment of `findFirstQueryKey` likens it to the library's query parsing; the code also splits on
  `;`, and that is what `Query` models.
- `stringsToJSON` changes the meaning of code points from 0x10000 on, and of no others
  (`JsonEscape.EscapeKeepsMeaning`).
- A name that an included file refers to is loaded only if it has a template extension; it is not
  looked for in the siblings (`TemplateSearch.IncludedNamesAreNotSearched`). It is defined exactly if
  a file that the template, or a sibling loaded for it, leads to has or defines the name
  (`TemplateResult.DefinedIff`).
- If the define pattern finds a name that parsing does not define, getTemplate can search without end
  (`TemplateTermination.DisagreementNeverEnds`); where pattern and parser agree, searches nest no deeper
  than there are names left to define (`TemplateDepth`).
- A caller of getTemplate can be left with neither a template nor an error, though not while the files
  that siblings lead to parse (`TemplateResult.TemplateOrError`). For a file that lacks one name this
  happens exactly if the last sibling with a `define` tag for it, and no other of them, does not parse
  and the file refers to nothing after that name (`NeitherTemplateNorError`); `UnparsedDefiner` is the
  smallest case.
- A template file with a backslash in its name is filed under another directory, and can be filed twice
  (`TemplateFiles.BackslashFiledTwice`); the table is the directory tree exactly when there is no such
  file (`FiledInPlaceIff`).
- A child told to restart before it has registered all addresses stays within fork's arrays exactly if
  those it has come first in the table (`Restart.EarlyForkFitsIff`); with only the second one registered
  fork panics (`EarlyForkOverruns`), as it does while a server has no listener. An empty address is
  passed on under one name and looked up under another (`LaddrSlotIff`).
- If the server fails just after shutdown has found it running, shutdown waits forever to hand its
  result to a Serve that has returned, and no later signal is handled (`Shutdown.StrandedRun`). A run
  ends like that exactly if it holds such a failure (`DoomedIff`).
- The line counter grows by one per message whatever its text, and the size counter by the length
  before ANSI codes are stripped; `LogRotation.FileLogWriter.WriteEscaped` says when they still agree
  with the file. The logger reopens its file before every message and counts again.
- `writeMsg` copies each message into a pooled object and then enqueues the original; the copy is
  dropped.

## Model

| member | source | states |
|---|---|---|
| Braces.BraceIndices | regexp.go:261-282 | the loop returns the groups of the scan, or nothing when braces are unbalanced |
| Braces.GroupsMeaning | regexp.go:261-282 | it succeeds if and only if braces balance, and then returns ordered disjoint spans, each an outermost group, with no brace outside of them |
| Braces.OuterGroupsUnique | regexp.go:259-282 | only one list of spans has these properties |
| Braces.GroupsOfConcat | regexp.go:261-282 | groups of a balanced text followed by another are its own followed by the other's, shifted |
| Braces.GroupsOfNested | route.go:158-165 | the same for a prefix without its trailing slashes followed by a path, which nested paths rely on |
| Regexp.NewRouteRegexp | regexp.go:139-252 | the compiling loop yields the segments of the groups, or the first error; a literal that is not valid UTF-8 is refused |
| Regexp.CompileOfRender | regexp.go:139-252 | compiling the text of literals and `{name}` variables gives back exactly those literals and names, and an error if a literal is not valid UTF-8 |
| Regexp.CompiledRenders | regexp.go:172-199 | conversely, what any template compiles to renders to that template |
| TemplateErrors.UnbalancedIff | regexp.go:261-282 | compiling fails for its braces if and only if they do not balance |
| TemplateErrors.CompileFailsIff | regexp.go:164-199 | it fails for a missing name, an empty pattern or a pattern of the user's if and only if the first outermost group that is no plain name has that fault |
| TemplateErrors.VarNameMeaning | regexp.go:168-180 | which fault a name and a pattern around the first colon have |
| NestedTemplates.CompiledOfNested | route.go:158-165 | a nested template compiles to the prefix's segments followed by the path's, joined at the literal between, with the variables of both in order; a bad path gives the path's own error |
| Matching.SubmatchesMeaning | regexp.go:184-199 | a subject matches if and only if it reads as the literals interleaved with values of the variables' class that end where runes end, and the values extracted are the greediest ones |
| Matching.AcceptedIffFilled | regexp.go:49-68 | for every template whose literals are valid and free of U+FFFD: a subject is accepted if and only if it is the template filled with such values, no rune being cut, followed by anything for a prefix, by one line for an empty query value and by nothing otherwise; the extracted values are such values |
| Matching.RebuiltIff | regexp.go:49-68 | for every template with valid literals: the extracted values rebuild every accepted subject, up to what may follow the template, if and only if no literal holds U+FFFD |
| Matching.OneRuneIsNotTwoValues | regexp.go:186-188 | two variables side by side refuse a single rune, however many bytes it has |
| Matching.UnambiguousIffSeparated | regexp.go:139-252 | values are determined by the subject if and only if a character that no value holds stands between any two variables: a slash in paths, a dot in hosts, a newline in queries |
| Matching.ExtractOfFilled | regexp.go:346-350 | then, with plain literals and nothing to follow, extracting from a filled template returns the values it was filled with |
| Matching.ExtractVars | regexp.go:346-350 | the loop stores each value under its name |
| Matching.SetVarsMeaning | regexp.go:346-350 | with distinct names every name ends up with its value, and other variables stay |
| Matching.PathVariables | regexp.go:295-343 | from template text to variables: a path filled from a plain template with distinct names is accepted and yields the values |
| Matching.Match | regexp.go:49-68 | matches against host, path or query value by type, dropping the port of the host where the template has none |
| Matching.SetMatch | regexp.go:295-343 | collects host, then path, then query variables, as `MatchVars` says |
| TemplateSubjects.HostOfRequest | regexp.go:284-293 | without a wildcard port the subject is the whole host, of an absolute URL or of the request |
| TemplateSubjects.PortIgnored | regexp.go:49-68 | with it, the host up to its first colon, whatever port follows |
| TemplateSubjects.HostCompiles | regexp.go:215-222 | a host template ignores the port if and only if no literal of it holds a colon |
| TemplateSubjects.HostVariables | regexp.go:295-343 | from template text to variables: a filled host without colons, with any port, is accepted and binds each name to its value |
| TemplateSubjects.QueryCompiles | regexp.go:206-214 | a literal query leaves the value open if and only if it has none |
| TemplateSubjects.QueryAccepts | regexp.go:49-68 | it accepts exactly the requests whose first value for the key is that value or, without one, any value of one line |
| TemplateSubjects.QueriesAskFor | route.go:268-282 | `Queries` with plain pairs is not refused, and the route then also asks for every key with its value |
| RouteVariables.LastBindingWins | regexp.go:295-343 | so a variable ends up with the value of the last matching expression that names it, and else with the one it had |
| RouteVariables.AllKeptIff | regexp.go:295-343 | every name keeps the value of every expression that binds it if and only if expressions agree on the names they share |
| RouteVariables.KeptAfterAnyRun | route.go:169-193 | after any run of builder calls that is so if and only if the path agrees with each query, as the builder keeps all other names apart |
| RouteVariables.QueryReplacesPath | route.go:169-193 | a path `{a}` and then a query with `{a}` are accepted, and the query's value replaces the path's |
| Query.FindFirstQueryKey | regexp.go:91-125 | the loop equals splitting the whole query, dropping empty and badly escaped pairs, and taking the first value; the length test never rejects a match |
| Query.FirstValueMeaning | regexp.go:89-125 | that value is the one of the first pair with the key, and absent if and only if no pair has it |
| Query.PartsOfQuery | regexp.go:94-99 | a query is parted at `&` and at `;`, and nowhere else |
| Query.PairAtFirstSign | regexp.go:103-106 | a piece is split at its first `=` only |
| Query.PairWithoutSign | regexp.go:103-106 | without `=` it is a key with an empty value |
| Query.PlainPair | regexp.go:111-122 | characters that need no escape stand for themselves |
| Text.UnescapeFailsIff | regexp.go:111-122 | unescaping fails if and only if some `%` is not followed by two hexadecimal digits |
| Query.PairsOfEncodeQuery | regexp.go:91-125 | the pairs of an encoded query are the pairs that were encoded, in order |
| RouteMatching.RoutesAreFlat | route.go:63-121 | when subrouters stand last, recursive matching gives the outcome of trying the chains of the tree one after another, from any state |
| RouteMatching.NestedRoutingIsFlat | mux_route.go:48-60 | there a router matches if and only if some leaf has all its and its ancestors' matchers satisfied; the first such leaf in registration order gives route and controller; a failure leaves the match empty |
| RouteMatching.FailedRouteUnchangedIff | route.go:63-121 | for every tree: a failed route leaves an empty match unchanged if and only if it carries an error or no subrouter, at any depth, matched on the way to the matcher that failed |
| RouteMatching.SubrouterNotLast | route.go:63-121 | for any routes of this shape: a matcher after a subrouter lets a failed route decide which route is reported |
| RouteReports.MatchReports | route.go:63-121 | for every tree and any state left before: a route matches if and only if it has no error and all its tests do, and route, controller and every variable are those that the routes which matched on the way leave, a variable the value of the last expression that binds it |
| RouteReports.RouterReports | mux_route.go:48-60 | the same for a router, whether it matches or not |
| RouteReports.WinnerReports | route.go:107-120 | when subrouters stand last: the first satisfied leaf with its ancestors, innermost first, gives route, controller and all variables, and nothing else is there |
| RouteReports.FilledPathIsReported | route.go:63-121 | end to end: after NewRoute, Path with literals and variables and Control, a request for the filled path is answered with that route, that controller and exactly those values |
| RouteForest.WrongRouteReported | route.go:63-121 | a run of builder calls, for any two literal paths, after which the request for one is answered under the wrong route |
| RouteGraph.NoRouterContainsItself | mux_route.go:89-94 | in the heap the builder calls maintain no router is reached from its own routes |
| RouteGraph.ApplyKeeps | mux_route.go:63-94 | each builder call keeps the heap acyclic and changes one object |
| RouteGraph.CallsAreIsolated | mux_route.go:63-94 | by what the calls mean for the contents of configurations: a call changes the matching of no route that does not reach the changed object |
| RouteGraph.EffectiveIff | route.go:150-195 | a call changes its own object's tree if and only if it is a new route or subrouter, a first error or matcher without an earlier error, or another controller |
| RouteGraph.TreeChangesIff | mux_route.go:63-94 | a call changes what a route is if and only if the route reaches the changed object and the call is effective |
| RouteForest.NoRunMakesACycle | mux_route.go:89-94 | after any run of builder calls from a fresh router no router contains itself, so matching ends |
| RouteForest.ErrorsStick | route.go:57-60 | once a route has an error it keeps one through any run, gains no path, host or query matcher, keeps its controller, and never matches |
| RouteForest.DisciplinedRoutingIsFlat | route.go:63-121 | after any run with at most one subrouter per route, created last, nested matching is flat matching |
| RouteForest.SiblingsApart | mux_route.go:63-68 | where every route has at most one subrouter, created last, two routes of a router reach no common object |
| RouteForest.SiblingsIsolated | mux_route.go:63-94 | there, again for contents, a call on or below one route never changes how a sibling matches |
| RouteForest.SharedSubrouter | mux_route.go:89-94 | with a second subrouter on a route, a route added to the first makes a route of the second answer every request, where it answered none |
| Router.Route.AddRegexpMatcher | route.go:150-195 | the method on slices does to this route's contents and error what `AddRegexp` says, whose meaning the next eight rows give |
| NestedRoutes.PathIsNested | route.go:150-195 | a path is refused with exactly the error of its own text, or because names of it or of the path before it are taken by host or queries; otherwise one matcher is added, with the literals and names of the route's path without trailing slashes followed by its own |
| NestedRoutes.NestedAfterAnyRun | route.go:150-195 | so it is on every route after any run of builder calls |
| NestedRoutes.FillOfNested | route.go:158-165 | that template, filled, is the filled prefix without its trailing slashes followed by the filled path |
| RouteCalls.HostAdded | route.go:169-193 | a host is refused if and only if its template is wrong or shares a name with the path or a query, with that error, and otherwise is tested and becomes the host |
| RouteCalls.QueryAdded | route.go:169-193 | a query is refused if and only if its template is wrong or shares a name with the host or a query |
| RouteCalls.FollowsAfterAnyRun | route.go:169-195 | after any run of builder calls a route takes its variables from the last host, the last path and all queries among the expressions it tests |
| NestedRoutes.NestedRoutesMatch | mux_route.go:63-94 | after a prefix, a subrouter, and in it a route with a path, the router matches exactly what the prefix and the nested template accept, and the inner route answers |
| NestedRoutes.LiteralRoutesMatch | mux_route.go:63-94 | with literals: exactly the path that is the prefix without its trailing slashes followed by the inner path, provided that it begins with the prefix |
| Router.Route.Path | route.go:144-147 | adds a path matcher and keeps the error, changing no other object |
| Router.Route.PathPrefix | route.go:295-298 | the same for a prefix |
| Router.Route.Host | route.go:244-247 | the same for a host |
| Router.Route.Queries | route.go:268-282 | an odd number of arguments sets the error and yields no route; otherwise matchers are added until one fails |
| Router.Route.Control | route.go:208-213 | sets the controller unless the route has an error |
| Router.Route.Subrouter | mux_route.go:89-94 | a fresh router with the copied slices of the configuration, added to the route's own matcher slice; afterwards still no two objects share an array, and all slices hold what `RouteGraph.Apply` says |
| Router.Route.Match | route.go:63-121 | the recursive method on the heap computes the tree matcher's outcome in the shared match object; `RouteReports` says what that outcome is |
| Router.Multiplexer.NewRoute | mux_route.go:63-68 | a fresh route with the copied slices, appended, with the same guarantee |
| Router.Multiplexer.Match | mux_route.go:48-60 | tries the routes in order, as the tree matcher does |
| Router.CheckUnique | mux_route.go:227-236 | accepts two lists of names if and only if they share none |
| ConfCopy.CopyRouteConf | mux_route.go:199-219 | the copy has the same contents in fresh storage without spare room |
| ConfCopy.AddMatcher | route.go:57-60 | appends in place or to a larger array, and adds the matcher to the contents |
| ConfCopy.PerformAll | mux_route.go:199-219 | through any sequence of copies and additions of matchers and queries the slices hold what the same sequence does to values, and no two configurations share an array |
| ConfCopy.StepsAreIsolated | mux_route.go:199-219 | so a configuration that nothing is added to stays, however often it and others are copied and extended |
| ConfCopy.AddWithoutCopy | mux_route.go:199-219 | without the copy the second owner's element takes the place of the first's exactly where there was spare capacity |
| RouteForest.RunIsIsolated | mux_route.go:63-94 | no run of calls, however long, changes a route that reaches none of the objects the calls are made on |
| RouterRuns.CallAll | mux_route.go:63-94 | any sequence of builder calls on objects that share no array leaves objects that share none, whose slices hold what the run of these calls says |
| RouterRuns.Build | mux_route.go:63-94 | the same from a fresh router on, so that what `RouteForest` proves of runs holds of the objects |
| Templates.LoadDeepMeaning | ctrl/template.go:186-228 | a nested load opens its file first, opens no name twice nor one already defined, each opened file is referred to by an earlier one, and on success all template references of opened files are defined |
| Templates.IncludeMeaning | ctrl/template.go:186-228 | a whole load opens each name at most once, only files reachable from the start, and on success every template reference of an opened file is defined; cycles included |
| Templates.LoadFailure | ctrl/template.go:186-228 | a load fails to parse only if a reachable file does, and misses a file only if a reachable one is missing |
| Templates.SoundLoads | ctrl/template.go:186-228 | so when all reachable files exist and parse, the load succeeds |
| Templates.OpenedIffReachable | ctrl/template.go:186-228 | and, where no definition has a template extension and references stay in place, opens exactly the reachable files, whatever they define |
| Templates.OpenedWhere | ctrl/template.go:186-196 | a name that starts with `../` is opened at its place relative to an earlier file that refers to it, any other name at itself |
| Templates.ExtensionIff | ctrl/template.go:95-103 | template files are those that end in a dot and `tpl`, `html` or `gohtml` |
| TemplateSearch.SearchMeaning | ctrl/template.go:230-289 | the mutual recursion ends, and if it ends with a template every name asked for that a sibling file or its definitions can provide is defined |
| TemplateSearch.TemplateMeaning | ctrl/template.go:171-184 | the same for the references of every file loaded on the way, starting from the given one |
| TemplateResult.SoundTemplate | ctrl/template.go:171-184 | when the file, the siblings that can supply a name, and all they lead to exist and parse, it ends with a template |
| TemplateResult.DefinedIffOpened | ctrl/template.go:206-228 | the set holds exactly the file's name, the names of the opened files and what their texts define, however the search ends |
| TemplateResult.DefinedIff | ctrl/template.go:206-228 | when the search has finished and definitions have no template extension, exactly what is given by the files that the template, or a sibling loaded for it, leads to |
| TemplateResult.IncludedIff | ctrl/template.go:186-228 | and what the file itself brings is exactly what the files it leads to give |
| TemplateResult.TemplateOrError | ctrl/template.go:171-184 | when every existing file that siblings lead to parses, no file is left with neither template nor error |
| TemplateResult.NeitherTemplateNorError | ctrl/template.go:230-289 | for a file that lacks one name and any siblings none of which is called so: a template if and only if no sibling with a tag for it fails to parse; neither template nor error if and only if just the last of these fails and no reference follows the name; a panic otherwise |
| TemplateResult.UnparsedDefiner | ctrl/template.go:255-283 | the smallest case of neither: one reference and one sibling |
| TemplateTermination.TemplateDepth | ctrl/template.go:230-289 | where define tags agree with the parser, nested searches are no deeper than there are referenced names the file does not bring with it, and the search with that bound is the whole search |
| TemplateTermination.DisagreementNeverEnds | ctrl/template.go:255-283 | where they do not: if the first sibling with a tag for the missing name refers to the name but does not define it, getTemplate needs more nested searches than any number |
| TemplateSearch.IncludedNamesAreNotSearched | ctrl/template.go:212-226 | a block used only by an included file stays undefined although a sibling defines it |
| TemplateSearch.TemplateSet.GetTplDeep | ctrl/template.go:186-228 | the recursive method fills the shared set as the loader function does |
| TemplateSearch.GetTemplate | ctrl/template.go:171-184 | the methods together compute the search and how it ends: with the template, in a panic, or with a nil template and an error or none |
| FileWalk.WalkIsPass | ctrl/fs.go:18-72 | for any callback and its state the walk makes the calls of one pass over the preorder list, where a skip jumps over a directory's contents or the rest of a file's directory, and any other error ends it |
| FileWalk.ToldOf | ctrl/fs.go:33-54 | a call is told the path, whether it is a directory or a link, and an error if and only if the directory cannot be listed |
| TemplateFiles.TemplateFile.Visit | ctrl/template.go:76-93 | files a regular template under its directory and passes on only the error of an unexamined root |
| TemplateFiles.TemplateFile.WalkDir | ctrl/fs.go:33-72 | the recursive walk with this callback changes the table as the walk function says |
| TemplateFiles.RootFails | ctrl/fs.go:18-31 | a root that cannot be opened or examined files nothing and gives back its error, unless that says to skip |
| TemplateFiles.TableMeaning | ctrl/template.go:76-93 | when no directory fails to open, the walk succeeds and the table holds what visit keeps of the walked files, in order |
| TemplateFiles.FiledInPlaceIff | ctrl/template.go:76-93 | then each directory of the tree has exactly its regular template files, in listing order, under its own key, and there are no other keys, if and only if no template file has a backslash in its path below the root |
| TemplateFiles.FiledOnce | ctrl/template.go:76-93 | in such a table no file occurs twice, under one key or two |
| TemplateFiles.BackslashFiledTwice | ctrl/template.go:87-92 | a name with a backslash is filed beside the file it is mistaken for, so that one name occurs twice |
| TemplateFiles.FilesOnce | ctrl/fs.go:33-72 | no path is walked twice when sibling names are distinct, backslashes or not |
| Base64.RoundTrip | session/session_utils.go:178-192 | decoding undoes encoding, for every byte string (section 5 of RFC 4648) |
| Base64.Encode | session/session_utils.go:178-182 | the buffer is filled with exactly the encoding |
| Base64.Decode | session/session_utils.go:185-192 | decodes group by group, skipping newlines, and fails on any other deviation |
| Base64.EncodedIsClean | session/session_utils.go:178-182 | an encoding holds neither a separator nor a newline |
| Base64Groups.EncodedAt | session/session_utils.go:178-182 | each group of four characters is the number that its three bytes, or those left, are, with one symbol more than bytes and `=` in the rest |
| Base64Groups.SymbolsOfAlphabet | session/session_utils.go:178-182 | the symbols are those of section 5 of RFC 4648 |
| Base64Groups.DecodedIff | session/session_utils.go:185-192 | exactly those texts decode, and to those bytes, that without newlines are such groups, padded only at the end; the bits left over in the last group do not count |
| Session.DecryptedOfEncrypted | session/session_utils.go:144-173 | counter mode undoes itself for every non-empty text; an empty one is refused |
| Session.SplitOfFramed | session/session_utils.go:98-107 | splitting at the first two separators recovers date, payload and MAC, whatever bytes the MAC has |
| Session.RoundTrip | session/session_utils.go:66-136 | reading a cookie just made gives back the map, or the error of the window it misses, with wrapping subtraction |
| Session.LifetimeIff | session/session_utils.go:111-121 | the map comes back for exactly the issue times with issued <= read <= issued + lifetime if and only if read - lifetime fits 64 bits |
| Session.AcceptedWindow | session/session_utils.go:111-121 | for all times: accepted from the wrapped difference up to the time of reading, an error otherwise |
| Session.Lifetime | session/session_utils.go:111-121 | where the difference fits, a cookie is accepted if and only if issued <= read <= issued + lifetime, and reading fails otherwise |
| Session.LifetimeWraps | session/session_utils.go:119-121 | where it does not, a cookie read in the second it was issued is accepted exactly if the lifetime is negative |
| Session.AcceptedIffGenuine | session/session_utils.go:91-136 | exactly those cookies are accepted that decode to a date, a payload and their MAC, with the date in the window and the payload decoding to the map |
| Session.GenuineUnique | session/session_utils.go:97-107 | in only one way |
| Session.NotFramedIff | session/session_utils.go:97-101 | text that decodes is refused for its format if and only if it is not a date, a payload and a MAC with separators between |
| Session.FrameDecides | session/session_utils.go:91-136 | any other is judged by its frame |
| Session.BadMacIff | session/session_utils.go:103-113 | first by its MAC, then by its date |
| Session.OutsideWindowIff | session/session_utils.go:114-121 | then by the window, each fault with its own error |
| Session.PayloadDecides | session/session_utils.go:122-136 | and last by its payload |
| Session.ParseIntMeaning | session/session_utils.go:111-113 | a date is digits with an optional sign, and the number they are, if that fits 64 bits |
| Session.WrapIsCongruent | session/session_utils.go:119-121 | the subtraction is exact up to a multiple of 2^64 |
| Session.SignedInjective | session/session_utils.go:103-107 | the signed text determines name, date and payload, though a name may hold separators |
| Session.SameMacSameSession | session/session_utils.go:91-136 | accepted cookies with equal MACs carry the same name, date and payload and give the same result |
| Session.Encrypt | session/session_utils.go:144-154 | XORs the buffer in place behind the initialization vector |
| Session.XorByteIff | session/session_utils.go:144-154 | a bit of an encrypted byte is set if and only if it is set in just one of text and keystream |
| Session.EncryptedAt | session/session_utils.go:144-154 | the vector comes first, and each later byte is the text's byte so combined with the keystream's |
| Session.EncryptedZeros | session/session_utils.go:144-154 | so zero bytes encrypt to the keystream itself |
| Session.Decrypt | session/session_utils.go:160-173 | the inverse, refusing short input |
| Session.EncodeCookie | session/session_utils.go:66-89 | the pipeline over buffers computes the cookie |
| Session.DecodeCookie | session/session_utils.go:91-136 | and the session or the error |
| Flash.Controller.Store | ctrl/controller.go:747-754 | the cookie set is the escaped text of all entries in some order of the keys |
| Flash.Controller.ReadFlashData | ctrl/controller.go:202-218 | adds what the cookie value reads as to the flash map, and clears the cookie |
| Flash.EntryMeaning | ctrl/controller.go:209-212 | an entry is read back if and only if the delimiter stands neither earlier, across the key's end, nor in the value |
| Flash.RoundTripIff | ctrl/controller.go:747-754 | for every map and every order, reading what was stored gives back the map if and only if every entry is clean |
| Flash.PlainIsClean | ctrl/controller.go:202-218 | keys without NUL and `#` and values without NUL and delimiter are clean |
| Flash.PlainRoundTrip | ctrl/controller.go:202-218 | so they are added unchanged to what the controller holds |
| Flash.SanitizeEscaped | context/output.go:167-174 | an escaped value passes through sanitizeValue unchanged |
| Flash.SanitizeMeaning | context/output.go:167-174 | a sanitized value has no line break and no semicolon; a value is left as it is if and only if it has none |
| Flash.BadlyEscapedReadsNothing | ctrl/controller.go:204-205 | a cookie value that is not well escaped reads as no entry |
| JsonEscape.StringsToJson | context/output.go:379-396 | the loop escapes each code point in turn |
| JsonEscape.EscapeIsFour | context/output.go:385-392 | below 0x10000 an escape has exactly four digits, those of the code point |
| JsonEscape.EscapeIsAscii | context/output.go:379-396 | the output is ASCII |
| JsonEscape.EscapeKeepsMeaning | context/output.go:379-396 | a readable text keeps its tokens and the UTF-16 values of its strings (section 7 of RFC 8259) if and only if all code points are below 0x10000 |
| AsyncLog.RunKeepsInv | logs/gon_logger.go:88-111 | every interleaving keeps written, in flight and queued equal to the enqueue order, the queue within its capacity, one owner per message object, and the flush protocol |
| AsyncLog.AfterAnyRun | logs/gon_logger.go:56-75 | from the start: what is written is a prefix of what was enqueued, the WaitGroup is 0 or 1, and no queued object is in the pool |
| AsyncLog.FlushIsABarrier | logs/gon_logger.go:303-311 | when Flush returns, everything enqueued before it was called is written, in order |
| AsyncLog.NoDeadlock | logs/gon_logger.go:88-111 | unless all is at rest some goroutine can take a step |
| AsyncLog.ComesToRest | logs/gon_logger.go:229-244 | without new messages every run ends after a bounded number of steps, with Flush returned and all written |
| AsyncLog.EnqueuedAsMade | logs/gon_logger.go:209-219 | along any run each object is enqueued with the text it was last made with |
| AsyncLog.LoggedIsKept | logs/gon_logger.go:209-219 | after any run what was enqueued, with what the objects still on their way hold, is what was logged, each message as often |
| AsyncLog.WrittenIsLogged | logs/gon_logger.go:209-219 | at rest the messages written are those logged, in some order: that in which they were enqueued |
| LogRotation.RunConserves | logs/file.go:292-359 | over any run of checks, writes and rotations, whichever calls fail, archives in order and live file are what they were followed by all that was written |
| LogRotation.LogIsStream | logs/file.go:292-359 | from an empty disk with a limit: archives 1 to k without a gap, and with the live file they are the written stream |
| LogRotation.LiveStaysOpen | logs/file.go:133-143 | over any run whose opens succeed the open file is the live one |
| LogRotation.StreamIsWritten | logs/file.go:195-204 | there the stream is all that the successful writes wrote, one after another |
| LogRotation.LogIsWritten | logs/file.go:181-205 | so from an empty disk archives 1 to k and the live file are the bytes of all successful writes |
| LogRotation.TargetIsNext | logs/file.go:317-332 | a rotation takes the number after the last archive, if there is one within the limit, and its name is free |
| LogRotation.ArchiveInjective | logs/file.go:319-321 | archive names with `%03d` numbers are distinct |
| LogRotation.NothingReplaced | logs/file.go:334-343 | a rotation, even on an arbitrary disk, replaces no file |
| LogRotation.FailedRotation | logs/file.go:329-343 | without a free number nothing happens; without the rename no content changes |
| LogRotation.Lines | logs/file.go:263-288 | counts newlines whatever pieces the file is read in |
| LogRotation.NewlinesAreCounted | logs/file.go:263-288 | and that is the number of newlines in the file |
| LogRotation.FileLogWriter.Start | logs/file.go:133-143 | reopens the live file, which then is the open one, and counts its size and lines; says what is left when a count fails; without the open the old file stays open |
| LogRotation.FileLogWriter.CheckFileName | logs/file.go:363-373 | restarts whether or not the file is there, and leaves the live file open if it can be opened |
| LogRotation.FileLogWriter.WriteEscaped | logs/file.go:195-204 | appends to the open file; the counters still agree with it if and only if one line was added and nothing was stripped |
| LogRotation.FileLogWriter.FindName | logs/file.go:316-327 | the loop finds the least free name, or the next one without limits |
| LogRotation.FileLogWriter.Rotated | logs/file.go:292-359 | rotates as the specification says, and reports success if and only if every step succeeded |
| LogRotation.FileLogWriter.DailyRotate | logs/file.go:234-247 | the timer rotates if and only if a limit is reached or the day has changed; where the counters agree with the live file, that is its own size and number of lines |
| LogRotation.FileLogWriter.WriteMsg | logs/file.go:181-205 | checks, then writes, with or without the timer in between: the whole log grows by exactly the message without its ANSI codes if it was written, and it is if the opens and the write succeed |
| Restart.RootTable | servers/grace.go:74-80 | a first process numbers its addresses from zero, each once |
| Restart.ChildTable | servers/grace.go:74-78 | a child restores the table it was passed, in whatever order it registers |
| Restart.JoinRestoresIff | servers/server.go:341-342 | joining and splitting the names restores them if and only if none holds a comma |
| Restart.RebuiltTwice | servers/server.go:329-343 | rebuilding the arguments again changes nothing |
| Restart.OrderIsPassedOn | servers/server.go:341-342 | reading `-socketorder=` out of the rebuilt arguments gives the joined names, if there is more than one |
| Restart.SuccessorKeeps | servers/server.go:211-219 | a child, reading its flags from the arguments, opens for each address the very listener its parent holds |
| Restart.ListenersAreInherited | servers/server.go:312-354 | over any number of generations the table is the same bijection onto 0..n-1, every server holds the listener of the first process, and the arguments stay the same from the first restart on |
| Restart.EarlyForkFitsIff | servers/server.go:320-326 | with only some addresses registered fork stays in bounds if and only if they come first in the table |
| Restart.EarlyForkOverruns | servers/server.go:320-326 | with only the second address registered it does not |
| Restart.LaddrSlotIff | servers/server.go:211-217 | looking up the listen address finds the address's slot if and only if it is not empty, or first with no `:http` beside it |
| Restart.CompleteTableForks | servers/server.go:320-326 | with a complete table every server has a slot of its own, and fork goes through if and only if every server has a listener |
| Restart.Process.NewServer | servers/grace.go:67-112 | registers the address and brings the table up to date |
| Restart.Process.ListenAndServe | servers/server.go:62-72 | a child takes the inherited listener of its slot, a first process the bound one |
| Restart.Process.Fork | servers/server.go:312-354 | the first call panics if and only if a server has no listener or a slot out of bounds; otherwise it fills every slot once, with the listener and address whose number it is, and rebuilds the arguments; later calls do nothing |
| Shutdown.AfterAnyRun | servers/server.go:39-58 | in any interleaving from the start shutdown passes its check at most once, and Serve returns without an error only when the listener is closed and all requests are answered |
| Shutdown.ReturnedIff | servers/server.go:39-58 | a run from the start ends with Serve returning exactly the server's failure if there was one, no error if requests were drained, and the timeout otherwise |
| Shutdown.DoomedByFailure | servers/server.go:295-310 | the only step that can strand the signal handler is the server failing between shutdown's check and the closing of the listener |
| Shutdown.DoomedForever | servers/server.go:309-309 | after which no run brings the handler back: it waits forever at the channel |
| Shutdown.DoomedIff | servers/server.go:295-310 | a run from the start ends stranded if and only if it holds such a failure |
| Shutdown.StrandedRun | servers/server.go:295-310 | the shortest such run |
| Shutdown.ShutdownCompletes | servers/server.go:295-310 | otherwise a shutdown ends after a bounded number of steps with Serve returned and signals handled again |
| StaticCache.KeyInjective | static_file.go:170-170 | keys tell encodings and paths apart while no encoding holds a colon |
| StaticCache.KeysCollideIff | static_file.go:170-170 | any two encodings share a key if and only if one with its colon begins the other |
| StaticCache.HitIsFresh | static_file.go:176-179 | an entry that is accepted for a request is the fresh encoding of the file |
| StaticCache.ServedAs | context/accept_encoder.go:198-219 | for gzip and `*`, for deflate and for anything else: the label, whether it counts as compressed, and the data |
| StaticCache.EntryServesIff | static_file.go:206-213 | an entry serves a request if and only if it fits the limit and time and size are those it was made for |
| StaticCache.RepeatIsServed | static_file.go:160-205 | what one request reads answers the next one for the same version at its first look, unless it is too large |
| StaticCache.AnswersAreFresh | static_file.go:160-205 | however requests interleave between their two looks, whatever versions of the files they ask for and whatever is evicted, every answer is the fresh encoding or a failure to read, and the cache stays coherent and bounded |
| StaticCache.FileCache.OpenFile | static_file.go:160-205 | with any coherent cache left by others between the locks: answers fresh, fails only on unreadable files, and leaves a fitting entry in the cache |

## Left out

- Regexp.NewRouteRegexp: patterns given by the user in a template (`{name:pattern}`) are reported as such and not compiled; regular expressions are modelled for the shapes the default patterns produce.
- RouteGraph.NoRouterContainsItself: a list of routes that a router holds is a sequence here, as it is never copied.
- Router.Route.Match: `strictSlash` and `useEncodedPath`, which no code turns on, method matchers, which no code adds, and the `Handler` and `MatchErr` fields are left out.
- RouteGraph.CallsAreIsolated: speaks of the contents of configurations; that slices hold them is what `Router` and `RouterRuns` add.
- ConfCopy.AddMatcher: how much room a grown array gets is one choice of many; expressions are values, as no code changes one after it is compiled.
- TemplateResult.NeitherTemplateNorError: files that lack several names, or whose siblings refer to each other's broken files, are not classified; they too end as `SearchSubs` computes.
- TemplateSearch.SearchMeaning: needs the define pattern to agree with the parser, and siblings below the root; a file system whose failed `Open` yields a nil interface, which would panic where the default one is skipped over, is left out.
- Templates.IncludeMeaning: `../` resolution is an arbitrary function; failing to read an open file is left out, and a missing file stops the load as the panic does.
- Caching built templates in `buildTemplate` under its lock, and other template engines.
- TemplateFiles.TableMeaning: file names are plain, so that joining and cleaning paths only adds a slash.
- Session.RoundTrip: cryptographic strength, the timing of the comparison and failing random bytes are left out.
- Flash.Controller.ReadFlashData: cookie attributes and header parsing are left out.
- AsyncLog.FlushIsABarrier: at most one Flush at a time, no `Reset` and no "close" signal; while messages keep coming a Flush may drain forever, as in the code.
- LogRotation.FileLogWriter.DailyRotate: hourly rotation, which is the same with hours for days.
- LogRotation.RunConserves: a write that fails writes nothing; `Lstat` fails only for missing files; deletion of old logs, permissions, changing dates and the starting of timers are left out.
- Restart.ListenersAreInherited: flags are written with `=` and no other argument ends the reading of flags; a child registers the addresses of its parent; addresses are distinct, not empty and free of commas; TLS listeners, on which the code's type assertion fails, are left out.
- Shutdown.AfterAnyRun: the library's server fails only while its listener is open, accepts no request afterwards, and waits for requests or a timeout; `SIGINT` and `SIGTERM` do the same.
- StaticCache.AnswersAreFresh: path, time and size determine a file's content, and the file is not replaced between being examined and being read; the unsynchronised first creation of the cache and which entry is evicted are left out.
- Negotiation of the accepted encoding, which compares floating-point weights.
- HTTP serving, request parsing, redirects, error pages, configuration, controller dispatch and form binding by reflection.
