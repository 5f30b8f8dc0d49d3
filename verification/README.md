# glancr SPA fallback handler, in Dafny

glancr's server serves a single-page application's built assets. One HTTP handler
receives every request. It serves the request `"/"` directly. For any other request
path it cleans the path lexically, trims the leading `/` and opens the resulting
name in the asset store. If the store says the name does not exist, it rewrites the
request path to `"/"`, so the file server answers with the entry document instead of
a 404. Otherwise it passes the request on unchanged. A handle from a successful open
is closed, by a deferred call, after the file server returns.

The project has four modules:

- `PathElements` (`path_elements.dfy`): a path as the list of its `/`-separated
  elements. It holds `Split`, `Join` and their round trips.
- `LexicalPath` (`lexical_path.dfy`): lexical cleaning in the style of Go's
  `path.Clean`, following the Plan 9 rules:
  - repeated `/` collapse;
  - `.` elements go;
  - `..` removes the name before it;
  - `..` at the start of a rooted path goes;
  - an empty result is `/` for a rooted path and `.` otherwise.

  Cleaning is a left fold of the elements onto a stack of surviving names, and the
  stack is then written back out.
- `SpaHandler` (`spa_handler.dfy`): the lookup name `Key`, the decision `Decide`,
  and one invocation `Handle` as a trace of effects (`Lookup`, `Serve`, `Close`).
- `Scenarios` (`scenarios.dfy`): concrete requests against small asset stores.

The asset store's `Open` is a function parameter with three outcomes:
`Opened(File | Directory)`, `NotExist` or `OtherErr`. The model does not fix what a
particular store returns for a particular name, including the empty name.

Behaviour the model follows from the code:

- Only a not-exist error triggers the fallback. Any other open error, such as
  permission denied or an invalid name, passes the request through unchanged.
- A name that opens as a directory counts as found, and the request passes through.
- A request path other than `"/"` that cleans to `"/"` (`"//"`, `"/."`, `"/.."`)
  is not treated as the root. It looks up the empty name, and the store's answer
  decides what happens.
- The handle is closed after the file server has served the request, not before.

## Model

| member | source | states |
|---|---|---|
| LexicalPath.Clean | cmd/server/main.go:20 | The cleaned path is never empty and is rooted exactly when the input is. It is clean: either `/` or `.`, or a list of names with single separators, no `.` element and no `..` anywhere except as a leading run of an unrooted path. |
| LexicalPath.CleanIdempotent | cmd/server/main.go:20 | Cleaning a cleaned path changes nothing. |
| LexicalPath.CleanFixedPoints | cmd/server/main.go:20 | A path is left unchanged by cleaning if and only if it is clean. |
| LexicalPath.CleanFixpoint | cmd/server/main.go:20 | Every clean path is its own cleaned form. |
| LexicalPath.RootedCleanHasNoParent | cmd/server/main.go:20 | A rooted path cleans to `/` or to `/` followed by names, none of which is `..`. |
| LexicalPath.CleanCollapsesDoubleSlash | cmd/server/main.go:20 | For any `a` and `b`, `a//b` cleans the same as `a/b`. |
| LexicalPath.CleanDropsDot | cmd/server/main.go:20 | For any `a` and `b`, `a/./b` cleans the same as `a/b`. |
| LexicalPath.CleanCancelsNameAndParent | cmd/server/main.go:20 | For any `a` and `b` and any name `n` other than `..`, `a/n/../b` cleans the same as `a/b`. |
| LexicalPath.CleanRootParent | cmd/server/main.go:20 | `/../b` cleans the same as `/b`, so `..` cannot climb above the root. |
| LexicalPath.CleanDropsLeadingDot | cmd/server/main.go:20 | For any unrooted `b`, `./b` cleans the same as `b`. |
| LexicalPath.CleanCancelsLeadingNameAndParent | cmd/server/main.go:20 | For any unrooted `b` and any name `n` other than `..`, `n/../b` cleans the same as `b`. |
| LexicalPath.CleanDropsTrailingDotAndSlash | cmd/server/main.go:20 | For any non-empty `a`, both `a/.` and `a/` clean the same as `a`. |
| LexicalPath.FoldCanonical | cmd/server/main.go:20 | Applying path elements to a canonical stack of names keeps it canonical. |
| PathElements.JoinSplit | cmd/server/main.go:20 | Joining the elements of a path with `/` gives the path back. |
| PathElements.SplitJoin | cmd/server/main.go:20 | Splitting a join of separator-free elements gives the elements back. |
| SpaHandler.Key | cmd/server/main.go:20 | The lookup name never starts with `/`. For a rooted request, `/` plus the name is the cleaned path. The name is empty exactly when the path cleans to `/`. Otherwise every element of the name is a real name and none is `..`. For an unrooted request, the name is the cleaned path itself. |
| SpaHandler.KeyOfCleanPath | cmd/server/main.go:20 | A request path and its cleaned form look up the same name. |
| SpaHandler.LookupStaysUnderRoot | cmd/server/main.go:20 | For a rooted request, every name the handler looks up is relative and has no `..` element, so it cannot name anything above the asset root. |
| SpaHandler.Decide | cmd/server/main.go:16-27 | The path handed to the file server is either the original path or `/`. It differs from the original exactly when the original is not `/` and the lookup reports not-exist. |
| SpaHandler.Handle | cmd/server/main.go:15-28 | Each invocation hands exactly one request to the file server: the original with only its path replaced by the decided path. It looks up nothing for `/` and looks up the key once otherwise. The lookup comes before serving, and only closes follow the file-server call. It closes exactly the handles whose open succeeded, once each, and a failed open is never closed. Every close comes after the open and after serving. |
| SpaHandler.RootFastPath | cmd/server/main.go:16-19 | The request `/` is served unchanged, and nothing is looked up. |
| SpaHandler.RootIndependentOfStore | cmd/server/main.go:16-19 | The request `/` is handled identically whatever the asset store holds. |
| SpaHandler.NotExistFallsBack | cmd/server/main.go:24-25 | A request other than `/` whose name does not exist is rewritten to `/`. |
| SpaHandler.FoundPassesThrough | cmd/server/main.go:20-27 | A name that opens, as a file or as a directory, leaves the request path unchanged. |
| SpaHandler.OtherErrorPassesThrough | cmd/server/main.go:24-27 | An open error other than not-exist leaves the request path unchanged. |
| SpaHandler.DecideTerminal | cmd/server/main.go:16-25 | Deciding again on the decided path changes nothing, so the fallback cannot loop. |
| SpaHandler.DecideDependsOnlyOnLookup | cmd/server/main.go:20-26 | Two asset stores that give the same outcome for the looked-up name lead to the same decision. |
| Scenarios.CleanCollapsesSeparators | cmd/server/main.go:20 | `//assets//logo.png` cleans to `/assets/logo.png`. |
| Scenarios.CleanDropsDotAndTrailingSlash | cmd/server/main.go:20 | `/a/./b/` cleans to `/a/b`. |
| Scenarios.CleanParentOfRootIsRoot | cmd/server/main.go:20 | `/..` cleans to `/`. |
| Scenarios.CleanEmptyIsDot | cmd/server/main.go:20 | The empty path cleans to `.`. |
| Scenarios.CleanStopsAtRoot | cmd/server/main.go:20 | `/a/../../b` cleans to `/b`. |
| Scenarios.CleanKeepsLeadingParentWhenUnrooted | cmd/server/main.go:20 | `a/../../b` cleans to `../b`. |
| Scenarios.ExistingAssetIsServed | cmd/server/main.go:20-27 | With `index.html` and `app.js` in the store, `/app.js` looks up `app.js` and is served as requested. |
| Scenarios.ClientRouteFallsBack | cmd/server/main.go:20-25 | In the same store, `/dashboard/settings` falls back to `/`. |
| Scenarios.ClientRouteKey | cmd/server/main.go:20 | `/dashboard/settings` looks up `dashboard/settings`. |
| Scenarios.TraversalKey | cmd/server/main.go:20 | `/../secret.txt` looks up `secret.txt`. |
| Scenarios.TraversalIsNeutralized | cmd/server/main.go:20-25 | In the same store, `/../secret.txt` falls back to `/`. |
| Scenarios.DoubledSeparatorsFindAsset | cmd/server/main.go:20-27 | `//assets//logo.png` looks up `assets/logo.png`. When that asset exists, the request goes on unchanged. |
| Scenarios.EmptyStoreRoot | cmd/server/main.go:16-19 | In an empty store, `/` is still handed to the file server unchanged, and nothing is looked up. |

## Left out

- The file server (`http.FileServer` over `http.FS`) is an opaque "serve this request" sink. Its content types, conditional requests, ranges, directory listings, redirects and status codes are library code and are not modelled. So the model does not say what the client receives for `/`: a 404, a directory listing or the entry document.
- The redirect that Go's default request router applies to non-clean paths before the handler runs is not modelled. The scenarios with `..` or doubled separators describe the handler on its own.
- The asset providers are not modelled: internal/fs/fs_prod.go, internal/fs/fs_dev.go, cmd/server/fs_prod.go, cmd/server/fs_dev.go and ui/embed.go. They only select an embedded or on-disk file system and panic if it cannot be mounted. Their `Open` is the function parameter.
- `main` (cmd/server/main.go:31-36) is not modelled. It does logging, registers the route and binds port 8080.
- ui/src/workers/monaco.workers.ts is browser-side editor setup and has no server logic.
- Concurrent dispatch of requests is not modelled. The handler keeps no state between requests, so each invocation is modelled on its own.
- LexicalPath.Clean: modelled from the documented Plan 9 rules at the level of path elements. It is not proved equivalent to the character-by-character loop inside Go's `path.Clean`, which is not part of this model.
- The request's `RawPath` is not modelled. The rewrite to `/` sets only the decoded path, which is what the file server reads.
- The error returned by `Open` is reduced to not-exist versus any other error. The way `os.IsNotExist` unwraps errors is not modelled.
