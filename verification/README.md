# Build manifest parser — a Dafny model of its data extraction

The tool takes the text of a Next.js `_buildManifest.js` script. It has that
script evaluated in a worker into the object `self.__BUILD_MANIFEST`. From
that object it lists the routes, and for each route the files it loads. It
also offers "copy" actions over those lists.

This project models the deterministic part between "the worker replied" and
"a list is shown or copied":

- `extractRoutes` (module `Manifests`): which manifest keys are routes, and in what order.
- the route filter, `handleParse`, `handleClear`, "Copy All Routes" and
  "Copy All JS/CSS Files" (module `App`);
- the per-route `.js`/`.css` views and the copy guard of a route card (module `RouteCard`);
- the shape of the worker's reply, which the page receives as an input (module `Worker`).

Supporting modules:

- `JsStrings` models `trim`, `toLowerCase`, `toUpperCase`, `startsWith`,
  `endsWith`, `includes`, `join("\n")` and `split("\n")`.
- `CodeUnitOrder` models the string order used by the default
  `Array.prototype.sort`, and the sorts themselves.
- `Sequences` models `Array.prototype.filter`.

The evaluated manifest is a `map<string, JsVal>` with
`JsVal = Str | Arr | Other`. Clipboard writes and notifications are returned
as an `Effect` value. They are not performed.

## Model

| member | source | states |
|---|---|---|
| Manifests.ExtractRoutes | src/App.tsx:51-56 | The result is strictly ascending, so it has no duplicates. A string is in it exactly when it is a manifest key whose value is an array, that is neither `sortedPages` nor `__rewrites`, and that does not start with `__`. An empty manifest has no routes. |
| Manifests.RoutesIgnoreKeyOrder | src/App.tsx:53-55 | Take any duplicate-free enumeration of the manifest's keys, as `Object.keys` may return them. Filtering it and then sorting it gives exactly `ExtractRoutes(m)`. So the route list depends only on the manifest's contents, not on key insertion order. |
| Manifests.ExampleRoutes | src/App.tsx:51-56 | For `{sortedPages: ['/'], '/a': [...], '/b': [...]}`, the routes are `['/a', '/b']`. The reserved key is excluded and the result is sorted. |
| App.FilteredRoutes | src/App.tsx:75-79 | A blank filter (empty, or only trimmable characters) returns the route list unchanged. Any other filter returns an order-preserving subsequence. A route is in it exactly when its lower-cased form contains the trimmed, lower-cased query. Every occurrence of a matching route is kept. |
| App.FilteredRoutesStaySorted | src/App.tsx:75-79 | Filtering a strictly sorted route list leaves it strictly sorted. |
| App.HandleParse | src/App.tsx:81-119 | Pasted text, URL and filter are unchanged. The route list afterwards is always the one derived from the manifest afterwards, and an empty route list means an empty manifest. Empty or blank input gives the "Input is empty" error. A missing worker gives the "worker not initialized" error. A worker error gives "Failed to parse manifest: " followed by its message, or by `undefined` when the reply carries none. A manifest without routes gives "No routes found". Otherwise the worker's manifest and its routes replace the old ones wholesale. A request the worker never answers leaves the page cleared with no notification. Apart from that case, an error notification is raised exactly when the route list ends up empty. A non-empty route list is always the worker's reply to the trimmed input. |
| App.HandleClear | src/App.tsx:142-148 | From any state, the result is the page's initial state (src/App.tsx:59-64): empty text, URL and filter, no manifest and no routes. |
| App.CopyAllRoutes | src/App.tsx:150-154 | Text is copied exactly when there are routes. With no routes there is no effect at all. The copied text is the routes joined with line feeds, in their stored order, and the "All Routes Copied!" notification follows. When no route contains a line feed, splitting the text at line feeds gives back the stored route list. |
| App.CopyAllFilesWithExt | src/App.tsx:156-174 | An empty manifest does nothing. Otherwise the file list is strictly sorted. It holds exactly the strings ending in `ext` found in any array of the manifest, reserved and internal keys included. It is copied joined with line feeds under the success notice. When the list is empty, the "No … files found to copy." error is raised instead. |
| App.CollectFromArray | src/App.tsx:160-165 | Scanning one array adds exactly its string elements that end in `ext` to the set collected so far. Nothing else is added and nothing is removed. |
| App.ShownRoutesHaveFiles | src/App.tsx:242-248 | Take a consistent state. Every route the filter shows is a manifest key whose value is an array, so each card receives a real file list. |
| App.RoutesNeverStale | src/App.tsx:59-148 | Take any consistent state; the initial page is one. After any sequence of edits, parses and clears, the route list is the one derived from the current manifest. |
| RouteCard.JsFiles | src/components/RouteCard.tsx:14 | The result is an order-preserving subsequence of the file list. Each entry ends in `.js`. Every `.js` entry appears as often as in the list, so duplicates are kept. |
| RouteCard.CssFiles | src/components/RouteCard.tsx:15 | The same for `.css`. |
| RouteCard.SuffixesExclusive | src/components/RouteCard.tsx:14-15 | No string ends in both `.js` and `.css`. |
| RouteCard.JsCssPartition | src/components/RouteCard.tsx:14-15 | The `.js` and `.css` views share no entry. Their lengths add up to at most the list's length. |
| RouteCard.Copy | src/components/RouteCard.tsx:10-12 | `onCopy` is called exactly when the list is non-empty. Its argument is the list joined with line feeds. When no entry contains a line feed, that argument splits back into the list. |
| RouteCard.CopyAllKeepsList | src/components/RouteCard.tsx:27 | For any file list, "Copy All" acts exactly when the list is non-empty. It then hands over the whole list joined with line feeds, in its original order. When no file name contains a line feed, that text splits back into the list. |
| RouteCard.CopyJsKeepsView | src/components/RouteCard.tsx:31 | For any file list, "Copy JS" does something exactly when some file ends in `.js`. It then hands over the `.js` view joined with line feeds. When no file name contains a line feed, that text splits back into exactly the `.js` view. |
| JsStrings.Trim | src/App.tsx:76 | The result is the input with only JavaScript whitespace and line terminators removed, at both ends. It neither begins nor ends with one. It is empty exactly when the input is blank. |
| JsStrings.TrimIdempotent | src/App.tsx:76 | Trimming twice gives the same result as trimming once. |
| JsStrings.ToLower | src/App.tsx:76-78 | The result has the input's length. Each character is the input's character at that index with `A`–`Z` mapped to `a`–`z`, and every other character kept. |
| JsStrings.ToUpper | src/App.tsx:170-172 | The result has the input's length. Each character is the input's character at that index with `a`–`z` mapped to `A`–`Z`, and every other character kept. |
| JsStrings.IncludesIffOccurs | src/App.tsx:78 | `includes(q)` holds exactly when `q` occurs at some index of the string. |
| JsStrings.JoinSplit | src/components/RouteCard.tsx:11 | Splitting any text at line feeds and joining the pieces with line feeds gives back the text. |
| JsStrings.SplitJoin | src/App.tsx:152 | Joining a non-empty list of single-line items with line feeds, then splitting the result, gives back the list. |
| CodeUnitOrder.StrictTotalOrder | src/App.tsx:55 | The order the default sort uses on strings is irreflexive, transitive and total. It compares characters (Unicode code points) lexicographically, with a proper prefix first. |
| CodeUnitOrder.LeastExists | src/App.tsx:167 | Every non-empty finite set of strings has a first element in that order. |
| CodeUnitOrder.SortSet | src/App.tsx:167 | A set of strings is listed once each, in strictly ascending order, with nothing added or lost. |
| CodeUnitOrder.Sort | src/App.tsx:55 | The default `sort()` on strings returns a sorted permutation of its input. |
| CodeUnitOrder.Insert | src/App.tsx:55 | Inserting into a sorted list keeps it sorted and adds exactly one occurrence. |
| CodeUnitOrder.SortedUnique | src/App.tsx:55 | Two sorted permutations of the same strings are identical. So the sort's result does not depend on the input order. |
| CodeUnitOrder.StrictlySortedUnique | src/App.tsx:167 | Two strictly sorted lists that hold the same strings are identical. |
| Sequences.Filter | src/App.tsx:78 | `filter(p)` returns an order-preserving subsequence. It holds exactly the elements satisfying `p`, with every occurrence kept. |
| Sequences.FilterNoDuplicates | src/App.tsx:53-54 | Filtering a duplicate-free key list leaves it duplicate-free. |
| Sequences.SubsequenceKeepsOrder | src/App.tsx:78 | A subsequence keeps every pairwise order of the sequence it is taken from. |

## Left out

- The worker (src/workers/manifestWorker.ts:16-37) is not modelled. Its `new Function` call with a shadowed `self` runs arbitrary JavaScript, so the reply it posts for each request, or the lack of one, is an input to `App.HandleParse`. The reply shapes the worker can produce are all admitted as inputs:
  - a thrown `Error` gives an error reply with its message;
  - a result that is not a non-null object gives an error reply with "Manifest did not evaluate to an object.";
  - an object holding a function or symbol makes `postMessage` throw a clone error inside the `try`, which gives an error reply with the browser's message;
  - a thrown value that is not an `Error`, such as a string, gives an error reply whose `error` is `undefined`;
  - a thrown `null` or `undefined` makes the error handler itself throw, so no reply is posted at all.
- An array returned as the manifest passes the worker's object check, because arrays are objects in JavaScript. The model treats every accepted result as a key-to-value map.
- Worker creation, message passing and the promise wrapping them (src/App.tsx:46-49, 69-73, 96-103) are not modelled. `HandleParse` runs the reset and the reply handling as one step. Overlapping parses are not modelled. Each parse adds its own listener to the one shared worker, and the first reply posted reaches every listener then registered. So overlapping parses all resolve with the reply to the earliest request, and each applies it. A later reply that finds no listener is dropped, or is taken by a parse that starts while its request is still being evaluated.
- App.HandleParse: a request the worker never answers is modelled as the page staying cleared with no notification. The promise that stays pending, and the listener that stays registered, are not modelled.
- `handleFetch` (src/App.tsx:121-140) is not modelled: it is network I/O. With it go the `isFetching` flag and the fetched text that is written into the paste area.
- Clipboard access and its text-area fallback (src/App.tsx:28-44) are not modelled: they are browser APIs. A clipboard write is an `Effect`.
- The toast timer (src/App.tsx:10-26) is not modelled: it is a timer. A notification is an `Effect`.
- JSX rendering and `tailwind.config.js` are not modelled. The three input handlers are kept as `App.Action` edits.
- JsStrings.ToLower: case folding is ASCII only. `toLowerCase` maps every Unicode letter, but the model folds only `A`–`Z`.
- JsStrings.ToUpper: likewise ASCII only; `toUpperCase` maps every Unicode letter, and can lengthen a string (`ß` becomes `SS`).
- App.FilteredRoutes: its case folding is `JsStrings.ToLower`, so it is ASCII only.
- App.CopyAllFilesWithExt: the notification text upper-cases `ext` ASCII only, for the same reason.
- CodeUnitOrder.StrictTotalOrder: one Dafny `char` is one Unicode code point, and the model compares code points. For characters outside the Basic Multilingual Plane, JavaScript compares their UTF-16 surrogate code units, and so can order them differently from the model.
- RouteCard.JsFiles: a card's file list is typed `string[]`, but the manifest array may hold non-strings. On those, `endsWith` throws while rendering. The model's card takes only strings.
- App.CopyAllFilesWithExt: the source builds a JavaScript `Set`, which keeps insertion order, and sorts `Array.from` of it. The model collects into a Dafny set and sorts that. Sorting makes the insertion order irrelevant.
- The `!manifest` test in `copyAllFilesWithExt` is not modelled: the manifest state is never null.

## Notes on the source

- A failed evaluation is shown as "Failed to parse manifest: " followed by the worker's message (src/App.tsx:106).
- Routes and file lists are sorted by the default `sort()`, which compares UTF-16 code units, not code points (src/App.tsx:55, 167).
- The `__rewrites` exclusion is redundant in the code, since that key also starts with `__`. The model keeps both tests as written.
