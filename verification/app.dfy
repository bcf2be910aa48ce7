/**
 The viewer's page state and the actions that change it or copy from it:
 parsing, clearing, the route filter, "Copy All Routes" and "Copy All JS/CSS
 Files". Clipboard writes and notifications are returned as an `Effect`
 instead of being performed.
 */
module App {
  import opened Wrappers
  import opened JsStrings
  import opened Sequences
  import opened CodeUnitOrder
  import opened Manifests
  import opened Worker

  datatype ToastKind = Success | Error

  /** A transient notification. */
  datatype Toast = Toast(kind: ToastKind, message: string)

  /** What an action asks of the outside world: text for the clipboard, a notification. */
  datatype Effect = Effect(clipboard: Option<string>, toast: Option<Toast>)

  const NoEffect: Effect := Effect(None, None)

  function ErrorToast(message: string): Effect {
    Effect(None, Some(Toast(Error, message)))
  }

  const EmptyInputMessage: string := "Input is empty. Please paste the manifest content."
  const WorkerMissingMessage: string := "Internal error: worker not initialized."
  const ParseFailedPrefix: string := "Failed to parse manifest: "
  const NoRoutesMessage: string := "No routes found in the manifest."
  const RoutesCopiedMessage: string := "All Routes Copied!"

  /** The page's state: the two inputs, the filter text, the parsed manifest and its routes. */
  datatype State = State(
    rawContent: string,
    url: string,
    filter: string,
    manifest: Manifest,
    routes: seq<string>)

  /** The state the page starts in. */
  const Initial: State := State("", "", "", map[], [])

  /** The route list is the one derived from the manifest on display. */
  predicate Consistent(s: State) {
    s.routes == ExtractRoutes(s.manifest)
  }

  /** The query a filter text stands for: trimmed, then lower-cased. */
  function Query(filter: string): string {
    ToLower(Trim(filter))
  }

  /** The route contains the query, ignoring case. */
  ghost predicate MatchesQuery(route: string, q: string) {
    exists i :: OccursAt(ToLower(route), q, i)
  }

  /** `filteredRoutes`: the routes shown for a filter text. A blank filter shows
      every route; otherwise the routes containing the query, in the same order. */
  function FilteredRoutes(routes: seq<string>, filter: string): (shown: seq<string>)
    ensures forall r :: r in shown ==> r in routes
    ensures IsBlank(filter) ==> shown == routes
    ensures !IsBlank(filter) ==> IsSubsequence(shown, routes)
    ensures !IsBlank(filter) ==>
      forall r :: r in shown <==> r in routes && MatchesQuery(r, Query(filter))
    ensures !IsBlank(filter) ==>
      forall r :: MatchesQuery(r, Query(filter)) ==> multiset(shown)[r] == multiset(routes)[r]
  {
    var q := Query(filter);
    if q == [] then routes
    else
      var p := (r: string) => Includes(ToLower(r), q);
      var shown := Filter(routes, p);
      assert forall r :: p(r) <==> MatchesQuery(r, q) by {
        forall r ensures p(r) <==> MatchesQuery(r, q) {
          IncludesIffOccurs(ToLower(r), q);
        }
      }
      shown
  }

  /** Filtering keeps the displayed routes in ascending order. */
  lemma FilteredRoutesStaySorted(routes: seq<string>, filter: string)
    requires StrictlySorted(routes)
    ensures StrictlySorted(FilteredRoutes(routes, filter))
  {
    if !IsBlank(filter) {
      SubsequenceKeepsOrder(FilteredRoutes(routes, filter), routes, (a, b) => Less(a, b));
    }
  }

  /** The text `handleParse` works on: the override if given, else the pasted text. */
  function ParseInput(s: State, contentOverride: Option<string>): string {
    match contentOverride
    case Some(c) => c
    case None => s.rawContent
  }

  /** The request `handleParse` sends the worker: the trimmed input. */
  function Request(s: State, contentOverride: Option<string>): string {
    Trim(ParseInput(s, contentOverride))
  }

  /** How the template literal of the parse error renders the reply's `error` field. */
  function ErrorText(error: Option<string>): string {
    match error
    case Some(message) => message
    case None => "undefined"
  }

  /** A request was sent and the worker never answers it. */
  predicate Unanswered(s: State, contentOverride: Option<string>, worker: Option<Replies>) {
    && !IsBlank(ParseInput(s, contentOverride))
    && worker.Some?
    && worker.value(Request(s, contentOverride)).None?
  }

  /** One step of the page. */
  datatype Step = Step(state: State, effect: Effect)

  /** `handleParse`, from the click to the worker's reply. `worker` is the
      evaluation worker (absent if not started). Every parse first drops the
      manifest on display; only a reply with at least one route puts a new one
      in its place. A request that is never answered leaves the page cleared. */
  function HandleParse(s: State, contentOverride: Option<string>, worker: Option<Replies>): (r: Step)
    ensures r.state.rawContent == s.rawContent && r.state.url == s.url && r.state.filter == s.filter
    ensures Consistent(r.state)
    ensures r.effect.clipboard == None
    ensures r.effect.toast == None <==> r.state.routes != [] || Unanswered(s, contentOverride, worker)
    ensures r.effect.toast != None ==> r.effect.toast.value.kind == Error
    ensures r.state.routes == [] ==> r.state.manifest == map[]
    ensures r.state.routes != [] ==>
      worker.Some? && worker.value(Request(s, contentOverride)) == Some(WorkerOk(r.state.manifest))
    ensures IsBlank(ParseInput(s, contentOverride)) ==> r.effect == ErrorToast(EmptyInputMessage)
    ensures !IsBlank(ParseInput(s, contentOverride)) && worker.None? ==>
      r.effect == ErrorToast(WorkerMissingMessage)
    ensures !IsBlank(ParseInput(s, contentOverride)) && worker.Some? ==>
      match worker.value(Request(s, contentOverride))
      case None => r.effect == NoEffect && r.state.routes == []
      case Some(WorkerErr(e)) => r.effect == ErrorToast(ParseFailedPrefix + ErrorText(e))
      case Some(WorkerOk(data)) =>
        if ExtractRoutes(data) == [] then r.effect == ErrorToast(NoRoutesMessage)
        else r.state.manifest == data && r.state.routes == ExtractRoutes(data)
  {
    var content := Request(s, contentOverride);
    var cleared := s.(manifest := map[], routes := []);
    if content == [] then Step(cleared, ErrorToast(EmptyInputMessage))
    else if worker.None? then Step(cleared, ErrorToast(WorkerMissingMessage))
    else
      match worker.value(content)
      case None => Step(cleared, NoEffect)
      case Some(WorkerErr(e)) => Step(cleared, ErrorToast(ParseFailedPrefix + ErrorText(e)))
      case Some(WorkerOk(data)) =>
        var pageRoutes := ExtractRoutes(data);
        if |pageRoutes| == 0 then Step(cleared, ErrorToast(NoRoutesMessage))
        else Step(s.(manifest := data, routes := pageRoutes), NoEffect)
  }

  /** `handleClear`: whatever was on the page, it is back in its initial state. */
  function HandleClear(s: State): (r: State)
    ensures r == Initial
    ensures Consistent(r)
  {
    s.(rawContent := "", url := "", manifest := map[], routes := [], filter := "")
  }

  /** `copyAllRoutes`: nothing when there are no routes, otherwise the routes,
      one per line, in the order they are stored. */
  function CopyAllRoutes(s: State): (e: Effect)
    ensures e.clipboard.Some? <==> |s.routes| > 0
    ensures e.clipboard.None? ==> e == NoEffect
    ensures e.clipboard.Some? ==> e.clipboard.value == JoinLines(s.routes)
    ensures e.clipboard.Some? ==> e.toast == Some(Toast(Success, RoutesCopiedMessage))
    ensures e.clipboard.Some? && SingleLines(s.routes) ==> SplitLines(e.clipboard.value) == s.routes
  {
    if |s.routes| == 0 then NoEffect
    else
      var text := JoinLines(s.routes);
      if SingleLines(s.routes) then SplitJoin(s.routes); Effect(Some(text), Some(Toast(Success, RoutesCopiedMessage)))
      else Effect(Some(text), Some(Toast(Success, RoutesCopiedMessage)))
  }

  /** `copyAllFilesWithExt`: across every array of the manifest, the strings
      ending in `ext`, once each and sorted, copied one per line. An empty
      manifest does nothing; finding no such file is reported as an error. */
  method CopyAllFilesWithExt(m: Manifest, ext: string) returns (files: seq<string>, e: Effect)
    ensures |m| == 0 ==> files == [] && e == NoEffect
    ensures StrictlySorted(files)
    ensures |m| > 0 ==> forall f :: f in files <==> ListsFile(m, ext, f)
    ensures |m| > 0 && files != [] ==>
      e == Effect(Some(JoinLines(files)), Some(Toast(Success, "All " + ToUpper(ext) + " files copied!")))
    ensures |m| > 0 && files == [] ==>
      e == ErrorToast("No " + ToUpper(ext) + " files found to copy.")
  {
    if |m| == 0 {
      return [], NoEffect;
    }
    var found: set<string> := {};
    var pending := m.Keys;
    ghost var done: set<string> := {};
    while pending != {}
      invariant pending <= m.Keys && done <= m.Keys
      invariant forall k :: k in m ==> (k in done <==> k !in pending)
      invariant forall f :: f in found <==> exists k :: k in done && ListedUnder(m, k, ext, f)
      decreases |pending|
    {
      var key :| key in pending;
      var value := m[key];
      ghost var before := found;
      if value.Arr? {
        found := CollectFromArray(value.items, ext, found);
      }
      forall f ensures f in found <==> exists k :: k in done + {key} && ListedUnder(m, k, ext, f) {
        if f in found && f !in before {
          assert ListedUnder(m, key, ext, f);
        }
      }
      pending := pending - {key};
      done := done + {key};
    }
    files := SortSet(found);
    if |files| > 0 {
      e := Effect(Some(JoinLines(files)), Some(Toast(Success, "All " + ToUpper(ext) + " files copied!")));
    } else {
      e := ErrorToast("No " + ToUpper(ext) + " files found to copy.");
    }
  }

  /** The inner loop of `copyAllFilesWithExt`: add the strings of one array that end in `ext`. */
  method CollectFromArray(items: seq<JsVal>, ext: string, found: set<string>) returns (found': set<string>)
    ensures forall f :: f in found' <==> f in found || (Str(f) in items && EndsWith(f, ext))
  {
    found' := found;
    var i := 0;
    while i < |items|
      invariant 0 <= i <= |items|
      invariant forall f :: f in found' <==> f in found || (Str(f) in items[..i] && EndsWith(f, ext))
    {
      var item := items[i];
      if item.Str? && EndsWith(item.s, ext) {
        found' := found' + {item.s};
      }
      assert items[..i + 1] == items[..i] + [item];
      i := i + 1;
    }
    assert items[..i] == items;
  }

  /** Every route card shown is backed by an array in the manifest on display. */
  lemma ShownRoutesHaveFiles(s: State)
    requires Consistent(s)
    ensures forall r :: r in FilteredRoutes(s.routes, s.filter) ==> r in s.manifest && s.manifest[r].Arr?
  {
    var shown := FilteredRoutes(s.routes, s.filter);
    assert forall r :: r in shown ==> r in ExtractRoutes(s.manifest);
  }

  /** What the user can do to the page. */
  datatype Action =
    | EditContent(text: string)   // typing in the paste area
    | EditUrl(text: string)       // typing in the URL field
    | EditFilter(text: string)    // typing in the filter field
    | Parse(worker: Option<Replies>)
    | Clear

  function Apply(s: State, a: Action): State {
    match a
    case EditContent(text) => s.(rawContent := text)
    case EditUrl(text) => s.(url := text)
    case EditFilter(text) => s.(filter := text)
    case Parse(worker) => HandleParse(s, None, worker).state
    case Clear => HandleClear(s)
  }

  function Run(s: State, actions: seq<Action>): State
    decreases |actions|
  {
    if actions == [] then s else Run(Apply(s, actions[0]), actions[1..])
  }

  lemma InitialConsistent()
    ensures Consistent(Initial)
  {
  }

  lemma ApplyKeepsConsistent(s: State, a: Action)
    requires Consistent(s)
    ensures Consistent(Apply(s, a))
  {
    match a
    case Parse(worker) =>
      assert Consistent(HandleParse(s, None, worker).state);
    case Clear =>
      assert Consistent(HandleClear(s));
    case _ =>
  }

  /** From any consistent page (the initial one is, by `InitialConsistent`),
      whatever the user does, the route list is never stale: it is always the
      one derived from the manifest on display. */
  lemma {:induction false} RoutesNeverStale(s: State, actions: seq<Action>)
    requires Consistent(s)
    ensures Consistent(Run(s, actions))
    decreases |actions|
  {
    if actions != [] {
      ApplyKeepsConsistent(s, actions[0]);
      RoutesNeverStale(Apply(s, actions[0]), actions[1..]);
    }
  }
}
