/**
 The build manifest as the viewer sees it once the script has been evaluated:
 a mapping from top-level key to JavaScript value. Routes are the keys whose
 value is an array, other than the two reserved keys and the internal `__` keys.
 */
module Manifests {
  import opened JsStrings
  import opened Sequences
  import opened CodeUnitOrder

  /** The JavaScript values the viewer distinguishes: strings, arrays, and the rest. */
  datatype JsVal = Str(s: string) | Arr(items: seq<JsVal>) | Other

  /** The object `self.__BUILD_MANIFEST` evaluated to, keyed by its own property names. */
  type Manifest = map<string, JsVal>

  /** The aggregate list of every page. */
  const SortedPagesKey: string := "sortedPages"
  /** The internal rewrites table. */
  const RewritesKey: string := "__rewrites"
  /** Prefix marking internal keys. */
  const InternalPrefix: string := "__"

  /** The filter `extractRoutes` applies to one key and its value. */
  predicate IsRouteEntry(key: string, value: JsVal) {
    && value.Arr?
    && key != SortedPagesKey
    && key != RewritesKey
    && !StartsWith(key, InternalPrefix)
  }

  /** `extractRoutes`: the route keys of `m`, once each, in ascending code-unit order. */
  function ExtractRoutes(m: Manifest): (routes: seq<string>)
    ensures StrictlySorted(routes)
    ensures forall k :: k in routes <==>
      (k in m && m[k].Arr? && k != SortedPagesKey && k != RewritesKey && !StartsWith(k, InternalPrefix))
    ensures NoDuplicates(routes)
    ensures m == map[] ==> routes == []
  {
    var keys := set k | k in m && IsRouteEntry(k, m[k]);
    assert m == map[] ==> keys == {};
    var routes := SortSet(keys);
    StrictlySortedProperties(routes);
    routes
  }

  /** `keys` is what `Object.keys(m)` may return: every own key, once. */
  ghost predicate EnumeratesKeys(keys: seq<string>, m: Manifest) {
    NoDuplicates(keys) && forall k :: k in keys <==> k in m
  }

  /** The callback `extractRoutes` passes to `filter`. */
  function RouteKeyTest(m: Manifest): string -> bool {
    (k: string) => k in m && IsRouteEntry(k, m[k])
  }

  /** The route pipeline literally: filter the enumerated keys, then sort them. */
  function ExtractRoutesFrom(m: Manifest, keys: seq<string>): seq<string> {
    Sort(Filter(keys, RouteKeyTest(m)))
  }

  /** Filtering an enumeration of the keys keeps each route key exactly once. */
  lemma {:induction false} KeptKeysAreRoutes(m: Manifest, keys: seq<string>)
    requires EnumeratesKeys(keys, m)
    ensures multiset(Filter(keys, RouteKeyTest(m))) == multiset(ExtractRoutes(m))
  {
    var kept := Filter(keys, RouteKeyTest(m));
    var canonical := ExtractRoutes(m);
    FilterNoDuplicates(keys, RouteKeyTest(m));
    NoDuplicatesCount(kept);
    NoDuplicatesCount(canonical);
    forall x ensures multiset(canonical)[x] == multiset(kept)[x] {
      assert x in canonical <==> x in kept;
    }
    assert multiset(canonical) == multiset(kept);
  }

  /** Whatever order the engine enumerates the keys in, the sorted route list
      is the same: it depends on the contents of the manifest only. */
  lemma {:induction false} RoutesIgnoreKeyOrder(m: Manifest, keys: seq<string>)
    requires EnumeratesKeys(keys, m)
    ensures ExtractRoutesFrom(m, keys) == ExtractRoutes(m)
  {
    var canonical := ExtractRoutes(m);
    KeptKeysAreRoutes(m, keys);
    StrictlySortedProperties(canonical);
    SortedUnique(ExtractRoutesFrom(m, keys), canonical);
  }

  /** Route extraction on the literal example manifest
      `{sortedPages: ['/'], '/a': ['/a.js', '/a.css'], '/b': ['/b.js']}`. */
  lemma ExampleRoutes()
    ensures ExtractRoutes(map[
      "sortedPages" := Arr([Str("/")]),
      "/a" := Arr([Str("/a.js"), Str("/a.css")]),
      "/b" := Arr([Str("/b.js")])]) == ["/a", "/b"]
  {
    var m := map[
      "sortedPages" := Arr([Str("/")]),
      "/a" := Arr([Str("/a.js"), Str("/a.css")]),
      "/b" := Arr([Str("/b.js")])];
    assert Less("/a", "/b");
    assert !StartsWith("/a", "__") && !StartsWith("/b", "__");
    StrictlySortedUnique(ExtractRoutes(m), ["/a", "/b"]);
  }

  /** `file` is a string element, ending in `ext`, of the array under `key`. */
  ghost predicate ListedUnder(m: Manifest, key: string, ext: string, file: string)
    requires key in m
  {
    m[key].Arr? && Str(file) in m[key].items && EndsWith(file, ext)
  }

  /** `file` is a string ending in `ext` in the array under some key of `m`,
      reserved and internal keys included. */
  ghost predicate ListsFile(m: Manifest, ext: string, file: string) {
    exists key :: key in m && ListedUnder(m, key, ext, file)
  }
}
