/**
 One route's card: its file list, the `.js` and `.css` views of it, and the
 three copy buttons, each of which hands a newline-joined list to `onCopy`
 unless the list is empty.
 */
module RouteCard {
  import opened Wrappers
  import opened JsStrings
  import opened Sequences

  const JsSuffix: string := ".js"
  const CssSuffix: string := ".css"

  /** `jsFiles`: the entries ending in `.js`, in their original order, duplicates kept. */
  function JsFiles(files: seq<string>): (js: seq<string>)
    ensures IsSubsequence(js, files)
    ensures forall i :: 0 <= i < |js| ==> EndsWith(js[i], JsSuffix)
    ensures forall f :: EndsWith(f, JsSuffix) ==> multiset(js)[f] == multiset(files)[f]
  {
    var p := (f: string) => EndsWith(f, JsSuffix);
    var r := Filter(files, p);
    assert forall i :: 0 <= i < |r| ==> p(r[i]);
    assert forall f :: EndsWith(f, JsSuffix) ==> p(f);
    r
  }

  /** `cssFiles`: the entries ending in `.css`, in their original order, duplicates kept. */
  function CssFiles(files: seq<string>): (css: seq<string>)
    ensures IsSubsequence(css, files)
    ensures forall i :: 0 <= i < |css| ==> EndsWith(css[i], CssSuffix)
    ensures forall f :: EndsWith(f, CssSuffix) ==> multiset(css)[f] == multiset(files)[f]
  {
    var p := (f: string) => EndsWith(f, CssSuffix);
    var r := Filter(files, p);
    assert forall i :: 0 <= i < |r| ==> p(r[i]);
    assert forall f :: EndsWith(f, CssSuffix) ==> p(f);
    r
  }

  /** No file name ends in both `.js` and `.css`. */
  lemma SuffixesExclusive(f: string)
    ensures !(EndsWith(f, JsSuffix) && EndsWith(f, CssSuffix))
  {
    if EndsWith(f, CssSuffix) {
      assert f[|f| - 3] == CssSuffix[1] == 'c';
    }
  }

  /** The two views never share an entry, so together they are no longer than the list. */
  lemma {:induction false} JsCssPartition(files: seq<string>)
    ensures forall f :: !(f in JsFiles(files) && f in CssFiles(files))
    ensures |JsFiles(files)| + |CssFiles(files)| <= |files|
  {
    forall f ensures !(f in JsFiles(files) && f in CssFiles(files)) {
      SuffixesExclusive(f);
    }
    if files != [] {
      JsCssPartition(files[1..]);
      SuffixesExclusive(files[0]);
    }
  }

  /** `copy(items)`: what is handed to `onCopy`, if anything. */
  function Copy(items: seq<string>): (text: Option<string>)
    ensures text.Some? <==> |items| > 0
    ensures text.Some? ==> text.value == JoinLines(items)
    ensures text.Some? && SingleLines(items) ==> SplitLines(text.value) == items
  {
    if |items| > 0 then
      var joined := JoinLines(items);
      if SingleLines(items) then SplitJoin(items); Some(joined) else Some(joined)
    else None
  }

  datatype Button = CopyAllButton | CopyJsButton | CopyCssButton

  /** The list each button copies. */
  function ButtonItems(files: seq<string>, b: Button): seq<string> {
    match b
    case CopyAllButton => files
    case CopyJsButton => JsFiles(files)
    case CopyCssButton => CssFiles(files)
  }

  /** Clicking a button on the card of `files`. */
  function Click(files: seq<string>, b: Button): Option<string> {
    Copy(ButtonItems(files, b))
  }

  /** "Copy All" hands over the full file list, unchanged and in order. */
  lemma CopyAllKeepsList(files: seq<string>)
    ensures Click(files, CopyAllButton) == Copy(files)
    ensures Click(files, CopyAllButton).Some? <==> |files| > 0
    ensures |files| > 0 ==> Click(files, CopyAllButton).value == JoinLines(files)
    ensures |files| > 0 && SingleLines(files) ==> SplitLines(Click(files, CopyAllButton).value) == files
  {
  }

  /** "Copy JS" hands over exactly the `.js` view; nothing happens when it is empty. */
  lemma CopyJsKeepsView(files: seq<string>)
    ensures Click(files, CopyJsButton).Some? <==> exists i :: 0 <= i < |files| && EndsWith(files[i], JsSuffix)
    ensures Click(files, CopyJsButton) == Copy(JsFiles(files))
    ensures Click(files, CopyJsButton).Some? ==> Click(files, CopyJsButton).value == JoinLines(JsFiles(files))
    ensures SingleLines(files) && Click(files, CopyJsButton).Some? ==>
      SplitLines(Click(files, CopyJsButton).value) == JsFiles(files)
  {
  }
}
