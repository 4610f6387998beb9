/** The attachment filter: which download links of an opened message are
    clicked. main.py checks a configurable tuple of extensions; abv-scrapper.py
    hard-codes ".p7s". */
module Filter {
  import opened Text

  /** main.py's default `skip_file_extensions`: the tuple `(".p7s",)`. */
  const DefaultSkipExtensions: seq<string> := [".p7s"]

  /** main.py's `_skip_file`: some configured extension, lower-cased, occurs in
      the lower-cased file label. The loop falls off its end returning None when no
      extension matches; that falsy None is `false` here. */
  function SkipFile(fileText: string, extensions: seq<string>): (r: bool)
    ensures r <==> exists i :: 0 <= i < |extensions| && Contains(Lower(fileText), Lower(extensions[i]))
  {
    if extensions == [] then false
    else if Contains(Lower(fileText), Lower(extensions[0])) then true
    else
      var rest := SkipFile(fileText, extensions[1..]);
      assert rest <==> exists i :: 1 <= i < |extensions| && Contains(Lower(fileText), Lower(extensions[i])) by {
        assert forall i :: 1 <= i < |extensions| ==> extensions[i] == extensions[1..][i - 1];
      }
      rest
  }

  /** abv-scrapper.py's inline test: `".p7s" in file_text.lower()`. */
  predicate IsSignatureFile(fileText: string) {
    Contains(Lower(fileText), ".p7s")
  }

  /** With no configured extensions nothing is ever skipped. */
  lemma NothingSkippedWithoutExtensions(fileText: string)
    ensures !SkipFile(fileText, [])
  {
  }

  /** The filter ignores case: two labels that agree once lower-cased, checked
      against two extension tuples that agree entry by entry once lower-cased,
      are skipped alike. */
  lemma SkipFileIgnoresCase(a: string, b: string, e: seq<string>, f: seq<string>)
    requires Lower(a) == Lower(b)
    requires |e| == |f| && forall i :: 0 <= i < |e| ==> Lower(e[i]) == Lower(f[i])
    ensures SkipFile(a, e) == SkipFile(b, f)
  {
  }

  /** In particular upper- or lower-casing a label, or an extension, never
      changes the decision. */
  lemma SkipFileIgnoresCaseOf(fileText: string, extensions: seq<string>, ext: string)
    ensures SkipFile(Upper(fileText), extensions) == SkipFile(fileText, extensions)
    ensures SkipFile(Lower(fileText), extensions) == SkipFile(fileText, extensions)
    ensures SkipFile(fileText, [Upper(ext)]) == SkipFile(fileText, [ext])
  {
    LowerForgetsCase(fileText);
    LowerForgetsCase(ext);
    SkipFileIgnoresCase(Upper(fileText), fileText, extensions, extensions);
    SkipFileIgnoresCase(Lower(fileText), fileText, extensions, extensions);
    SkipFileIgnoresCase(fileText, fileText, [Upper(ext)], [ext]);
  }

  /** The default configuration skips exactly the labels that abv-scrapper.py's
      hard-coded test skips: those containing ".p7s" in any case. */
  lemma DefaultSkipsSignatures(fileText: string)
    ensures SkipFile(fileText, DefaultSkipExtensions) == IsSignatureFile(fileText)
  {
    assert Lower(".p7s") == ".p7s";
  }

  /** Worked examples: a signature is skipped whatever its case. */
  lemma SkipFileExamplesSkipped()
    ensures SkipFile("notice.p7s", DefaultSkipExtensions)
    ensures SkipFile("NOTICE.P7S", DefaultSkipExtensions)
  {
    DefaultSkipsSignatures("notice.p7s");
    DefaultSkipsSignatures("NOTICE.P7S");
    assert Lower("notice.p7s") == "notice.p7s";
    assert OccursAt(Lower("notice.p7s"), ".p7s", 6);
    assert Lower("NOTICE.P7S") == "notice.p7s";
  }

  /** A worked example: a PDF is downloaded. */
  lemma SkipFileExampleKept()
    ensures !SkipFile("report.pdf", DefaultSkipExtensions)
  {
    DefaultSkipsSignatures("report.pdf");
    var r := Lower("report.pdf");
    assert r == "report.pdf";
    forall k | 0 <= k <= |r| - 4
      ensures !OccursAt(r, ".p7s", k)
    {
      assert r[k] != '.' || r[k + 1] != 'p' || r[k + 2] != '7';
    }
  }

  /** The indices of the links `_download_attachment` clicks, in the order it
      clicks them. */
  function Kept(fileTexts: seq<string>, extensions: seq<string>): seq<nat>
    decreases |fileTexts|
  {
    if fileTexts == [] then []
    else
      var n := |fileTexts| - 1;
      Kept(fileTexts[..n], extensions) + (if SkipFile(fileTexts[n], extensions) then [] else [n])
  }

  /** The links clicked are exactly those whose label the filter does not
      skip, each once, in document order. */
  lemma {:induction false} KeptSpec(fileTexts: seq<string>, extensions: seq<string>)
    ensures
      var r := Kept(fileTexts, extensions);
      && (forall k :: 0 <= k < |r| ==> r[k] < |fileTexts| && !SkipFile(fileTexts[r[k]], extensions))
      && (forall i :: 0 <= i < |fileTexts| && !SkipFile(fileTexts[i], extensions) ==> i in r)
      && (forall j, k :: 0 <= j < k < |r| ==> r[j] < r[k])
    decreases |fileTexts|
  {
    if fileTexts != [] {
      var n := |fileTexts| - 1;
      var init := fileTexts[..n];
      KeptSpec(init, extensions);
      var prefix := Kept(init, extensions);
      assert forall k :: 0 <= k < |prefix| ==> prefix[k] < n;
      assert forall i :: 0 <= i < n ==> init[i] == fileTexts[i];
    }
  }

  /** Taking one more link into account appends its index when it is kept. */
  lemma KeptExtend(fileTexts: seq<string>, extensions: seq<string>, i: nat)
    requires i < |fileTexts|
    ensures Kept(fileTexts[..i + 1], extensions)
      == Kept(fileTexts[..i], extensions) + (if SkipFile(fileTexts[i], extensions) then [] else [i])
  {
    assert fileTexts[..i + 1][..i] == fileTexts[..i];
  }
}
