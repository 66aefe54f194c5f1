/** `get_ext_filename_without_platform_suffix`, the helper that the generated
    `setup.py` uses so that the compiled module is named `<id>.so` rather
    than `<id>.cpython-36m-x86_64-linux-gnu.so`. `sysconfig`'s `EXT_SUFFIX`
    is a parameter. */
module SetupTemplate {
  import opened PyStrings

  /** The platform tag: `EXT_SUFFIX` with every occurrence of the file's
      extension removed. */
  function PlatformTag(extSuffix: string, ext: string): string {
    RemoveAll(extSuffix, ext)
  }

  /** The file name with the platform tag and everything after it cut from
      the stem, the extension kept. */
  function ExtFilenameWithoutPlatformSuffix(filename: string, extSuffix: string): (r: string)
    ensures var (name, ext) := SplitExt(filename);
      extSuffix == ext || Find(name, PlatformTag(extSuffix, ext)) == -1 ==> r == filename
  {
    var (name, ext) := SplitExt(filename);
    if extSuffix == ext then filename
    else
      var idx := Find(name, PlatformTag(extSuffix, ext));
      if idx == -1 then filename else name[..idx] + ext
  }

  /** Whatever `EXT_SUFFIX` is, the result keeps the extension and a prefix
      of the stem. The stem is cut at the first occurrence of the platform
      tag whenever the suffix is not the extension and the tag occurs, and
      only then. */
  lemma CutsStemAtFirstTag(filename: string, extSuffix: string)
    ensures var (name, ext) := SplitExt(filename);
      var r := ExtFilenameWithoutPlatformSuffix(filename, extSuffix);
      exists k :: 0 <= k <= |name| && r == name[..k] + ext &&
        (k < |name| ==> extSuffix != ext && k == Find(name, PlatformTag(extSuffix, ext))) &&
        (extSuffix != ext && Find(name, PlatformTag(extSuffix, ext)) != -1 ==>
          k == Find(name, PlatformTag(extSuffix, ext)))
  {
    var (name, ext) := SplitExt(filename);
    var r := ExtFilenameWithoutPlatformSuffix(filename, extSuffix);
    if r == filename {
      assert name[..|name|] == name;
    } else {
      var k := Find(name, PlatformTag(extSuffix, ext));
      assert r == name[..k] + ext;
    }
  }

  /** Removing a pattern from a text that ends with its only occurrence
      leaves the text before it. */
  lemma {:induction false} RemoveTrailing(s: string, pat: string)
    requires pat != []
    requires forall j :: 0 <= j < |s| ==> !OccursAt(s + pat, pat, j)
    ensures RemoveAll(s + pat, pat) == s
    decreases |s|
  {
    var t := s + pat;
    assert t[|s|..] == pat;
    if s == [] {
      assert t[..|pat|] == pat;
      assert t[|pat|..] == [];
    } else {
      assert !OccursAt(t, pat, 0);
      assert t[..|pat|] != pat;
      assert t[1..] == s[1..] + pat;
      forall j | 0 <= j < |s[1..]|
        ensures !OccursAt(s[1..] + pat, pat, j)
      {
        assert !OccursAt(t, pat, j + 1);
        assert (s[1..] + pat)[j..j + |pat|] == t[j + 1..j + 1 + |pat|];
      }
      RemoveTrailing(s[1..], pat);
      assert [s[0]] + s[1..] == s;
    }
  }

  /** The case the helper exists for: a file `<stem><tag><ext>` built for an
      `EXT_SUFFIX` of `<tag><ext>` becomes `<stem><ext>`, provided the
      extension does not occur inside `<tag><ext>` before its end and the tag
      does not occur in the stem before the tag itself. */
  lemma StripsPlatformTag(stem: string, tag: string, ext: string)
    requires tag != [] && ext != []
    requires SplitExt(stem + tag + ext) == (stem + tag, ext)
    requires forall j :: 0 <= j < |tag| ==> !OccursAt(tag + ext, ext, j)
    requires forall j :: 0 <= j < |stem| ==> !OccursAt(stem + tag, tag, j)
    ensures ExtFilenameWithoutPlatformSuffix(stem + tag + ext, tag + ext) == stem + ext
  {
    RemoveTrailing(tag, ext);
    assert PlatformTag(tag + ext, ext) == tag;
    var name := stem + tag;
    assert name[|stem|..] == tag;
    assert OccursAt(name, tag, |stem|);
    assert Find(name, tag) == |stem|;
    assert name[..|stem|] == stem;
    assert tag + ext != ext;
  }
}
