/** POSIX path handling as the importer uses it: `os.path.basename`,
    `os.path.dirname`, `os.path.splitext` and `os.path.join`, and the two
    names derived from an FBX path (the object name and the collection name). */
module Paths {

  const Sep: char := '/'
  const ExtSep: char := '.'

  /** Every character of `s` is `c` (vacuously true of the empty string). */
  predicate AllOf(s: string, c: char) {
    forall k :: 0 <= k < |s| ==> s[k] == c
  }

  /** Index of the last occurrence of `c` in `s`, or -1 when there is none. */
  function RFind(s: string, c: char): (i: int)
    ensures -1 <= i < |s|
    ensures 0 <= i ==> s[i] == c
    ensures forall k :: i < k < |s| ==> s[k] != c
  {
    if |s| == 0 then -1
    else if s[|s| - 1] == c then |s| - 1
    else RFind(s[..|s| - 1], c)
  }

  /** `os.path.basename`: the longest suffix of `p` without a separator. */
  function Basename(p: string): (b: string)
    ensures Sep !in b
    ensures |b| <= |p| && p[|p| - |b|..] == b
    ensures |b| < |p| ==> p[|p| - |b| - 1] == Sep
  {
    p[RFind(p, Sep) + 1..]
  }

  /** `str.rstrip('/')`: `s` without its trailing separators. */
  function RStripSep(s: string): (r: string)
    ensures r <= s
    ensures r == [] || r[|r| - 1] != Sep
    ensures forall k :: |r| <= k < |s| ==> s[k] == Sep
  {
    if |s| > 0 && s[|s| - 1] == Sep then RStripSep(s[..|s| - 1]) else s
  }

  /** `os.path.dirname`: everything up to the last separator, with the
      trailing separators removed unless that head consists of separators only. */
  function Dirname(p: string): (d: string)
    ensures d <= p && |d| + |Basename(p)| <= |p|
    ensures forall k :: |d| <= k < |p| - |Basename(p)| ==> p[k] == Sep
    ensures AllOf(d, Sep) || d[|d| - 1] != Sep
    ensures AllOf(d, Sep) ==> |d| + |Basename(p)| == |p|
  {
    var head := p[..RFind(p, Sep) + 1];
    assert |head| + |Basename(p)| == |p|;
    if head != [] && !AllOf(head, Sep) then
      RStripSepNotAll(head);
      RStripSep(head)
    else head
  }

  /** Stripping the trailing separators of a string that is not all
      separators leaves a string ending in something else. */
  lemma RStripSepNotAll(s: string)
    requires !AllOf(s, Sep)
    ensures RStripSep(s) != [] && RStripSep(s)[|RStripSep(s)| - 1] != Sep
  {
    if RStripSep(s) == [] {
      assert AllOf(s, Sep);
    }
  }

  /** `os.path.join(a, b)`: an absolute `b` replaces `a`; otherwise a separator
      is inserted unless `a` is empty or already ends with one. */
  function Join(a: string, b: string): (r: string)
    ensures |b| <= |r| && r[|r| - |b|..] == b
    ensures (b == [] || b[0] != Sep) ==> a <= r
  {
    if |b| > 0 && b[0] == Sep then b
    else if a == [] || a[|a| - 1] == Sep then a + b
    else a + [Sep] + b
  }

  /** `os.path.splitext`: splits `p` into a root and an extension at the last
      dot of its last component, provided some character other than a dot
      precedes that dot within the component; otherwise the extension is empty. */
  function SplitExt(p: string): (r: (string, string))
    ensures r.0 + r.1 == p
    ensures r.1 == [] || (r.1[0] == ExtSep && ExtSep !in r.1[1..] && Sep !in r.1)
  {
    var sepIndex := RFind(p, Sep);
    var dotIndex := RFind(p, ExtSep);
    if dotIndex <= sepIndex || DotsBetween(p, sepIndex, dotIndex) then
      (p, [])
    else
      ExtensionShape(p, sepIndex, dotIndex);
      (p[..dotIndex], p[dotIndex..])
  }

  /** Every character of `p` strictly between indices `i` and `j` is a dot. */
  predicate DotsBetween(p: string, i: int, j: int) {
    forall k :: i < k < j && 0 <= k < |p| ==> p[k] == ExtSep
  }

  /** The tail of `p` from its last dot, when no separator follows that dot,
      is one dot followed by neither dots nor separators. */
  lemma ExtensionShape(p: string, sepIndex: int, dotIndex: int)
    requires -1 <= sepIndex < dotIndex < |p| && p[dotIndex] == ExtSep
    requires forall k :: sepIndex < k < |p| ==> p[k] != Sep
    requires forall k :: dotIndex < k < |p| ==> p[k] != ExtSep
    ensures p[..dotIndex] + p[dotIndex..] == p
    ensures p[dotIndex..][0] == ExtSep && ExtSep !in p[dotIndex..][1..] && Sep !in p[dotIndex..]
  {
    var ext := p[dotIndex..];
    assert p[..dotIndex] + ext == p;
    assert forall k :: 0 <= k < |ext| ==> ext[k] == p[dotIndex + k];
    assert forall k :: 0 <= k < |ext[1..]| ==> ext[1..][k] == p[dotIndex + 1 + k];
  }

  /** The name given to the joined object:
      `os.path.splitext(os.path.basename(p))[0]`. */
  function Stem(p: string): (s: string)
    ensures Sep !in s
    ensures s <= Basename(p)
  {
    var b := Basename(p);
    assert SplitExt(b).0 + SplitExt(b).1 == b;
    assert SplitExt(b).0 == b[..|SplitExt(b).0|];
    SplitExt(b).0
  }

  /** The collection the object is filed into:
      `os.path.basename(os.path.dirname(p))`. */
  function CollectionName(p: string): (c: string)
    ensures Sep !in c
  {
    Basename(Dirname(p))
  }

  /** The folder filter: `name.endswith('.fbx')`, case-sensitive. */
  predicate IsFbxName(name: string) {
    |name| >= 4 && name[|name| - 4..] == ".fbx"
  }

  /** The filter accepts exactly the names that are some stem followed by
      `.fbx`. */
  lemma FbxNameIff(name: string)
    ensures IsFbxName(name) <==> exists stem :: name == stem + ".fbx"
  {
    if IsFbxName(name) {
      assert name == name[..|name| - 4] + ".fbx";
    }
    if exists stem :: name == stem + ".fbx" {
      var stem :| name == stem + ".fbx";
      assert name[|name| - 4..] == ".fbx";
    }
  }

  /** A separator-free name has an extension exactly when some character
      other than a dot comes before some dot. */
  lemma ExtensionIff(name: string)
    requires Sep !in name
    ensures SplitExt(name).1 != [] <==>
      exists k, d :: 0 <= k < d < |name| && name[k] != ExtSep && name[d] == ExtSep
  {
    var sepIndex := RFind(name, Sep);
    var dotIndex := RFind(name, ExtSep);
    assert sepIndex == -1;
    if exists k, d :: 0 <= k < d < |name| && name[k] != ExtSep && name[d] == ExtSep {
      var k, d :| 0 <= k < d < |name| && name[k] != ExtSep && name[d] == ExtSep;
      assert d <= dotIndex;
      assert !DotsBetween(name, sepIndex, dotIndex);
    }
    if SplitExt(name).1 != [] {
      assert !DotsBetween(name, sepIndex, dotIndex);
      var k :| sepIndex < k < dotIndex && 0 <= k < |name| && name[k] != ExtSep;
      assert name[k] != ExtSep && name[dotIndex] == ExtSep;
    }
  }


  /** `Basename` is the only separator-free suffix of `p` that is either all
      of `p` or preceded by a separator. */
  lemma BasenameIs(p: string, b: string)
    requires Sep !in b
    requires |b| <= |p| && p[|p| - |b|..] == b
    requires |b| == |p| || p[|p| - |b| - 1] == Sep
    ensures Basename(p) == b
  {
    var B := Basename(p);
    if |B| != |b| {
      assert false;
    }
  }

  /** The base name of `join(root, f)` is `f` itself when `f` has no separator. */
  lemma BasenameOfJoin(root: string, f: string)
    requires Sep !in f
    ensures Basename(Join(root, f)) == f
  {
    BasenameIs(Join(root, f), f);
  }

  /** An index holding `c` with no `c` after it is what `RFind` returns. */
  lemma RFindIs(s: string, c: char, i: int)
    requires -1 <= i < |s|
    requires 0 <= i ==> s[i] == c
    requires forall k :: i < k < |s| ==> s[k] != c
    ensures RFind(s, c) == i
  {
  }

  /** Every file found under a walk root lands in the collection named after
      that root (ignoring trailing separators on it). */
  lemma DirnameOfJoin(root: string, f: string)
    requires Sep !in f
    requires !AllOf(root, Sep)
    ensures Dirname(Join(root, f)) == RStripSep(root)
  {
    var p := Join(root, f);
    var k :| 0 <= k < |root| && root[k] != Sep;
    if root[|root| - 1] == Sep {
      assert p == root + f;
      RFindIs(p, Sep, |root| - 1);
      assert p[..|root|] == root;
    } else {
      var head := root + [Sep];
      assert p == head + f;
      RFindIs(p, Sep, |root|);
      assert p[..|root| + 1] == head;
      assert head[k] != Sep;
      assert head[..|head| - 1] == root;
    }
  }

  /** A file found directly under a root made only of separators (`/`, or
      the empty root) lands in the collection with the empty name, which is
      also the base name of that root without its trailing separators. */
  lemma CollectionOfJoinAllSep(root: string, f: string)
    requires Sep !in f
    requires AllOf(root, Sep)
    ensures CollectionName(Join(root, f)) == []
    ensures Basename(RStripSep(root)) == []
  {
    var p := Join(root, f);
    assert p == root + f;
    forall k | |root| <= k < |p| ensures p[k] != Sep {
      assert p[k] == f[k - |root|];
    }
    RFindIs(p, Sep, |root| - 1);
    assert p[..|root|] == root;
    AllSepBasename(root);
    AllSepStrip(root);
  }

  /** A string made only of separators has the empty base name. */
  lemma AllSepBasename(s: string)
    requires AllOf(s, Sep)
    ensures Basename(s) == []
  {
    RFindIs(s, Sep, |s| - 1);
  }

  /** Stripping the trailing separators of a string made only of separators
      leaves nothing. */
  lemma AllSepStrip(s: string)
    requires AllOf(s, Sep)
    ensures RStripSep(s) == []
  {
  }

  /** The object made from a `.fbx` file found in a walk is named after the
      file without `.fbx`, except for a name whose part before `.fbx` is only
      dots (`.fbx`, `..fbx`), which keeps its full name. */
  lemma StemOfFbxFile(root: string, f: string)
    requires Sep !in f && IsFbxName(f)
    ensures !AllOf(f[..|f| - 4], ExtSep) ==> Stem(Join(root, f)) == f[..|f| - 4]
    ensures AllOf(f[..|f| - 4], ExtSep) ==> Stem(Join(root, f)) == f
  {
    BasenameOfJoin(root, f);
    SplitExtOfFbxName(f);
    DotsBetweenPrefix(f, |f| - 4);
  }

  /** How `splitext` cuts a separator-free name ending in `.fbx`: before the
      `.fbx`, unless only dots precede it. */
  lemma SplitExtOfFbxName(f: string)
    requires Sep !in f && IsFbxName(f)
    ensures !DotsBetween(f, -1, |f| - 4) ==> SplitExt(f).0 == f[..|f| - 4]
    ensures DotsBetween(f, -1, |f| - 4) ==> SplitExt(f).0 == f
  {
    LastDotOfFbxName(f);
    RFindIs(f, Sep, -1);
  }

  /** The first `n` characters are all dots exactly when the prefix of
      length `n` consists of dots. */
  lemma DotsBetweenPrefix(f: string, n: nat)
    requires n <= |f|
    ensures DotsBetween(f, -1, n) <==> AllOf(f[..n], ExtSep)
  {
    assert forall k :: 0 <= k < n ==> f[..n][k] == f[k];
  }

  /** In a name ending in `.fbx`, the last dot is the one of `.fbx`. */
  lemma LastDotOfFbxName(f: string)
    requires IsFbxName(f)
    ensures RFind(f, ExtSep) == |f| - 4
  {
    var ext := f[|f| - 4..];
    assert ext == ".fbx";
    assert f[|f| - 4] == ext[0];
    forall k | |f| - 4 < k < |f| ensures f[k] != ExtSep {
      assert f[k] == ext[k - (|f| - 4)];
    }
    RFindIs(f, ExtSep, |f| - 4);
  }

  /** A multi-dot file name loses only its last extension:
      `shirt.v2.fbx` listed under `dir` gives `shirt.v2`. */
  lemma MultiDotExample()
    ensures Stem(Join("dir", "shirt.v2.fbx")) == "shirt.v2"
  {
    var f := "shirt.v2.fbx";
    assert f[..|f| - 4] == "shirt.v2";
    assert !AllOf(f[..|f| - 4], ExtSep) by { assert f[0] != ExtSep; }
    StemOfFbxFile("dir", f);
  }

  /** A name whose only dot is leading has no extension and keeps its dot. */
  lemma DotFileExample()
    ensures Stem(".hidden") == ".hidden"
  {
    RFindIs(".hidden", Sep, -1);
    assert Basename(".hidden") == ".hidden";
    forall k | 0 < k < |".hidden"| ensures ".hidden"[k] != ExtSep {
    }
    RFindIs(".hidden", ExtSep, 0);
  }

  /** `buttons.fbx` listed under `/assets/shirt_01` is filed into the
      collection `shirt_01`. */
  lemma CollectionExample()
    ensures CollectionName(Join("/assets/shirt_01", "buttons.fbx")) == "shirt_01"
  {
    var root, f := "/assets/shirt_01", "buttons.fbx";
    assert root[1] != Sep;
    DirnameOfJoin(root, f);
    assert RStripSep(root) == root;
    forall k | 7 < k < |root| ensures root[k] != Sep {
    }
    RFindIs(root, Sep, 7);
    assert root[8..] == "shirt_01";
  }

  /** ... and becomes the object `buttons`. */
  lemma StemExample()
    ensures Stem(Join("/assets/shirt_01", "buttons.fbx")) == "buttons"
  {
    var f := "buttons.fbx";
    assert f[..|f| - 4] == "buttons";
    assert !AllOf(f[..|f| - 4], ExtSep) by { assert f[0] != ExtSep; }
    StemOfFbxFile("/assets/shirt_01", f);
  }

  /** The suffix test is case-sensitive. */
  lemma FbxSuffixExample()
    ensures IsFbxName("buttons.fbx") && !IsFbxName("buttons.FBX")
  {
    assert "buttons.FBX"[7..] == ".FBX";
  }
}
