/** The part of Node's posix `path.parse` that `_fileDigest` relies on:
    the `name` and `ext` of the last path component. */
module NodePath {
  import opened JsValues

  datatype PathParts = PathParts(name: string, ext: string)

  predicate NoSlash(s: string) {
    forall k :: 0 <= k < |s| ==> s[k] != '/'
  }

  /** An extension as path.parse reports it: empty, or a dot followed by
      no further dot or slash. */
  predicate IsExtension(ext: string) {
    ext == "" || (ext[0] == '.' && forall k :: 1 <= k < |ext| ==> ext[k] != '.' && ext[k] != '/')
  }

  function LastIndexOf(s: string, c: char): (r: Option<nat>)
    ensures r.Some? ==> r.value < |s| && s[r.value] == c
    ensures r.Some? ==> forall m :: r.value < m < |s| ==> s[m] != c
    ensures r.None? ==> forall m :: 0 <= m < |s| ==> s[m] != c
  {
    if |s| == 0 then None
    else if s[|s| - 1] == c then Some(|s| - 1)
    else LastIndexOf(s[..|s| - 1], c)
  }

  /** One past the last character of p[lo..e] that is not a '/', or lo
      when there is none: trailing separators are not part of the base. */
  function TrimSlashes(p: string, lo: nat, e: nat): (r: nat)
    requires lo <= e <= |p|
    ensures lo <= r <= e
    ensures forall m :: r <= m < e ==> p[m] == '/'
    ensures r > lo ==> p[r - 1] != '/'
    decreases e
  {
    if e == lo then lo
    else if p[e - 1] == '/' then TrimSlashes(p, lo, e - 1)
    else e
  }

  /** path.parse(p).name and .ext. The base is the last component with
      trailing slashes removed; it splits at its last dot unless that dot
      is its first character or the base is "..". Node's loop never visits
      the leading '/' of an absolute path, so "/.." splits into "." and ".". */
  function ParsePath(p: string): (r: PathParts)
    ensures NoSlash(r.name + r.ext)
    ensures IsExtension(r.ext)
    ensures r.ext != "" ==> r.name != ""
  {
    var root := if |p| > 0 && p[0] == '/' then 1 else 0;
    var end := TrimSlashes(p, root, |p|);
    if end == root then PathParts("", "")
    else
      var slash := LastIndexOf(p[root..end], '/');
      var startPart := if slash.Some? then root + slash.value + 1 else 0;
      var start := if slash.Some? then startPart else root;
      var base := p[start..end];
      assert NoSlash(base) by {
        forall k | 0 <= k < |base| ensures base[k] != '/' {
          assert base[k] == p[root..end][start - root + k];
        }
      }
      SplitBase(base, base == ".." && start == startPart)
  }

  /** Splits a base at its last dot, unless there is none, it is the
      first character, or the base is a ".." that Node leaves whole. */
  function SplitBase(base: string, wholeDotDot: bool): (r: PathParts)
    requires NoSlash(base)
    ensures r.name + r.ext == base
    ensures IsExtension(r.ext)
    ensures r.ext != "" ==> r.name != ""
  {
    var dot := LastIndexOf(base, '.');
    if dot.None? || dot.value == 0 || wholeDotDot then PathParts(base, "")
    else
      assert base[..dot.value] + base[dot.value..] == base;
      PathParts(base[..dot.value], base[dot.value..])
  }

  /** A base name with no separator is recovered by joining name and ext
      (what path.format does with them). */
  lemma {:induction false} ParseThenJoin(p: string)
    requires NoSlash(p)
    ensures ParsePath(p).name + ParsePath(p).ext == p
  {
  }

  /** Joining a name and an extension and parsing the result gives them
      back, as long as the name is a single non-empty component and the
      extension's dot is the last one. */
  lemma {:induction false} JoinThenParse(name: string, ext: string)
    requires name != "" && NoSlash(name) && IsExtension(ext)
    requires ext == "" ==> forall k :: 1 <= k < |name| ==> name[k] != '.'
    requires name + ext != ".."
    ensures ParsePath(name + ext) == PathParts(name, ext)
  {
    var p := name + ext;
    assert NoSlash(p) by {
      forall k | 0 <= k < |p| ensures p[k] != '/' {
        if k >= |name| { assert p[k] == ext[k - |name|]; }
      }
    }
    assert p[0] != '/';
    assert TrimSlashes(p, 0, |p|) == |p| by {
      if ext == "" { assert p[|p| - 1] == name[|name| - 1]; }
    }
    assert LastIndexOf(p, '/').None?;
    assert p[0..|p|] == p;
    var dot := LastIndexOf(p, '.');
    if ext == "" {
      assert p == name;
      assert dot.None? || dot.value == 0;
    } else {
      assert p[|name|] == '.';
      assert forall m :: |name| < m < |p| ==> p[m] == ext[m - |name|];
      assert dot == Some(|name|);
      assert p[..|name|] == name && p[|name|..] == ext;
    }
  }

  /** A client file name that carries directories is split on its last
      component alone: what comes before the last separator is dropped. */
  lemma {:induction false} LastComponent(d: string, b: string)
    requires d != "" && NoSlash(b) && b != ""
    ensures ParsePath(d + "/" + b) == ParsePath(b)
  {
    var p := d + "/" + b;
    assert p[|d| + 1..] == b;
    ParseAfterSlash(p, |d|);
    ParseComponent(b);
  }

  /** A path whose last separator is not its first character and is
      followed by a base is split on that base. */
  lemma {:induction false} ParseAfterSlash(p: string, k: nat)
    requires 1 <= k && k + 1 < |p| && p[k] == '/' && NoSlash(p[k + 1..])
    ensures ParsePath(p) == SplitBase(p[k + 1..], p[k + 1..] == "..")
  {
    var root := if p[0] == '/' then 1 else 0;
    assert p[|p| - 1] == p[k + 1..][|p| - k - 2];
    assert TrimSlashes(p, root, |p|) == |p|;
    var tail := p[root..|p|];
    assert tail[k - root] == '/';
    forall m | k - root < m < |tail| ensures tail[m] != '/' {
      assert tail[m] == p[k + 1..][m - k + root - 1];
    }
    LastIndexOfIs(tail, '/', k - root);
    assert p[k + 1..|p|] == p[k + 1..];
  }

  /** A single non-empty component is split on itself. */
  lemma {:induction false} ParseComponent(b: string)
    requires NoSlash(b) && b != ""
    ensures ParsePath(b) == SplitBase(b, b == "..")
  {
    assert TrimSlashes(b, 0, |b|) == |b|;
    assert b[0..|b|] == b;
    assert LastIndexOf(b, '/').None?;
  }

  /** The last occurrence is pinned down by its defining property. */
  lemma LastIndexOfIs(s: string, c: char, k: nat)
    requires k < |s| && s[k] == c && forall m :: k < m < |s| ==> s[m] != c
    ensures LastIndexOf(s, c) == Some(k)
  {
  }

  /** The split keeps the extension's case. */
  lemma ExtensionCaseKept()
    ensures ParsePath("photo.JPG") == PathParts("photo", ".JPG")
  {
    assert "photo" + ".JPG" == "photo.JPG";
    JoinThenParse("photo", ".JPG");
  }

  /** A leading dot does not start an extension. */
  lemma DotFileHasNoExtension()
    ensures ParsePath(".bashrc") == PathParts(".bashrc", "")
  {
    var p := ".bashrc";
    assert TrimSlashes(p, 0, |p|) == |p|;
    assert LastIndexOf(p, '/') == None;
    assert p[0..|p|] == p;
    LastIndexOfIs(p, '.', 0);
  }

  /** ".." is never split, except after a root separator, which Node's
      scan never reaches. */
  lemma DotDot()
    ensures ParsePath("..") == PathParts("..", "")
    ensures ParsePath("/..") == PathParts(".", ".")
  {
    var p := "..";
    assert TrimSlashes(p, 0, 2) == 2;
    assert p[0..2] == p;
    assert LastIndexOf(p, '/') == None;
    var q := "/..";
    assert TrimSlashes(q, 1, 3) == 3;
    assert q[1..3] == p;
    assert q[0..3] == q;
    assert LastIndexOf(q, '/') == Some(0);
    LastIndexOfIs(p, '.', 1);
    assert p[..1] == "." && p[1..] == ".";
  }
}
