/** The `os.path` functions the output-path code relies on, for POSIX paths
    with the single separator `/`: `basename`, `dirname`, `splitext` and a
    two-argument `join`. */
module Paths {
  import opened Strings

  /** Where the last path component starts: just past the last `/`, or 0. */
  function ComponentStart(p: string): (k: nat)
    ensures k <= |p| && (k == 0 || p[k - 1] == '/')
    ensures forall j :: k <= j < |p| ==> p[j] != '/'
  {
    LastIndexOf(p, '/') + 1
  }

  /** `os.path.basename(p)`: the last component. */
  function Basename(p: string): string
  {
    p[ComponentStart(p)..]
  }

  predicate AllSlashes(s: string)
  {
    forall i :: 0 <= i < |s| ==> s[i] == '/'
  }

  predicate AllDots(s: string)
  {
    forall i :: 0 <= i < |s| ==> s[i] == '.'
  }

  /** `s.rstrip('/')` */
  function TrimTrailingSlashes(s: string): (r: string)
    ensures |r| <= |s| && r == s[..|r|]
    ensures forall i :: |r| <= i < |s| ==> s[i] == '/'
    ensures r == [] || r[|r| - 1] != '/'
  {
    if s != [] && s[|s| - 1] == '/' then TrimTrailingSlashes(s[..|s| - 1]) else s
  }

  /** What `dirname` makes of the head (everything up to and including the
      last `/`): trailing slashes go, unless the head is nothing but slashes. */
  function DirOfHead(head: string): string
  {
    if head != [] && !AllSlashes(head) then TrimTrailingSlashes(head) else head
  }

  /** `os.path.dirname(p)` */
  function Dirname(p: string): string
  {
    DirOfHead(p[..ComponentStart(p)])
  }

  /** Offset of the extension within a slash-free component, or its length if
      it has none: the last dot, provided a character other than a dot comes
      before it (so `.bashrc` and `..` have no extension). */
  function ComponentExtStart(b: string): (d: nat)
    ensures d <= |b|
  {
    var dot := LastIndexOf(b, '.');
    if dot >= 0 && !AllDots(b[..dot]) then dot else |b|
  }

  /** Where the extension of `p` starts, or `|p|` if it has none. */
  function ExtStart(p: string): (d: nat)
    ensures ComponentStart(p) <= d <= |p|
  {
    ComponentStart(p) + ComponentExtStart(p[ComponentStart(p)..])
  }

  /** `os.path.splitext(p)`: `(root, ext)` with `root + ext == p`. */
  function SplitExt(p: string): (string, string)
  {
    (p[..ExtStart(p)], p[ExtStart(p)..])
  }

  function Root(p: string): string { SplitExt(p).0 }

  function Ext(p: string): string { SplitExt(p).1 }

  /** `os.path.join(a, b)`: an absolute `b` replaces `a`; otherwise a `/` is
      inserted unless `a` is empty or already ends with one. */
  function PathJoin(a: string, b: string): string
  {
    if b != [] && b[0] == '/' then b
    else if a == [] || a[|a| - 1] == '/' then a + b
    else a + "/" + b
  }

  // ---------------------------------------------------------------------------

  /** The last occurrence is determined by its defining property. */
  lemma LastIndexOfIs(s: string, c: char, k: int)
    requires -1 <= k < |s| && (k >= 0 ==> s[k] == c)
    requires forall j :: k < j < |s| ==> s[j] != c
    ensures LastIndexOf(s, c) == k
  {
    var k' := LastIndexOf(s, c);
    assert k' >= 0 ==> s[k'] == c;
    assert k >= 0 ==> s[k] == c;
  }

  /** Splitting a path after a `/` (or at its start) followed by slash-free
      text makes that text the last component. */
  lemma ComponentStartAt(head: string, tail: string)
    requires head == [] || head[|head| - 1] == '/'
    requires '/' !in tail
    ensures ComponentStart(head + tail) == |head|
    ensures Basename(head + tail) == tail
    ensures Dirname(head + tail) == DirOfHead(head)
  {
    var p := head + tail;
    LastIndexOfIs(p, '/', |head| - 1);
    assert p[..|head|] == head;
  }

  /** ... and the extension of such a path is found in that text. */
  lemma ExtStartAt(head: string, tail: string)
    requires head == [] || head[|head| - 1] == '/'
    requires '/' !in tail
    ensures ExtStart(head + tail) == |head| + ComponentExtStart(tail)
  {
    ComponentStartAt(head, tail);
    assert (head + tail)[|head|..] == tail;
  }

  /** `splitext` puts back together what it splits. */
  lemma SplitExtRejoin(p: string)
    ensures Root(p) + Ext(p) == p
  {
  }

  /** The extension is either empty or the last dot of the last component
      with everything after it, preceded in that component by a character
      other than a dot. */
  lemma SplitExtShape(p: string)
    ensures var ext := Ext(p);
      ext == [] || (ext[0] == '.' && '.' !in ext[1..] && '/' !in ext && !AllDots(Basename(Root(p))))
  {
    var k := ComponentStart(p);
    var b := p[k..];
    var e := ComponentExtStart(b);
    assert '/' !in b by { SlashFreeAfterStart(p, k, |p|); }
    assert Ext(p) == b[e..];
    ComponentExtShape(b);
    if e < |b| {
      assert Root(p) == p[..k] + b[..e];
      ComponentStartAt(p[..k], b[..e]);
    }
  }

  /** The same, for a single component. */
  lemma ComponentExtShape(b: string)
    requires '/' !in b
    ensures var e := ComponentExtStart(b);
      e == |b| || (b[e] == '.' && '.' !in b[e + 1..] && '/' !in b[e..] && !AllDots(b[..e]))
  {
    var e := ComponentExtStart(b);
    if e < |b| {
      assert b[e..] == [b[e]] + b[e + 1..];
    }
  }

  /** The extension is empty exactly when every dot of the last component
      has only dots before it in that component. */
  lemma SplitExtEmpty(p: string)
    ensures Ext(p) == [] <==>
      forall j :: ComponentStart(p) <= j < |p| && p[j] == '.' ==> AllDots(p[ComponentStart(p)..j])
  {
    var k := ComponentStart(p);
    var b := p[k..];
    var dot := LastIndexOf(b, '.');
    if dot >= 0 && !AllDots(b[..dot]) {
      assert p[k + dot] == '.' && p[k..k + dot] == b[..dot];
    } else {
      forall j | k <= j < |p| && p[j] == '.' ensures AllDots(p[k..j]) {
        assert b[j - k] == '.';
        assert b[..j - k] == p[k..j];
        if j - k < dot {
          assert b[..j - k] == b[..dot][..j - k];
        }
      }
    }
  }

  /** What `dirname` returns is empty, all slashes, or ends in something
      other than a slash. */
  lemma DirnameShape(p: string)
    ensures var d := Dirname(p); d == [] || AllSlashes(d) || d[|d| - 1] != '/'
  {
  }

  /** `join` keeps its second argument at the end. */
  lemma PathJoinEndsWith(a: string, b: string)
    ensures var r := PathJoin(a, b); |b| <= |r| && r[|r| - |b|..] == b
  {
  }

  /** Joining a directory that `dirname` produced with a slash-free name
      gives a path whose directory is that directory and whose last
      component is the name. */
  lemma JoinIntoDirname(p: string, name: string)
    requires '/' !in name
    ensures Dirname(PathJoin(Dirname(p), name)) == Dirname(p)
    ensures Basename(PathJoin(Dirname(p), name)) == name
  {
    var d := Dirname(p);
    DirnameShape(p);
    if d == [] {
      assert PathJoin(d, name) == [] + name;
      ComponentStartAt([], name);
    } else if d[|d| - 1] == '/' {
      assert AllSlashes(d);
      ComponentStartAt(d, name);
    } else {
      assert PathJoin(d, name) == (d + "/") + name;
      ComponentStartAt(d + "/", name);
      assert !AllSlashes(d + "/") by { assert (d + "/")[|d| - 1] == d[|d| - 1]; }
      assert TrimTrailingSlashes(d + "/") == TrimTrailingSlashes((d + "/")[..|d|]);
      assert (d + "/")[..|d|] == d;
    }
  }

  /** Appending slash-free text to the root of a path leaves its directory
      alone. */
  lemma DirnameOfRootPlus(p: string, s: string)
    requires '/' !in s
    ensures Dirname(Root(p) + s) == Dirname(p)
  {
    var k := ComponentStart(p);
    var d := ExtStart(p);
    RootPlusSplits(p, s);
    ComponentStartAt(p[..k], p[k..d] + s);
  }

  /** ... and makes the last component that of the root of the input's last
      component followed by the text. */
  lemma BasenameOfRootPlus(p: string, s: string)
    requires '/' !in s
    ensures Basename(Root(p) + s) == Root(Basename(p)) + s
  {
    var k := ComponentStart(p);
    var d := ExtStart(p);
    RootPlusSplits(p, s);
    ComponentStartAt(p[..k], p[k..d] + s);
    RootOfBasename(p);
  }

  /** The root of a path followed by slash-free text, split where its last
      component starts. */
  lemma RootPlusSplits(p: string, s: string)
    requires '/' !in s
    ensures var k := ComponentStart(p); var d := ExtStart(p);
      Root(p) + s == p[..k] + (p[k..d] + s) && (p[..k] == [] || p[k - 1] == '/') && '/' !in p[k..d] + s
  {
    var k := ComponentStart(p);
    var d := ExtStart(p);
    assert p[..d] == p[..k] + p[k..d];
    SlashFreeAfterStart(p, k, d);
  }

  /** The root of the last component is the last component of the root. */
  lemma RootOfBasename(p: string)
    ensures Root(Basename(p)) == p[ComponentStart(p)..ExtStart(p)]
  {
    var b := Basename(p);
    LastIndexOfIs(b, '/', -1);
    assert b[0..] == b;
  }

  /** The last component holds no `/`. */
  lemma SlashFreeAfterStart(p: string, i: nat, j: nat)
    requires ComponentStart(p) <= i <= j <= |p|
    ensures '/' !in p[i..j]
  {
    assert forall m :: 0 <= m < j - i ==> p[i..j][m] == p[i + m];
  }

  /** The slash-free text `s` followed by `t` has its last dot in `t` when
      `t` has a dot. */
  lemma LastDotIn(s: string, t: string, j: nat)
    requires j < |t| && t[j] == '.' && '.' !in t[j + 1..]
    ensures LastIndexOf(s + t, '.') == |s| + j
  {
    LastIndexOfIs(s + t, '.', |s| + j);
  }

  /** A dot-free suffix does not move the last dot. */
  lemma LastDotBefore(s: string, t: string)
    requires '.' !in t
    ensures LastIndexOf(s + t, '.') == LastIndexOf(s, '.')
  {
    var k := LastIndexOf(s, '.');
    assert forall j :: |s| <= j < |s + t| ==> (s + t)[j] == t[j - |s|];
    LastIndexOfIs(s + t, '.', k);
  }

  /** A last component holds no `/`. */
  lemma BasenameSlashFree(p: string)
    ensures '/' !in Basename(p)
  {
    var b := Basename(p);
    assert forall j :: 0 <= j < |b| ==> b[j] == p[ComponentStart(p) + j];
  }

  /** The root of a slash-free name is slash-free. */
  lemma RootSlashFree(p: string)
    requires '/' !in p
    ensures '/' !in Root(p)
  {
    var r := Root(p);
    assert forall j :: 0 <= j < |r| ==> r[j] == p[j];
  }

  /** The last component of `join(a, b)` is that of `b`, whatever `a` is. */
  lemma BasenameOfJoin(a: string, b: string)
    ensures Basename(PathJoin(a, b)) == Basename(b)
  {
    if b != [] && b[0] == '/' {
    } else {
      var head := if a == [] || a[|a| - 1] == '/' then a else a + "/";
      assert PathJoin(a, b) == head + b;
      if '/' in b {
        BasenameAfterHead(head, b);
      } else {
        ComponentStartAt(head, b);
        ComponentStartAt([], b);
        assert [] + b == b;
      }
    }
  }

  /** Text holding a `/` decides the last component of anything it ends. */
  lemma BasenameAfterHead(head: string, b: string)
    requires '/' in b
    ensures Basename(head + b) == Basename(b)
  {
    var k := LastIndexOf(b, '/');
    assert k >= 0 by {
      var j :| 0 <= j < |b| && b[j] == '/';
    }
    var p := head + b;
    assert p[|head| + k] == '/';
    LastIndexOfIs(p, '/', |head| + k);
    assert p[|head| + k + 1..] == b[k + 1..];
  }
}
