/** POSIX path handling as Python's `posixpath` does it for `os.path.split`, plus the two
    relations the store needs: "lies under a directory at any depth" (what `os.walk` reaches)
    and the chain of parent directories that `os.makedirs` creates. Paths are plain strings:
    `.` and `..` segments and repeated slashes are not resolved. */
module Paths {

  /** `s.rfind('/')`: the index of the last slash, or -1. */
  function LastSlash(s: string): (r: int)
    ensures -1 <= r < |s|
    ensures r >= 0 ==> s[r] == '/'
    ensures forall k :: r < k < |s| ==> s[k] != '/'
  {
    if s == [] then -1
    else if s[|s| - 1] == '/' then |s| - 1
    else LastSlash(s[..|s| - 1])
  }

  predicate AllSlashes(s: string)
  {
    forall i :: 0 <= i < |s| ==> s[i] == '/'
  }

  /** `s.rstrip('/')`. */
  function TrimSlashes(s: string): (r: string)
    ensures |r| <= |s| && r == s[..|r|]
    ensures AllSlashes(s[|r|..])
    ensures r == [] || r[|r| - 1] != '/'
  {
    if s != [] && s[|s| - 1] == '/' then
      var r := TrimSlashes(s[..|s| - 1]);
      assert s[|r|..] == s[..|s| - 1][|r|..] + ['/'];
      r
    else s
  }

  /** `os.path.split(p)`: everything after the last slash is the tail; what comes before it,
      with its trailing slashes removed unless it consists of slashes only, is the head. */
  function Split(p: string): (r: (string, string))
    ensures |r.0| + |r.1| <= |p|
    ensures r.0 == p[..|r.0|] && r.1 == p[|p| - |r.1|..]
    ensures '/' !in r.1
    ensures '/' !in p ==> r == ("", p)
  {
    var i := LastSlash(p) + 1;
    var head := p[..i];
    (if head != [] && !AllSlashes(head) then TrimSlashes(head) else head, p[i..])
  }

  function Head(p: string): (h: string)
    ensures |h| <= |p| && h == p[..|h|]
  {
    Split(p).0
  }

  function Tail(p: string): string
  {
    Split(p).1
  }

  /** The tail never holds a slash, and the tail of a path without slashes is the path. */
  lemma TailHasNoSlash(p: string)
    ensures '/' !in Tail(p)
    ensures '/' !in p ==> Head(p) == "" && Tail(p) == p
  {
    var i := LastSlash(p) + 1;
    assert Tail(p) == p[i..];
    forall k | 0 <= k < |p| - i ensures p[i..][k] != '/' {
      assert p[i..][k] == p[i + k];
    }
    if '/' !in p {
      assert LastSlash(p) == -1;
    }
  }

  /** Between head and tail stand the slashes of the split point (at least one unless the head
      is made of slashes only), and head, slashes and tail together rebuild the path. */
  lemma SplitShape(p: string)
    requires '/' in p
    ensures |Head(p)| + |Tail(p)| <= |p|
    ensures Head(p) != "" && (AllSlashes(Head(p)) || |Head(p)| + |Tail(p)| < |p|)
    ensures AllSlashes(p[|Head(p)|..|p| - |Tail(p)|])
    ensures p == Head(p) + p[|Head(p)|..|p| - |Tail(p)|] + Tail(p)
  {
    var i := LastSlash(p) + 1;
    assert i > 0 by {
      var j :| 0 <= j < |p| && p[j] == '/';
    }
    var head := p[..i];
    assert p[i - 1] == '/';
    if head != [] && !AllSlashes(head) {
      var t := TrimSlashes(head);
      assert |t| < i;
      assert p[|t|..i] == head[|t|..];
    }
    assert p == p[..|Head(p)|] + p[|Head(p)|..|p| - |Tail(p)|] + p[|p| - |Tail(p)|..];
  }

  /** Head, one slash and tail rebuild the path when the last slash of the path is a single
      slash preceded by something. */
  lemma SplitRebuild(p: string)
    requires 0 < LastSlash(p) && p[LastSlash(p) - 1] != '/'
    ensures Head(p) + "/" + Tail(p) == p
  {
    var i := LastSlash(p);
    var head := p[..i + 1];
    assert !AllSlashes(head) by { assert head[i - 1] != '/'; }
    var t := TrimSlashes(head);
    assert |t| == i;
    assert Head(p) == p[..i] && Tail(p) == p[i + 1..];
    assert p == p[..i] + "/" + p[i + 1..];
  }

  /** `p` lies under directory `root` at some depth: `os.walk(root)` reaches it. */
  predicate Under(root: string, p: string)
  {
    |p| > |root| && p[..|root|] == root && p[|root|] == '/'
  }

  /** A single directory name, as the cache root is. */
  predicate IsName(root: string)
  {
    root != [] && '/' !in root
  }

  /** Going one level up from a path under `root` stays under `root` or reaches `root`
      itself, and makes the path strictly shorter. */
  lemma HeadUnder(root: string, p: string)
    requires IsName(root) && Under(root, p)
    ensures Head(p) == root || Under(root, Head(p))
    ensures |Head(p)| < |p|
  {
    var n := |root|;
    var i := LastSlash(p);
    assert i >= n by { assert p[n] == '/'; }
    var head := p[..i + 1];
    assert head[n - 1] == root[n - 1];
    assert root[n - 1] in root;
    assert !AllSlashes(head) by { assert head[n - 1] != '/'; }
    var t := TrimSlashes(head);
    assert Head(p) == t;
    assert |t| >= n;
    assert t[..n] == p[..n];
    assert |t| <= i;
    if |t| > n { assert t[n] == p[n]; }
  }

  /** The directories `os.makedirs(d)` needs: `d` and then its heads, up to the first head
      that is empty or no shorter. */
  function Ancestors(d: string): (r: set<string>)
    decreases |d|
    ensures d in r
  {
    var h := Head(d);
    if h == "" || |h| >= |d| then {d} else {d} + Ancestors(h)
  }

  /** `makedirs` of a non-empty name never creates an entry with an empty name. */
  lemma {:induction false} AncestorsNonEmpty(d: string)
    requires d != ""
    ensures "" !in Ancestors(d)
    decreases |d|
  {
    var h := Head(d);
    if h != "" && |h| < |d| {
      AncestorsNonEmpty(h);
    }
  }

  /** The directories `makedirs` creates are closed under taking the head. */
  lemma {:induction false} AncestorsClosed(d: string)
    ensures forall x :: x in Ancestors(d) ==> Head(x) == "" || Head(x) in Ancestors(d)
    decreases |d|
  {
    var h := Head(d);
    if h == "" || |h| >= |d| {
      assert Ancestors(d) == {d};
      assert h == "" || h == d;
    } else {
      AncestorsClosed(h);
      assert Ancestors(d) == {d} + Ancestors(h);
    }
  }

  /** A single name has an empty head, and `makedirs` of it creates just that directory. */
  lemma NameAlone(root: string)
    requires IsName(root)
    ensures Head(root) == "" && Tail(root) == root
    ensures Ancestors(root) == {root}
  {
    TailHasNoSlash(root);
  }

  /** Splitting `root/name`, for a name without slashes, gives back `root` and `name`. */
  lemma ChildSplit(root: string, name: string)
    requires IsName(root) && '/' !in name
    ensures Head(root + "/" + name) == root && Tail(root + "/" + name) == name
  {
    var p := root + "/" + name;
    var n := |root|;
    assert p[n] == '/';
    assert forall k :: n < k < |p| ==> p[k] == name[k - n - 1];
    assert LastSlash(p) == n;
    assert root[n - 1] != '/' by { assert root[n - 1] in root; }
    assert p[n - 1] == root[n - 1];
    SplitRebuild(p);
    assert p[n + 1..] == name;
  }
}
