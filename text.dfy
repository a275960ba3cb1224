/** The parts of Python's `str` methods the system relies on: `find`, `split(sep)`,
    `sep.join`, `replace` and `strip()` with no argument. Strings are sequences of
    characters; Python's `str` is a sequence of code points. */
module Text {

  import opened Wrappers

  /** `sep` occurs in `s` starting at index `k`. */
  predicate OccursAt(s: string, sep: string, k: int)
  {
    0 <= k && k + |sep| <= |s| && s[k..k + |sep|] == sep
  }

  /** No occurrence of `sep` starts anywhere in `s` (`sep not in s`). */
  predicate Free(s: string, sep: string)
  {
    forall k :: 0 <= k < |s| ==> !OccursAt(s, sep, k)
  }

  /** `s.find(sep, from)`: the leftmost occurrence of `sep` at or after `from`. */
  function FindFrom(s: string, sep: string, from: nat): (r: Option<nat>)
    requires |sep| > 0
    decreases |s| - from
    ensures r.Some? ==> from <= r.value && OccursAt(s, sep, r.value)
    ensures forall k :: from <= k && (r.None? || k < r.value) ==> !OccursAt(s, sep, k)
  {
    if from + |sep| > |s| then None
    else if s[from..from + |sep|] == sep then Some(from)
    else FindFrom(s, sep, from + 1)
  }

  lemma OccursInPrefix(s: string, sep: string, i: nat, k: int)
    requires i <= |s|
    requires OccursAt(s[..i], sep, k)
    ensures OccursAt(s, sep, k)
  {
    assert s[..i][k..k + |sep|] == s[k..k + |sep|];
  }

  /** `s.split(sep)` for a non-empty separator: the pieces between the occurrences of `sep`
      found scanning left to right without overlap. */
  function SplitOn(s: string, sep: string): (r: seq<string>)
    requires |sep| > 0
    decreases |s|
    ensures |r| >= 1
    ensures forall i :: 0 <= i < |r| ==> Free(r[i], sep)
  {
    match FindFrom(s, sep, 0)
    case None => [s]
    case Some(i) =>
      var rest := SplitOn(s[i + |sep|..], sep);
      assert Free(s[..i], sep) by {
        forall k ensures !OccursAt(s[..i], sep, k) {
          if OccursAt(s[..i], sep, k) { OccursInPrefix(s, sep, i, k); }
        }
      }
      [s[..i]] + rest
  }

  /** `sep.join(parts)`. */
  function Join(parts: seq<string>, sep: string): string
  {
    if |parts| == 0 then ""
    else if |parts| == 1 then parts[0]
    else parts[0] + sep + Join(parts[1..], sep)
  }

  /** `s.replace(target, with)` for a non-empty `target`, which Python defines as `with.join(s.split(target))`. */
  function Replace(s: string, target: string, with: string): string
    requires |target| > 0
  {
    Join(SplitOn(s, target), with)
  }

  /** Splitting and joining again with the same separator gives back the string: a fact
      about `str.split` and `str.join` that stands on its own; no other proof uses it. */
  lemma {:induction false} JoinSplit(s: string, sep: string)
    requires |sep| > 0
    ensures Join(SplitOn(s, sep), sep) == s
    decreases |s|
  {
    match FindFrom(s, sep, 0)
    case None =>
    case Some(i) =>
      var rest := SplitOn(s[i + |sep|..], sep);
      JoinSplit(s[i + |sep|..], sep);
      assert SplitOn(s, sep) == [s[..i]] + rest;
      assert s == s[..i] + sep + s[i + |sep|..];
  }

  /** A string without any occurrence of `sep` splits into itself alone. */
  lemma SplitFree(s: string, sep: string)
    requires |sep| > 0 && Free(s, sep)
    ensures SplitOn(s, sep) == [s]
  {
    assert FindFrom(s, sep, 0).None?;
  }

  /** When the first occurrence of `sep` in `x + sep + y` is the one right after `x`, splitting
      peels `x` off. */
  lemma SplitAfter(x: string, sep: string, y: string)
    requires |sep| > 0
    requires forall k :: 0 <= k < |x| ==> !OccursAt(x + sep + y, sep, k)
    ensures SplitOn(x + sep + y, sep) == [x] + SplitOn(y, sep)
  {
    var s := x + sep + y;
    assert s[|x|..|x| + |sep|] == sep;
    assert OccursAt(s, sep, |x|);
    match FindFrom(s, sep, 0)
    case None =>
    case Some(i) =>
      assert i == |x|;
      assert s[..i] == x;
      assert s[i + |sep|..] == y;
  }

  /** A character of `sep` that `s` lacks keeps `sep` out of `s`. */
  lemma FreeByChar(s: string, sep: string, j: nat)
    requires j < |sep| && sep[j] !in s
    ensures Free(s, sep)
  {
    forall k | 0 <= k < |s| ensures !OccursAt(s, sep, k) {
      if k + |sep| <= |s| {
        assert s[k..k + |sep|][j] == s[k + j];
      }
    }
  }

  /** Replacing one character by another rewrites each occurrence in place and leaves every
      other character as it was. */
  lemma {:induction false} ReplaceChar(s: string, a: char, b: char)
    ensures |Replace(s, [a], [b])| == |s|
    ensures forall i :: 0 <= i < |s| ==> Replace(s, [a], [b])[i] == if s[i] == a then b else s[i]
    decreases |s|
  {
    var r := Replace(s, [a], [b]);
    match FindFrom(s, [a], 0)
    case None =>
      assert SplitOn(s, [a]) == [s];
      forall i | 0 <= i < |s| ensures s[i] != a {
        assert !OccursAt(s, [a], i);
        assert s[i..i + 1] == [s[i]];
      }
    case Some(k) =>
      var t := s[k + 1..];
      ReplaceChar(t, a, b);
      var rest := SplitOn(t, [a]);
      assert SplitOn(s, [a]) == [s[..k]] + rest;
      assert ([s[..k]] + rest)[1..] == rest;
      assert r == s[..k] + [b] + Replace(t, [a], [b]);
      assert s[k..k + 1] == [a];
      forall i | 0 <= i < k ensures s[i] != a {
        assert !OccursAt(s, [a], i);
        assert s[i..i + 1] == [s[i]];
      }
  }

  /** A one-character separator occurs exactly where that character does. */
  lemma FreeOfChar(s: string, c: char)
    ensures Free(s, [c]) <==> c !in s
  {
    if c in s {
      var k :| 0 <= k < |s| && s[k] == c;
      assert s[k..k + 1] == [c];
      assert OccursAt(s, [c], k);
    } else {
      FreeByChar(s, [c], 0);
    }
  }

  /** When `x` lacks the first character of `sep`, splitting `x + sep + y` peels `x` off. */
  lemma SplitAfterLacking(x: string, sep: string, y: string)
    requires |sep| > 0 && sep[0] !in x
    ensures SplitOn(x + sep + y, sep) == [x] + SplitOn(y, sep)
  {
    var s := x + sep + y;
    forall k | 0 <= k < |x| ensures !OccursAt(s, sep, k) {
      assert s[k] == x[k];
      assert k + |sep| <= |s| ==> s[k..k + |sep|][0] == s[k];
    }
    SplitAfter(x, sep, y);
  }

  /** Python's `str.isspace` for one character: the characters `strip()` removes. */
  predicate IsSpace(c: char)
  {
    c == ' ' || ('\t' <= c <= '\r') || ('\U{1C}' <= c <= '\U{1F}') || c == '\U{85}'
    || c == '\U{A0}' || c == '\U{1680}' || ('\U{2000}' <= c <= '\U{200A}')
    || c == '\U{2028}' || c == '\U{2029}' || c == '\U{202F}' || c == '\U{205F}'
    || c == '\U{3000}'
  }

  predicate AllSpace(s: string)
  {
    forall i :: 0 <= i < |s| ==> IsSpace(s[i])
  }

  /** `s.lstrip()`. */
  function LeftStrip(s: string): (r: string)
    ensures |r| <= |s| && r == s[|s| - |r|..]
    ensures AllSpace(s[..|s| - |r|])
    ensures r == [] || !IsSpace(r[0])
  {
    if s != [] && IsSpace(s[0]) then
      var r := LeftStrip(s[1..]);
      assert s[..|s| - |r|] == [s[0]] + s[1..][..|s| - 1 - |r|];
      r
    else s
  }

  /** `s.rstrip()`. */
  function RightStrip(s: string): (r: string)
    ensures |r| <= |s| && r == s[..|r|]
    ensures AllSpace(s[|r|..])
    ensures r == [] || !IsSpace(r[|r| - 1])
  {
    if s != [] && IsSpace(s[|s| - 1]) then
      var r := RightStrip(s[..|s| - 1]);
      assert s[|r|..] == s[..|s| - 1][|r|..] + [s[|s| - 1]];
      r
    else s
  }

  /** `s.strip()`. */
  function Strip(s: string): string
  {
    RightStrip(LeftStrip(s))
  }

  lemma {:induction false} LeftStripPadded(pre: string, rest: string)
    requires AllSpace(pre) && rest != [] && !IsSpace(rest[0])
    ensures LeftStrip(pre + rest) == rest
  {
    if pre != [] {
      assert (pre + rest)[1..] == pre[1..] + rest;
      LeftStripPadded(pre[1..], rest);
    }
  }

  lemma {:induction false} RightStripPadded(rest: string, post: string)
    requires AllSpace(post) && rest != [] && !IsSpace(rest[|rest| - 1])
    ensures RightStrip(rest + post) == rest
  {
    if post != [] {
      assert (rest + post)[..|rest + post| - 1] == rest + post[..|post| - 1];
      RightStripPadded(rest, post[..|post| - 1]);
    }
  }

  /** Stripping removes exactly the white-space padding around a core that neither starts nor
      ends with white space. */
  lemma StripPadded(pre: string, core: string, post: string)
    requires AllSpace(pre) && AllSpace(post)
    requires core != [] && !IsSpace(core[0]) && !IsSpace(core[|core| - 1])
    ensures Strip(pre + core + post) == core
  {
    assert pre + core + post == pre + (core + post);
    LeftStripPadded(pre, core + post);
    RightStripPadded(core, post);
  }
}
