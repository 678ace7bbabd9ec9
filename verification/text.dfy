/** String primitives the command parser is built from: Rust's `str::trim`
    and `str::trim_end` (over an explicit whitespace predicate) and
    `str::splitn(2, sep)`. */
module Text {

  datatype Option<+T> = None | Some(value: T)

  /** The Unicode White_Space property, which Rust's `char::is_whitespace`
      (and so `str::trim`) tests. */
  predicate IsWhitespace(c: char) {
    var n := c as int;
    || (0x09 <= n <= 0x0D)
    || n == 0x20 || n == 0x85 || n == 0xA0 || n == 0x1680
    || (0x2000 <= n <= 0x200A)
    || n == 0x2028 || n == 0x2029 || n == 0x202F || n == 0x205F || n == 0x3000
  }

  predicate AllWhitespace(s: string) {
    forall k :: 0 <= k < |s| ==> IsWhitespace(s[k])
  }

  /** Neither end of `s` is whitespace (trivially so for the empty string). */
  predicate Trimmed(s: string) {
    s == [] || (!IsWhitespace(s[0]) && !IsWhitespace(s[|s| - 1]))
  }

  /** `n` is the slice of `s` that starts at `i`. */
  predicate SliceAt(s: string, i: int, n: string) {
    0 <= i <= |s| - |n| && s[i..i + |n|] == n
  }

  /** `r` is the slice of `s` that starts at `i`, and every character of `s`
      in front of it and behind it is whitespace. */
  predicate Framed(s: string, i: int, r: string) {
    && SliceAt(s, i, r)
    && (forall k :: 0 <= k < i ==> IsWhitespace(s[k]))
    && (forall k :: i + |r| <= k < |s| ==> IsWhitespace(s[k]))
  }

  /** The first index at or after `lo` that does not hold whitespace. */
  function SkipWhitespace(s: string, lo: nat): (i: nat)
    requires lo <= |s|
    ensures lo <= i <= |s|
    ensures forall k :: lo <= k < i ==> IsWhitespace(s[k])
    ensures i < |s| ==> !IsWhitespace(s[i])
    decreases |s| - lo
  {
    if lo < |s| && IsWhitespace(s[lo]) then SkipWhitespace(s, lo + 1) else lo
  }

  /** The end of `s[lo..hi]` once its trailing whitespace is dropped. */
  function SkipWhitespaceBack(s: string, lo: nat, hi: nat): (j: nat)
    requires lo <= hi <= |s|
    ensures lo <= j <= hi
    ensures forall k :: j <= k < hi ==> IsWhitespace(s[k])
    ensures lo < j ==> !IsWhitespace(s[j - 1])
    decreases hi
  {
    if lo < hi && IsWhitespace(s[hi - 1]) then SkipWhitespaceBack(s, lo, hi - 1) else hi
  }

  /** Rust's `str::trim_end`: the longest prefix of `s` that does not end
      in whitespace. */
  function TrimEnd(s: string): (r: string)
    ensures |r| <= |s| && r == s[..|r|]
    ensures forall k :: |r| <= k < |s| ==> IsWhitespace(s[k])
    ensures r == [] || !IsWhitespace(r[|r| - 1])
  {
    s[..SkipWhitespaceBack(s, 0, |s|)]
  }

  /** Rust's `str::trim`: the slice of `s` between its leading and its
      trailing whitespace. */
  function Trim(s: string): (r: string)
    ensures exists i :: Framed(s, i, r)
    ensures Trimmed(r)
    ensures r == [] <==> AllWhitespace(s)
  {
    var i := SkipWhitespace(s, 0);
    var j := SkipWhitespaceBack(s, i, |s|);
    assert Framed(s, i, s[i..j]);
    s[i..j]
  }

  /** Trim is determined by its characterisation: a framed slice without
      whitespace at its ends is the trimmed string. */
  lemma TrimCharacterized(s: string, i: int, r: string)
    requires Framed(s, i, r) && Trimmed(r)
    ensures Trim(s) == r
  {
    var t := Trim(s);
    var i' :| Framed(s, i', t);
    if r == [] {
      assert AllWhitespace(s);
    } else {
      assert s[i] == r[0];
      assert s[i + |r| - 1] == r[|r| - 1];
      assert t != [];
      assert s[i'] == t[0];
      assert s[i' + |t| - 1] == t[|t| - 1];
      assert i == i';
      assert |r| == |t|;
    }
  }

  /** Whatever sits between a whitespace prefix and a whitespace suffix
      without whitespace at its own ends is the trimmed string. */
  lemma TrimUnique(a: string, m: string, b: string)
    requires AllWhitespace(a) && AllWhitespace(b) && Trimmed(m)
    ensures Trim(a + m + b) == m
  {
    var s := a + m + b;
    assert s[|a|..|a| + |m|] == m;
    assert forall k :: |a| + |m| <= k < |s| ==> s[k] == b[k - |a| - |m|];
    assert Framed(s, |a|, m);
    TrimCharacterized(s, |a|, m);
  }

  lemma TrimIdempotent(s: string)
    ensures Trim(Trim(s)) == Trim(s)
  {
    var r := Trim(s);
    assert Framed(r, 0, r);
    TrimCharacterized(r, 0, r);
  }

  /** Whitespace added on both sides keeps a framed slice framed. */
  lemma FramedWiden(a: string, s: string, b: string, i: int, r: string)
    requires AllWhitespace(a) && AllWhitespace(b) && Framed(s, i, r)
    ensures Framed(a + s + b, |a| + i, r)
  {
    var x := a + s + b;
    assert x[|a| + i..|a| + i + |r|] == s[i..i + |r|];
    forall k | 0 <= k < |a| + i
      ensures IsWhitespace(x[k])
    {
      if k >= |a| {
        assert x[k] == s[k - |a|];
      }
    }
    forall k | |a| + i + |r| <= k < |x|
      ensures IsWhitespace(x[k])
    {
      if k < |a| + |s| {
        assert x[k] == s[k - |a|];
      } else {
        assert x[k] == b[k - |a| - |s|];
      }
    }
  }

  /** Whitespace added around a string never changes what Trim returns. */
  lemma TrimSurroundingWhitespace(a: string, s: string, b: string)
    requires AllWhitespace(a) && AllWhitespace(b)
    ensures Trim(a + s + b) == Trim(s)
  {
    var r := Trim(s);
    var i :| Framed(s, i, r);
    FramedWiden(a, s, b, i, r);
    TrimCharacterized(a + s + b, |a| + i, r);
  }

  /** A string that begins and ends with a non-whitespace word keeps that
      word in front after trimming; only the end of what follows is cut. */
  lemma TrimAfterWord(w: string, t: string)
    requires w != [] && Trimmed(w)
    ensures Trim(w + t) == w + TrimEnd(t)
  {
    var e := TrimEnd(t);
    var x := w + t;
    assert x[0..|w + e|] == w + e;
    assert forall k :: |w + e| <= k < |x| ==> x[k] == t[k - |w|];
    assert Framed(x, 0, w + e);
    TrimCharacterized(x, 0, w + e);
  }

  /** A string made of whitespace only is cut away entirely. */
  lemma TrimEndAllWhitespace(s: string)
    requires AllWhitespace(s)
    ensures TrimEnd(s) == []
  {
  }

  /** A string that does not end in whitespace has nothing to cut. */
  lemma TrimEndNoTrailing(s: string)
    requires s == [] || !IsWhitespace(s[|s| - 1])
    ensures TrimEnd(s) == s
  {
    assert |TrimEnd(s)| == |s|;
  }

  /** Trailing whitespace never reaches in front of the last non-whitespace
      character, so a character in front of a non-blank string survives. */
  lemma TrimEndCons(c: char, t: string)
    requires !AllWhitespace(t)
    ensures TrimEnd([c] + t) == [c] + TrimEnd(t)
  {
    var e := TrimEnd(t);
    var e' := TrimEnd([c] + t);
    var x := [c] + t;
    assert e != [];
    assert x[|e|] == e[|e| - 1];
    assert |e'| == |e| + 1;
  }

  /** Dropping a string's trailing whitespace does not change its trim. */
  lemma TrimOfTrimEnd(t: string)
    ensures Trim(TrimEnd(t)) == Trim(t)
  {
    var e := TrimEnd(t);
    var r := Trim(e);
    var i :| Framed(e, i, r);
    assert r == t[i..i + |r|] by {
      assert e == t[..|e|];
    }
    assert forall k :: 0 <= k < |e| ==> e[k] == t[k];
    assert Framed(t, i, r);
    TrimCharacterized(t, i, r);
  }

  /** `n` is a contiguous, verbatim piece of `s`. */
  ghost predicate Occurs(n: string, s: string) {
    exists i :: SliceAt(s, i, n)
  }

  lemma OccursTransitive(a: string, b: string, c: string)
    requires Occurs(a, b) && Occurs(b, c)
    ensures Occurs(a, c)
  {
    var i :| SliceAt(b, i, a);
    var j :| SliceAt(c, j, b);
    assert c[j + i..j + i + |a|] == a by {
      assert forall k :: 0 <= k < |a| ==> c[j + i + k] == b[i + k] == a[k];
    }
    assert SliceAt(c, j + i, a);
  }

  /** A character absent from `s` is absent from every piece of it. */
  lemma OccursExcludes(n: string, s: string, x: char)
    requires Occurs(n, s) && x !in s
    ensures x !in n
  {
    var i :| SliceAt(s, i, n);
    assert forall k :: 0 <= k < |n| ==> n[k] == s[i + k];
  }

  /** The first index at or after `lo` that holds `sep`, or `|s|`. */
  function FindFrom(s: string, sep: char, lo: nat): (i: nat)
    requires lo <= |s|
    ensures lo <= i <= |s|
    ensures forall k :: lo <= k < i ==> s[k] != sep
    ensures i < |s| ==> s[i] == sep
    decreases |s| - lo
  {
    if lo == |s| || s[lo] == sep then lo else FindFrom(s, sep, lo + 1)
  }

  /** Rust's `s.splitn(2, sep)` read as its (at most) two pieces: the text
      before the first `sep` (there is always such a first piece, even for
      the empty string) and, when `sep` occurs, the text after it. */
  function SplitOnce(s: string, sep: char): (r: (string, Option<string>))
    ensures sep !in r.0
    ensures r.1.None? <==> sep !in s
    ensures r.1.None? ==> r.0 == s
    ensures r.1.Some? ==> s == r.0 + [sep] + r.1.value
  {
    var i := FindFrom(s, sep, 0);
    if i == |s| then
      (s, None)
    else
      assert s == s[..i] + [sep] + s[i + 1..];
      (s[..i], Some(s[i + 1..]))
  }

  /** The split happens at the FIRST separator: any decomposition whose
      head is separator-free is the one SplitOnce finds. */
  lemma SplitOnceUnique(head: string, sep: char, tail: string)
    requires sep !in head
    ensures SplitOnce(head + [sep] + tail, sep) == (head, Some(tail))
  {
    var s := head + [sep] + tail;
    var (h, t) := SplitOnce(s, sep);
    assert s[|head|] == sep;
    assert t.Some?;
    assert s == h + [sep] + t.value;
    assert |h| == |head|;
    assert h == s[..|h|] == head;
    assert t.value == s[|h| + 1..] == tail;
  }

  /** A separator-free word followed by nothing or by the separator splits
      into that word, with the text after the separator as the tail. */
  lemma SplitOnceAfterWord(w: string, sep: char, e: string)
    requires sep !in w
    requires e == [] || e[0] == sep
    ensures SplitOnce(w + e, sep).0 == w
    ensures e == [] ==> SplitOnce(w + e, sep).1 == None
    ensures e != [] ==> SplitOnce(w + e, sep).1 == Some(e[1..])
  {
    if e == [] {
      assert w + e == w;
    } else {
      assert w + e == w + [sep] + e[1..];
      SplitOnceUnique(w, sep, e[1..]);
    }
  }
}
