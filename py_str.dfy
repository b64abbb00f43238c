/** The Python `str` operations the query service relies on: `strip()`,
    `replace(p, '')`, `upper()` and the substring test `p in s`.
    A string is a sequence of Unicode scalar values, as a Python `str` is. */
module PyStr {

  /** Python's `None` or a value. */
  datatype Option<+T> = None | Some(value: T)

  // ---------------------------------------------------------------------------
  // strip()
  // ---------------------------------------------------------------------------

  /** Python's `str.isspace()` for one character: the characters that
      `strip()` with no argument removes. */
  predicate IsSpace(c: char) {
    var n := c as int;
    || (0x09 <= n <= 0x0D) || (0x1C <= n <= 0x20)
    || n == 0x85 || n == 0xA0 || n == 0x1680
    || (0x2000 <= n <= 0x200A) || n == 0x2028 || n == 0x2029
    || n == 0x202F || n == 0x205F || n == 0x3000
  }

  predicate AllSpace(s: string) {
    forall i :: 0 <= i < |s| ==> IsSpace(s[i])
  }

  /** Neither end of `s` is whitespace. */
  predicate IsStripped(s: string) {
    s == [] || (!IsSpace(s[0]) && !IsSpace(s[|s| - 1]))
  }

  /** `s.lstrip()`: the longest suffix of `s` that does not start with whitespace,
      obtained by dropping only whitespace. */
  function LStrip(s: string): (r: string)
    ensures |r| <= |s| && r == s[|s| - |r|..]
    ensures AllSpace(s[..|s| - |r|])
    ensures r == [] || !IsSpace(r[0])
    decreases |s|
  {
    if |s| > 0 && IsSpace(s[0]) then
      var r := LStrip(s[1..]);
      assert s[..|s| - |r|] == [s[0]] + s[1..][..|s| - 1 - |r|];
      r
    else
      s
  }

  /** `s.rstrip()`: the longest prefix of `s` that does not end with whitespace,
      obtained by dropping only whitespace. */
  function RStrip(s: string): (r: string)
    ensures |r| <= |s| && r == s[..|r|]
    ensures AllSpace(s[|r|..])
    ensures r == [] || !IsSpace(r[|r| - 1])
    decreases |s|
  {
    if |s| > 0 && IsSpace(s[|s| - 1]) then
      var r := RStrip(s[..|s| - 1]);
      assert s[|r|..] == s[..|s| - 1][|r|..] + [s[|s| - 1]];
      r
    else
      s
  }

  /** `s.strip()`: `s` with its leading and trailing whitespace removed. */
  function Strip(s: string): (r: string)
    ensures IsStripped(r) && |r| <= |s|
  {
    var l := LStrip(s);
    var r := RStrip(l);
    assert r == [] || r[0] == l[0];
    r
  }

  lemma {:induction false} LStripOf(w: string, t: string)
    requires AllSpace(w)
    requires t == [] || !IsSpace(t[0])
    ensures LStrip(w + t) == t
    decreases |w|
  {
    if w != [] {
      assert (w + t)[1..] == w[1..] + t;
      LStripOf(w[1..], t);
    } else {
      assert w + t == t;
    }
  }

  lemma {:induction false} RStripOf(t: string, w: string)
    requires AllSpace(w)
    requires t == [] || !IsSpace(t[|t| - 1])
    ensures RStrip(t + w) == t
    decreases |w|
  {
    if w != [] {
      var s := t + w;
      assert s[..|s| - 1] == t + w[..|w| - 1];
      RStripOf(t, w[..|w| - 1]);
    } else {
      assert t + w == t;
    }
  }

  /** `strip()` removes exactly the surrounding whitespace: whatever stripped
      text is padded with whitespace on either side, stripping gives it back. */
  lemma StripOf(lead: string, t: string, trail: string)
    requires AllSpace(lead) && AllSpace(trail) && IsStripped(t)
    ensures Strip(lead + t + trail) == t
  {
    assert lead + t + trail == lead + (t + trail);
    if t == [] {
      assert lead + t + trail == lead + trail;
      assert AllSpace(lead + trail);
      LStripOf(lead + trail, []);
      assert lead + trail + [] == lead + trail;
      RStripOf([], []);
    } else {
      LStripOf(lead, t + trail);
      RStripOf(t, trail);
    }
  }

  /** Stripping an already stripped string changes nothing. */
  lemma StripStripped(t: string)
    requires IsStripped(t)
    ensures Strip(t) == t
  {
    assert [] + t + [] == t;
    StripOf([], t, []);
  }

  // ---------------------------------------------------------------------------
  // Substrings: `p in s`
  // ---------------------------------------------------------------------------

  predicate IsPrefix(p: string, s: string) {
    |p| <= |s| && s[..|p|] == p
  }

  /** `p` occurs in `s` starting at index `i`. */
  predicate OccursAt(s: string, p: string, i: nat) {
    i + |p| <= |s| && s[i..i + |p|] == p
  }

  /** Python's `p in s`, scanning `s` from the left. */
  predicate Contains(s: string, p: string)
    decreases |s|
  {
    IsPrefix(p, s) || (|s| > 0 && Contains(s[1..], p))
  }

  lemma OccursAtTail(s: string, p: string, i: nat)
    requires |s| > 0
    ensures OccursAt(s, p, i + 1) <==> OccursAt(s[1..], p, i)
  {
    if i + 1 + |p| <= |s| {
      assert s[i + 1..i + 1 + |p|] == s[1..][i..i + |p|];
    }
  }

  /** The scan agrees with the positional definition of a substring. */
  lemma {:induction false} ContainsIffOccurs(s: string, p: string)
    ensures Contains(s, p) <==> exists i: nat :: OccursAt(s, p, i)
    decreases |s|
  {
    if IsPrefix(p, s) {
      assert OccursAt(s, p, 0);
    } else if |s| == 0 {
      forall i: nat ensures !OccursAt(s, p, i) {
        if i > 0 { assert i + |p| > |s|; }
      }
    } else {
      ContainsIffOccurs(s[1..], p);
      if Contains(s[1..], p) {
        var i: nat :| OccursAt(s[1..], p, i);
        OccursAtTail(s, p, i);
      } else {
        forall i: nat ensures !OccursAt(s, p, i) {
          if i > 0 { OccursAtTail(s, p, i - 1); }
        }
      }
    }
  }

  /** A substring of a substring is a substring. */
  lemma ContainsTrans(s: string, q: string, p: string)
    requires Contains(s, q) && Contains(q, p)
    ensures Contains(s, p)
  {
    ContainsIffOccurs(s, q);
    ContainsIffOccurs(q, p);
    var i: nat :| OccursAt(s, q, i);
    var j: nat :| OccursAt(q, p, j);
    assert q == s[i..i + |q|];
    forall k | 0 <= k < |p| ensures p[k] == s[i + j + k] {
      assert p[k] == q[j + k];
    }
    assert OccursAt(s, p, i + j);
    ContainsIffOccurs(s, p);
  }

  /** Whatever a slice of `s` contains, `s` contains. */
  lemma ContainsSlice(s: string, lo: nat, hi: nat, p: string)
    requires lo <= hi <= |s| && Contains(s[lo..hi], p)
    ensures Contains(s, p)
  {
    ContainsIffOccurs(s[lo..hi], p);
    var j: nat :| OccursAt(s[lo..hi], p, j);
    forall k | 0 <= k < |p| ensures p[k] == s[lo + j + k] {
      assert p[k] == s[lo..hi][j + k];
    }
    assert OccursAt(s, p, lo + j);
    ContainsIffOccurs(s, p);
  }

  /** A string shorter than `p` cannot contain it. */
  lemma {:induction false} ShortNotContains(s: string, p: string)
    requires |s| < |p|
    ensures !Contains(s, p)
    decreases |s|
  {
    if |s| > 0 { ShortNotContains(s[1..], p); }
  }

  // ---------------------------------------------------------------------------
  // replace(p, '')
  // ---------------------------------------------------------------------------

  /** Python's `s.replace(p, '')`, scanning from the left: an occurrence of `p`
      at the front is dropped and the scan resumes after it; otherwise the first
      character is kept and the scan moves on by one. This removes the leftmost
      non-overlapping occurrences. An empty `p` leaves `s` unchanged, as
      `s.replace('', '')` does. */
  function RemoveAll(s: string, p: string): (r: string)
    ensures |r| <= |s|
    decreases |s|
  {
    if p == [] || |s| < |p| then s
    else if s[..|p|] == p then RemoveAll(s[|p|..], p)
    else [s[0]] + RemoveAll(s[1..], p)
  }

  /** When `p` does not occur, removing it changes nothing. */
  lemma {:induction false} RemoveAllAbsent(s: string, p: string)
    requires !Contains(s, p)
    ensures RemoveAll(s, p) == s
    decreases |s|
  {
    if p != [] && |s| >= |p| {
      assert !IsPrefix(p, s);
      RemoveAllAbsent(s[1..], p);
      assert [s[0]] + s[1..] == s;
    }
  }

  /** Without an occurrence at the front, the scan keeps the first character. */
  lemma RemoveAllKeepsHead(s: string, p: string)
    requires p != [] && |s| > 0 && !OccursAt(s, p, 0)
    ensures RemoveAll(s, p) == [s[0]] + RemoveAll(s[1..], p)
  {
    if |s| < |p| {
      assert RemoveAll(s[1..], p) == s[1..];
      assert [s[0]] + s[1..] == s;
    }
  }

  /** The leftmost occurrence moves one place left when the first character
      is dropped. */
  lemma LeftmostInTail(s: string, p: string, i: nat)
    requires i > 0 && OccursAt(s, p, i)
    requires forall j: nat :: j < i ==> !OccursAt(s, p, j)
    ensures OccursAt(s[1..], p, i - 1)
    ensures forall j: nat :: j < i - 1 ==> !OccursAt(s[1..], p, j)
  {
    OccursAtTail(s, p, i - 1);
    forall j: nat | j < i - 1 ensures !OccursAt(s[1..], p, j) {
      OccursAtTail(s, p, j);
    }
  }

  /** Putting the kept first character back in front of a split tail. */
  lemma ConsSlices(s: string, i: nat, k: nat, p: string)
    requires 0 < i <= k <= |s|
    ensures [s[0]] + (s[1..][..i - 1] + RemoveAllFrom(s[1..], k - 1, p)) == s[..i] + RemoveAllFrom(s, k, p)
  {
    assert s[1..][k - 1..] == s[k..];
    assert [s[0]] + s[1..][..i - 1] == s[..i];
  }

  /** The removal applied to the part of `s` from index `k` on. */
  function RemoveAllFrom(s: string, k: nat, p: string): string
    requires k <= |s|
  {
    RemoveAll(s[k..], p)
  }

  /** `replace` drops an occurrence at the very front. */
  lemma DropsLeading(p: string, rest: string)
    requires |p| > 0
    ensures RemoveAll(p + rest, p) == RemoveAll(rest, p)
  {
    assert (p + rest)[..|p|] == p;
    assert (p + rest)[|p|..] == rest;
  }

  /** The scan removes the leftmost occurrence first: with `i` the lowest
      index at which `p` occurs, the result is what precedes it followed by the
      removal applied to what follows it. With RemoveAllAbsent this is the
      find-and-skip loop of CPython's `replace`. */
  lemma {:induction false} RemoveAllAtLeftmost(s: string, p: string, i: nat)
    requires p != [] && OccursAt(s, p, i)
    requires forall j: nat :: j < i ==> !OccursAt(s, p, j)
    ensures RemoveAll(s, p) == s[..i] + RemoveAllFrom(s, i + |p|, p)
    decreases i
  {
    if i == 0 {
      assert RemoveAll(s, p) == s[..0] + RemoveAllFrom(s, |p|, p) by {
        var rest := s[|p|..];
        assert s == p + rest;
        DropsLeading(p, rest);
        assert s[..0] + RemoveAll(rest, p) == RemoveAll(rest, p);
      }
    } else {
      var t := s[1..];
      RemoveAllKeepsHead(s, p);
      LeftmostInTail(s, p, i);
      RemoveAllAtLeftmost(t, p, i - 1);
      ConsSlices(s, i, i + |p|, p);
      calc {
        RemoveAll(s, p);
        [s[0]] + RemoveAll(t, p);
        [s[0]] + (t[..i - 1] + RemoveAllFrom(t, i - 1 + |p|, p));
        s[..i] + RemoveAllFrom(s, i + |p|, p);
      }
    }
  }

  // ---------------------------------------------------------------------------
  // upper()
  // ---------------------------------------------------------------------------

  /** ASCII `str.upper()` for one character: `a`..`z` become `A`..`Z`. */
  function UpperChar(c: char): char {
    if 'a' <= c <= 'z' then (c as int - 32) as char else c
  }

  /** ASCII `str.upper()`: every lower-case ASCII letter upper-cased, all else kept. */
  function Upper(s: string): (r: string)
    ensures |r| == |s|
  {
    seq(|s|, i requires 0 <= i < |s| => UpperChar(s[i]))
  }

  /** Upper-casing commutes with taking a slice. */
  lemma UpperSlice(s: string, lo: nat, hi: nat)
    requires lo <= hi <= |s|
    ensures Upper(s)[lo..hi] == Upper(s[lo..hi])
  {
  }

  /** Upper-casing preserves containment: if `w` occurs in `s`,
      then `upper(w)` occurs in `upper(s)`. */
  lemma UpperContains(s: string, w: string)
    requires Contains(s, w)
    ensures Contains(Upper(s), Upper(w))
  {
    ContainsIffOccurs(s, w);
    var i: nat :| OccursAt(s, w, i);
    UpperSlice(s, i, i + |w|);
    assert OccursAt(Upper(s), Upper(w), i);
    ContainsIffOccurs(Upper(s), Upper(w));
  }
}
