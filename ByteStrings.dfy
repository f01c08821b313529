/**
 * PHP strings are byte strings. This module models them and the two built-in
 * string functions the filter calls with fixed arguments: `str_replace` of the
 * UTF-8 no-break space by a plain space, and `trim` with its default byte set.
 */
module ByteStrings {

  newtype byte = b: int | 0 <= b < 0x100

  type Bytes = seq<byte>

  /** The two bytes of U+00A0 in UTF-8, and the space that replaces them. */
  const NBSP_LEAD: byte := 0xC2
  const NBSP_TRAIL: byte := 0xA0
  const SPACE: byte := 0x20

  /** A no-break space starts at index i of s. */
  predicate NbspAt(s: Bytes, i: int)
  {
    0 <= i < |s| - 1 && s[i] == NBSP_LEAD && s[i + 1] == NBSP_TRAIL
  }

  predicate NoNbsp(s: Bytes)
  {
    forall i :: 0 <= i < |s| ==> !NbspAt(s, i)
  }

  /**
   * `str_replace("\xc2\xa0", ' ', s)`: a left-to-right scan that replaces every
   * non-overlapping occurrence of the pair by one space. The result holds no
   * no-break space, because the space it inserts can start or end none.
   */
  function ReplaceNbsp(s: Bytes): (r: Bytes)
    ensures |r| <= |s|
    ensures |s| > 0 ==> |r| > 0 && r[0] == (if NbspAt(s, 0) then SPACE else s[0])
    ensures NoNbsp(r)
  {
    if |s| == 0 then []
    else if NbspAt(s, 0) then
      var rest := ReplaceNbsp(s[2..]);
      assert forall i :: 1 <= i < |[SPACE] + rest| ==> NbspAt([SPACE] + rest, i) == NbspAt(rest, i - 1);
      [SPACE] + rest
    else
      var rest := ReplaceNbsp(s[1..]);
      assert forall i :: 1 <= i < |[s[0]] + rest| ==> NbspAt([s[0]] + rest, i) == NbspAt(rest, i - 1);
      [s[0]] + rest
  }

  /** Text that holds no no-break space comes out of the replacement unchanged. */
  lemma {:induction false} ReplaceNbspIdentity(s: Bytes)
    requires NoNbsp(s)
    ensures ReplaceNbsp(s) == s
  {
    if |s| > 0 {
      assert !NbspAt(s, 0);
      assert NoNbsp(s[1..]) by {
        forall i | 0 <= i < |s[1..]| ensures !NbspAt(s[1..], i) {
          assert NbspAt(s[1..], i) == NbspAt(s, i + 1);
        }
      }
      ReplaceNbspIdentity(s[1..]);
    }
  }

  /** One step of the scan, at a no-break space and at any other byte. */
  lemma ReplaceNbspStepPair(s: Bytes)
    requires NbspAt(s, 0)
    ensures ReplaceNbsp(s) == [SPACE] + ReplaceNbsp(s[2..])
  {
  }

  lemma ReplaceNbspStepByte(s: Bytes)
    requires |s| > 0 && !NbspAt(s, 0)
    ensures ReplaceNbsp(s) == [s[0]] + ReplaceNbsp(s[1..])
  {
  }

  /** Concatenation regroups freely. */
  lemma ConcatAssoc(x: Bytes, y: Bytes, z: Bytes)
    ensures x + (y + z) == (x + y) + z
  {
  }

  /**
   * Cutting s into a + b does not fall inside a no-break space: it is not the
   * case that a ends with the lead byte and b starts with the trailing one.
   */
  predicate CutOutsideNbsp(a: Bytes, b: Bytes)
  {
    a == [] || b == [] || a[|a| - 1] != NBSP_LEAD || b[0] != NBSP_TRAIL
  }

  /**
   * The replacement works piecewise: a cut that does not fall inside a
   * no-break space splits the result at the same place.
   */
  lemma {:induction false} ReplaceNbspConcat(a: Bytes, b: Bytes)
    requires CutOutsideNbsp(a, b)
    ensures ReplaceNbsp(a + b) == ReplaceNbsp(a) + ReplaceNbsp(b)
    decreases |a|
  {
    if a == [] {
      assert a + b == b;
    } else if b == [] {
      assert a + b == a;
    } else if NbspAt(a, 0) {
      var ab, t := a + b, a[2..];
      ReplaceNbspConcat(t, b);
      assert ab[2..] == t + b;
      assert NbspAt(ab, 0);
      ReplaceNbspStepPair(ab);
      ReplaceNbspStepPair(a);
      ConcatAssoc([SPACE], ReplaceNbsp(t), ReplaceNbsp(b));
    } else {
      var ab, t := a + b, a[1..];
      ReplaceNbspConcat(t, b);
      assert ab[1..] == t + b;
      assert ab[0] == a[0];
      assert !NbspAt(ab, 0);
      ReplaceNbspStepByte(ab);
      ReplaceNbspStepByte(a);
      ConcatAssoc([a[0]], ReplaceNbsp(t), ReplaceNbsp(b));
    }
  }

  /**
   * The pieces: a no-break space becomes one space, and any single byte is
   * kept. Every input is a concatenation of such pieces cut outside any
   * no-break space, so with ReplaceNbspConcat these fix the result of every
   * input.
   */
  lemma ReplaceNbspPieces(x: byte)
    ensures ReplaceNbsp([NBSP_LEAD, NBSP_TRAIL]) == [SPACE]
    ensures ReplaceNbsp([x]) == [x]
  {
  }

  /** A stray lead byte before a no-break space is kept; the pair after it is replaced. */
  lemma ReplaceNbspStrayLead()
    ensures ReplaceNbsp([NBSP_LEAD, NBSP_LEAD, NBSP_TRAIL]) == [NBSP_LEAD, SPACE]
  {
    assert CutOutsideNbsp([NBSP_LEAD], [NBSP_LEAD, NBSP_TRAIL]);
    assert [NBSP_LEAD] + [NBSP_LEAD, NBSP_TRAIL] == [NBSP_LEAD, NBSP_LEAD, NBSP_TRAIL];
    ReplaceNbspConcat([NBSP_LEAD], [NBSP_LEAD, NBSP_TRAIL]);
    ReplaceNbspPieces(NBSP_LEAD);
  }

  /** Replacing twice is replacing once. */
  lemma ReplaceNbspIdempotent(s: Bytes)
    ensures ReplaceNbsp(ReplaceNbsp(s)) == ReplaceNbsp(s)
  {
    ReplaceNbspIdentity(ReplaceNbsp(s));
  }

  /** The bytes PHP's `trim` strips by default: space, tab, line feed, carriage return, NUL, vertical tab. */
  predicate IsTrimmable(b: byte)
  {
    b == 0x20 || b == 0x09 || b == 0x0A || b == 0x0D || b == 0x00 || b == 0x0B
  }

  /** Every byte of s from index lo up to hi is one `trim` strips. */
  predicate TrimmableRange(s: Bytes, lo: int, hi: int)
  {
    forall i :: lo <= i < hi && 0 <= i < |s| ==> IsTrimmable(s[i])
  }

  /** Neither the first nor the last byte of s is one `trim` strips. */
  predicate Trimmed(s: Bytes)
  {
    s == [] || (!IsTrimmable(s[0]) && !IsTrimmable(s[|s| - 1]))
  }

  /** The number of strippable bytes s starts with. */
  function LeadingTrimmable(s: Bytes): (n: nat)
    ensures n <= |s| && TrimmableRange(s, 0, n)
    ensures n < |s| ==> !IsTrimmable(s[n])
  {
    if |s| > 0 && IsTrimmable(s[0]) then
      var n := LeadingTrimmable(s[1..]);
      assert forall i :: 1 <= i < |s| ==> s[i] == s[1..][i - 1];
      n + 1
    else 0
  }

  /** The number of strippable bytes s ends with. */
  function TrailingTrimmable(s: Bytes): (n: nat)
    ensures n <= |s| && TrimmableRange(s, |s| - n, |s|)
    ensures n < |s| ==> !IsTrimmable(s[|s| - n - 1])
  {
    if |s| > 0 && IsTrimmable(s[|s| - 1]) then
      var n := TrailingTrimmable(s[..|s| - 1]);
      assert forall i :: 0 <= i < |s| - 1 ==> s[i] == s[..|s| - 1][i];
      n + 1
    else 0
  }

  /**
   * PHP `trim(s)` with the default byte set: strippable bytes go from the
   * start, then from the end of what is left. The result has none at either
   * end, and it is the part of s between a strippable start and a strippable
   * end: nothing else is removed.
   */
  function Trim(s: Bytes): (r: Bytes)
    ensures Trimmed(r)
    ensures var lo := LeadingTrimmable(s);
            lo + |r| <= |s| && r == s[lo..lo + |r|] && TrimmableRange(s, lo + |r|, |s|)
  {
    var lo := LeadingTrimmable(s);
    var t := s[lo..];
    var n := TrailingTrimmable(t);
    var hi := |s| - n;
    var r := s[lo..hi];
    assert r != [] ==> r[0] == s[lo] && r[|r| - 1] == t[|t| - n - 1];
    assert TrimmableRange(s, hi, |s|) by {
      forall i | hi <= i < |s| ensures IsTrimmable(s[i]) {
        assert s[i] == t[i - lo];
      }
    }
    r
  }

  /** Text with nothing to strip at either end is left alone; in particular `trim` is idempotent. */
  lemma TrimIdentity(s: Bytes)
    requires Trimmed(s)
    ensures Trim(s) == s
  {
  }

  lemma TrimIdempotent(s: Bytes)
    ensures Trim(Trim(s)) == Trim(s)
  {
    TrimIdentity(Trim(s));
  }
}
