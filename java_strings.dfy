/**
 * The few java.lang.String operations the catalog relies on: `compareTo`
 * (the order of the tree's keys), `trim`, `contains` and the decimal
 * rendering of an `int`. A Java `String` is a `seq<char>` here.
 */
module JavaStrings {

  /** Index `k` is the first at which `a` and `b` hold different characters. */
  predicate FirstDifference(a: string, b: string, k: int) {
    0 <= k < |a| && k < |b| && a[..k] == b[..k] && a[k] != b[k]
  }

  /** String.compareTo, computed a character at a time. */
  function CompareTo(a: string, b: string): int
    decreases |a|
  {
    if |a| == 0 || |b| == 0 then |a| - |b|
    else if a[0] != b[0] then a[0] as int - b[0] as int
    else CompareTo(a[1..], b[1..])
  }

  /**
   * What String.compareTo promises: the difference of the first pair of
   * characters that differ, or else, when one string is a prefix of the
   * other, the difference of the lengths.
   */
  lemma {:induction false} CompareToSpec(a: string, b: string)
    ensures (a <= b || b <= a) ==> CompareTo(a, b) == |a| - |b|
    ensures !(a <= b || b <= a) ==>
      exists k :: FirstDifference(a, b, k) && CompareTo(a, b) == a[k] as int - b[k] as int
    decreases |a|
  {
    if |a| == 0 || |b| == 0 {
    } else if a[0] != b[0] {
      assert FirstDifference(a, b, 0);
    } else {
      CompareToSpec(a[1..], b[1..]);
      CompareToStep(a, b, CompareTo(a[1..], b[1..]));
    }
  }

  /** Dropping an equal first character keeps prefixes and shifts the first difference by one. */
  lemma CompareToStep(a: string, b: string, r: int)
    requires |a| > 0 && |b| > 0 && a[0] == b[0]
    requires !(a[1..] <= b[1..] || b[1..] <= a[1..]) ==>
      exists k :: FirstDifference(a[1..], b[1..], k) && r == a[1..][k] as int - b[1..][k] as int
    ensures (a <= b) == (a[1..] <= b[1..]) && (b <= a) == (b[1..] <= a[1..])
    ensures !(a <= b || b <= a) ==> exists k :: FirstDifference(a, b, k) && r == a[k] as int - b[k] as int
  {
    assert a == [a[0]] + a[1..] && b == [b[0]] + b[1..];
    if !(a[1..] <= b[1..] || b[1..] <= a[1..]) {
      var k :| FirstDifference(a[1..], b[1..], k) && r == a[1..][k] as int - b[1..][k] as int;
      assert a[..k + 1] == [a[0]] + a[1..][..k] && b[..k + 1] == [b[0]] + b[1..][..k];
      assert FirstDifference(a, b, k + 1);
    }
  }

  /** `a` sorts strictly before `b`. */
  predicate Less(a: string, b: string) {
    CompareTo(a, b) < 0
  }

  /** compareTo returns zero exactly on equal strings. */
  lemma {:induction false} CompareToZeroIff(a: string, b: string)
    ensures CompareTo(a, b) == 0 <==> a == b
    decreases |a|
  {
    if |a| != 0 && |b| != 0 && a[0] == b[0] {
      CompareToZeroIff(a[1..], b[1..]);
      assert a == [a[0]] + a[1..] && b == [b[0]] + b[1..];
    }
  }

  /** Swapping the arguments negates the result. */
  lemma {:induction false} CompareToAntisymmetric(a: string, b: string)
    ensures CompareTo(a, b) == -CompareTo(b, a)
    decreases |a|
  {
    if |a| != 0 && |b| != 0 && a[0] == b[0] {
      CompareToAntisymmetric(a[1..], b[1..]);
    }
  }

  /** The order defined by compareTo is transitive. */
  lemma {:induction false} LessTransitive(a: string, b: string, c: string)
    requires Less(a, b) && Less(b, c)
    ensures Less(a, c)
    decreases |a|
  {
    if |a| != 0 && |b| != 0 && |c| != 0 && a[0] == b[0] && b[0] == c[0] {
      LessTransitive(a[1..], b[1..], c[1..]);
    }
  }

  /** The order defined by compareTo is irreflexive and asymmetric. */
  lemma LessAsymmetric(a: string, b: string)
    ensures !(Less(a, b) && Less(b, a))
    ensures !Less(a, a)
  {
    CompareToAntisymmetric(a, b);
    CompareToZeroIff(a, a);
  }

  /** Two strings are equal, or one is strictly below the other. */
  lemma LessTotal(a: string, b: string)
    ensures a == b || Less(a, b) || Less(b, a)
  {
    CompareToZeroIff(a, b);
    CompareToAntisymmetric(a, b);
  }

  /** A character String.trim removes: every char up to and including the space. */
  predicate IsTrimmed(c: char) {
    c <= ' '
  }

  /** The first index at or after `lo` whose character String.trim keeps (or `|s|`). */
  function TrimStartIndex(s: string, lo: nat): (st: nat)
    requires lo <= |s|
    ensures lo <= st <= |s|
    ensures forall k :: lo <= k < st ==> IsTrimmed(s[k])
    ensures st == |s| || !IsTrimmed(s[st])
    decreases |s| - lo
  {
    if lo < |s| && IsTrimmed(s[lo]) then TrimStartIndex(s, lo + 1) else lo
  }

  /** The end of `s[..hi]` after dropping trimmed characters from the right, never below `st`. */
  function TrimEndIndex(s: string, st: nat, hi: nat): (len: nat)
    requires st <= hi <= |s|
    ensures st <= len <= hi
    ensures forall k :: len <= k < hi ==> IsTrimmed(s[k])
    ensures len == st || !IsTrimmed(s[len - 1])
  {
    if st < hi && IsTrimmed(s[hi - 1]) then TrimEndIndex(s, st, hi - 1) else hi
  }

  /** `r` is `s[lo..hi]`, and everything cut off on either side is at or below the space. */
  predicate TrimmedSlice(s: string, r: string, lo: int, hi: int) {
    0 <= lo <= hi <= |s| && r == s[lo..hi] &&
    (forall k :: 0 <= k < lo ==> IsTrimmed(s[k])) &&
    (forall k :: hi <= k < |s| ==> IsTrimmed(s[k]))
  }

  /**
   * String.trim: the longest slice of `s` that neither starts nor ends with
   * a character at or below the space.
   */
  function Trim(s: string): (r: string)
    ensures exists lo, hi :: TrimmedSlice(s, r, lo, hi)
    ensures r == [] || (!IsTrimmed(r[0]) && !IsTrimmed(r[|r| - 1]))
  {
    var st := TrimStartIndex(s, 0);
    var len := TrimEndIndex(s, st, |s|);
    assert TrimmedSlice(s, s[st..len], st, len);
    s[st..len]
  }

  /** `t` occurs in `s` starting at index `k`. */
  predicate OccursAt(s: string, t: string, k: int) {
    0 <= k <= |s| - |t| && s[k..k + |t|] == t
  }

  /** String.contains: `t` occurs as a contiguous slice of `s`. */
  function Contains(s: string, t: string): (r: bool)
    ensures r <==> exists k :: OccursAt(s, t, k)
    decreases |s|
  {
    if |t| <= |s| && s[..|t|] == t then
      assert OccursAt(s, t, 0);
      true
    else if |s| == 0 then
      assert forall k :: !OccursAt(s, t, k);
      false
    else
      var r := Contains(s[1..], t);
      assert forall k :: OccursAt(s, t, k) <==> k != 0 && OccursAt(s[1..], t, k - 1) by {
        forall k ensures OccursAt(s, t, k) <==> k != 0 && OccursAt(s[1..], t, k - 1) {
          if 1 <= k <= |s| - |t| {
            assert s[k..k + |t|] == s[1..][k - 1..k - 1 + |t|];
          }
        }
      }
      assert r ==> OccursAt(s, t, (var k :| OccursAt(s[1..], t, k); k) + 1);
      r
  }

  /** The decimal digits of a natural number, as Integer.toString writes them: no leading zero. */
  function NatToString(n: nat): (r: string)
    ensures |r| > 0
    ensures forall k :: 0 <= k < |r| ==> '0' <= r[k] <= '9'
    ensures n > 0 ==> r[0] != '0'
  {
    if n < 10 then [('0' as int + n) as char]
    else NatToString(n / 10) + [('0' as int + n % 10) as char]
  }

  /** The number a string of decimal digits denotes, read left to right. */
  function DigitsValue(s: string): int
    decreases |s|
  {
    if s == [] then 0 else DigitsValue(s[..|s| - 1]) * 10 + (s[|s| - 1] as int - '0' as int)
  }

  /** Integer.parseInt on what Integer.toString writes: an optional minus sign, then digits. */
  function ParseInt(s: string): int {
    if |s| > 0 && s[0] == '-' then -DigitsValue(s[1..]) else DigitsValue(s)
  }

  /** Reading back the digits of `n` gives `n`. */
  lemma {:induction false} NatToStringValue(n: nat)
    ensures DigitsValue(NatToString(n)) == n
  {
    if n >= 10 {
      NatToStringValue(n / 10);
      var s := NatToString(n);
      assert s[..|s| - 1] == NatToString(n / 10);
    }
  }

  /** Integer.toString: a leading minus sign for a negative number. */
  function IntToString(n: int): string {
    if n < 0 then "-" + NatToString(-n) else NatToString(n)
  }

  /**
   * What Integer.toString promises: a minus sign exactly for a negative
   * number, then the digits of its magnitude, which read back as the number.
   */
  lemma IntToStringSpec(n: int)
    ensures ParseInt(IntToString(n)) == n
    ensures |IntToString(n)| > 0 && (IntToString(n)[0] == '-' <==> n < 0)
    ensures forall k :: (if n < 0 then 1 else 0) <= k < |IntToString(n)| ==> '0' <= IntToString(n)[k] <= '9'
  {
    if n < 0 {
      NatToStringValue(-n);
      assert ("-" + NatToString(-n))[1..] == NatToString(-n);
    } else {
      NatToStringValue(n);
    }
  }
}
