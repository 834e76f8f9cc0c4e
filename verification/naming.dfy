/** Python's `str(int)` and the two file-name shapes of the upload plan:
    `"{likes}.jpeg"` and `"{likes} {stamp}.jpeg"`. */
module Naming {
  import opened Seqs


  predicate IsDigit(c: char) {
    '0' <= c <= '9'
  }

  function DigitChar(d: nat): (c: char)
    requires d < 10
    ensures IsDigit(c)
  {
    ('0' as int + d) as char
  }

  function DigitValue(c: char): nat
    requires IsDigit(c)
  {
    (c as int - '0' as int) as nat
  }

  /** Decimal digits of `n`, most significant first, without leading zeros. */
  function NatToString(n: nat): (s: string)
    ensures |s| > 0
    ensures forall i :: 0 <= i < |s| ==> IsDigit(s[i])
  {
    if n < 10 then [DigitChar(n)] else NatToString(n / 10) + [DigitChar(n % 10)]
  }

  /** `str(k)` for a Python int: a minus sign before the digits of a negative number. */
  function IntToString(k: int): string {
    if k < 0 then "-" + NatToString(-k) else NatToString(k)
  }

  function ParseNat(s: string): nat
    requires forall i :: 0 <= i < |s| ==> IsDigit(s[i])
  {
    if |s| == 0 then 0 else 10 * ParseNat(s[..|s| - 1]) + DigitValue(s[|s| - 1])
  }

  /** `int(s)` on the strings IntToString produces. */
  function ParseInt(s: string): int
    requires |s| > 0
    requires s[0] == '-' || IsDigit(s[0])
    requires forall i :: 0 < i < |s| ==> IsDigit(s[i])
  {
    if s[0] == '-' then -(ParseNat(s[1..]) as int) else ParseNat(s)
  }

  lemma {:induction false} ParseNatRoundTrip(n: nat)
    ensures ParseNat(NatToString(n)) == n
    decreases n
  {
    var s := NatToString(n);
    if n >= 10 {
      ParseNatRoundTrip(n / 10);
      assert s[..|s| - 1] == NatToString(n / 10);
    }
  }

  /** `int(str(k)) == k`, so different like counts get different text. */
  lemma ParseIntRoundTrip(k: int)
    ensures var s := IntToString(k);
      |s| > 0 && (s[0] == '-' || IsDigit(s[0])) && (forall i :: 0 < i < |s| ==> IsDigit(s[i])) &&
      ParseInt(s) == k
  {
    if k < 0 {
      var t := NatToString(-k);
      ParseNatRoundTrip(-k);
      NegativeText(t);
      assert IntToString(k) == "-" + t;
    } else {
      ParseNatRoundTrip(k);
    }
  }

  /** A minus sign followed by digits parses as the negated digits. */
  lemma NegativeText(t: string)
    requires |t| > 0 && forall i :: 0 <= i < |t| ==> IsDigit(t[i])
    ensures var s := "-" + t;
      |s| > 0 && s[0] == '-' && (forall i :: 0 < i < |s| ==> IsDigit(s[i])) &&
      ParseInt(s) == -(ParseNat(t) as int)
  {
    var s := "-" + t;
    assert s[1..] == t;
    forall i | 0 < i < |s| ensures IsDigit(s[i]) {
      assert s[i] == t[i - 1];
    }
  }

  lemma IntToStringInjective(k1: int, k2: int)
    requires IntToString(k1) == IntToString(k2)
    ensures k1 == k2
  {
    ParseIntRoundTrip(k1);
    ParseIntRoundTrip(k2);
  }

  /** The name a photo receives: the bare like count when it is alone in its
      bucket, the like count and its upload stamp otherwise. */
  function FileName(likes: int, bucketSize: int, stamp: string): string {
    if bucketSize == 1 then IntToString(likes) + ".jpeg"
    else IntToString(likes) + " " + stamp + ".jpeg"
  }

  lemma FileNameSplit(likes: int, bucketSize: int, stamp: string)
    ensures FileName(likes, bucketSize, stamp) == IntToString(likes) + NameTail(bucketSize, stamp)
  {
    if bucketSize != 1 {
      var k := IntToString(likes);
      ConcatAssoc(k, " ", stamp);
      ConcatAssoc(k, " " + stamp, ".jpeg");
    }
  }

  /** A file name reads back into its parts: the decimal like count, then `.`
      exactly when the photo is alone in its bucket, otherwise a space and the
      stamp, and `.jpeg` at the end. */
  lemma FileNameShape(likes: int, bucketSize: int, stamp: string)
    ensures var n, k := FileName(likes, bucketSize, stamp), IntToString(likes);
      && |k| < |n| && n[..|k|] == k
      && (n[|k|] == '.' <==> bucketSize == 1)
      && (bucketSize == 1 ==> n[|k|..] == ".jpeg")
      && (bucketSize != 1 ==> n[|k|] == ' ' && n[|k| + 1..|n| - 5] == stamp && n[|n| - 5..] == ".jpeg")
  {
  }

  /** Text after the like count in a file name: it starts with `.` exactly
      for a photo alone in its bucket, and with a space otherwise. */
  function NameTail(bucketSize: int, stamp: string): (t: string)
    ensures |t| > 0 && (t[0] == '.' || t[0] == ' ')
    ensures t[0] == '.' <==> bucketSize == 1
  {
    if bucketSize == 1 then ".jpeg" else " " + stamp + ".jpeg"
  }

  /** A separator-free prefix ending right before a separator is determined by the whole. */
  lemma PrefixBeforeSeparator(a: string, x: string, b: string, y: string)
    requires forall i :: 0 <= i < |a| ==> a[i] != '.' && a[i] != ' '
    requires forall i :: 0 <= i < |b| ==> b[i] != '.' && b[i] != ' '
    requires |x| > 0 && (x[0] == '.' || x[0] == ' ')
    requires |y| > 0 && (y[0] == '.' || y[0] == ' ')
    requires a + x == b + y
    ensures a == b && x == y
  {
    var w := a + x;
    assert w[|a|] == x[0] && w[|b|] == y[0];
    assert forall i :: 0 <= i < |a| ==> w[i] == a[i];
    assert forall i :: 0 <= i < |b| ==> w[i] == b[i];
    assert |a| == |b|;
    assert a == w[..|a|] && b == w[..|b|];
    assert x == w[|a|..] && y == w[|b|..];
  }

  /** The decimal text of a like count holds no `.` and no space. */
  lemma IntTextNoSeparator(k: int)
    ensures forall i :: 0 <= i < |IntToString(k)| ==> IntToString(k)[i] != '.' && IntToString(k)[i] != ' '
  {
    ParseIntRoundTrip(k);
  }

  /** Equal file names come from the same like count and the same shape, and
      stamped names also from the same stamp: only two photos of one bucket
      sharing a stamp can collide. */
  lemma FileNameInjective(k1: int, n1: int, s1: string, k2: int, n2: int, s2: string)
    requires FileName(k1, n1, s1) == FileName(k2, n2, s2)
    ensures k1 == k2
    ensures n1 == 1 <==> n2 == 1
    ensures n1 != 1 ==> s1 == s2
  {
    IntTextNoSeparator(k1);
    IntTextNoSeparator(k2);
    var t1, t2 := NameTail(n1, s1), NameTail(n2, s2);
    FileNameSplit(k1, n1, s1);
    FileNameSplit(k2, n2, s2);
    PrefixBeforeSeparator(IntToString(k1), t1, IntToString(k2), t2);
    IntToStringInjective(k1, k2);
    if n1 != 1 && n2 != 1 {
      assert s1 == t1[1..|t1| - 5] && s2 == t2[1..|t2| - 5];
    }
  }
}
