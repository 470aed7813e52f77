/**
 The ADLER32 checksum of section 2.2 of RFC 1950, with the error classes it catches:
 every single changed byte, and every exchange of two different bytes unless their
 distance is a multiple of the modulus.
 */
module Adler {
  import opened Bytes

  const BASE: int := 65521

  function SumA(s: seq<Byte>): (a: int)
    ensures 0 <= a < BASE
  {
    if s == [] then 1 else (SumA(s[..|s| - 1]) + s[|s| - 1]) % BASE
  }

  function SumB(s: seq<Byte>): (b: int)
    ensures 0 <= b < BASE
  {
    if s == [] then 0 else (SumB(s[..|s| - 1]) + SumA(s)) % BASE
  }

  /** adler32(1, s, |s|) */
  function Adler32(s: seq<Byte>): (c: int)
    ensures 0 <= c < TWO_32
  {
    SumB(s) * 0x1_0000 + SumA(s)
  }

  // ---------------------------------------------------------------------------
  // Closed forms
  // ---------------------------------------------------------------------------

  function Total(s: seq<Byte>): int {
    if s == [] then 0 else Total(s[..|s| - 1]) + s[|s| - 1]
  }

  /** Each byte counts once for every prefix that contains it. */
  function Weighted(s: seq<Byte>): int {
    if s == [] then 0 else Weighted(s[..|s| - 1]) + Total(s)
  }

  lemma AddResidues(x: int, y: int)
    ensures (x % BASE + y % BASE) % BASE == (x + y) % BASE
    ensures (x % BASE + y) % BASE == (x + y) % BASE
  {
  }

  lemma SameResidue(x: int, y: int)
    ensures x % BASE == y % BASE <==> (x - y) % BASE == 0
  {
  }

  lemma {:induction false} SumAClosed(s: seq<Byte>)
    ensures SumA(s) == (1 + Total(s)) % 65521
  {
    if s != [] {
      SumAClosed(s[..|s| - 1]);
      AddResidues(1 + Total(s[..|s| - 1]), s[|s| - 1]);
    }
  }

  lemma {:induction false} SumBClosed(s: seq<Byte>)
    ensures SumB(s) == (|s| + Weighted(s)) % 65521
  {
    if s != [] {
      SumBClosed(s[..|s| - 1]);
      SumAClosed(s);
      AddResidues(|s| - 1 + Weighted(s[..|s| - 1]), 1 + Total(s));
    }
  }

  /** The plain sum is the low half of the checksum, the weighted sum the high half. */
  lemma {:induction false} AdlerHalves(s: seq<Byte>)
    ensures Adler32(s) % 0x1_0000 == (1 + Total(s)) % 65521
    ensures Adler32(s) / 0x1_0000 == (|s| + Weighted(s)) % 65521
  {
    SumAClosed(s);
    SumBClosed(s);
    Halves(SumB(s), SumA(s));
  }

  function Minus(x: int, y: int): int {
    x - y
  }

  lemma {:induction false} TotalUpdate(s: seq<Byte>, k: int, x: Byte)
    requires 0 <= k < |s|
    ensures Total(s[k := x]) == Total(s) + Minus(x, s[k])
  {
    var n := |s| - 1;
    if k < n {
      assert s[k := x][..n] == s[..n][k := x];
      TotalUpdate(s[..n], k, x);
    } else {
      assert s[k := x][..n] == s[..n];
    }
  }

  lemma OneMore(n: int, d: int)
    ensures (n + 1) * d == n * d + d
  {
  }

  lemma {:induction false} WeightedUpdate(s: seq<Byte>, k: int, x: Byte)
    requires 0 <= k < |s|
    ensures Weighted(s[k := x]) == Weighted(s) + (|s| - k) * Minus(x, s[k])
  {
    var n := |s| - 1;
    TotalUpdate(s, k, x);
    if k < n {
      assert s[k := x][..n] == s[..n][k := x];
      WeightedUpdate(s[..n], k, x);
      OneMore(n - k, Minus(x, s[k]));
    } else {
      assert s[k := x][..n] == s[..n];
    }
  }

  // ---------------------------------------------------------------------------
  // One changed byte
  // ---------------------------------------------------------------------------

  lemma {:induction false} AdlerDiffers(s: seq<Byte>, t: seq<Byte>)
    ensures Adler32(s) != Adler32(t) <==> SumA(s) != SumA(t) || SumB(s) != SumB(t)
  {
  }

  /** Changing any one byte changes the checksum, whatever the length. */
  lemma {:induction false} SingleByteDetected(s: seq<Byte>, k: int, x: Byte)
    requires 0 <= k < |s| && x != s[k]
    ensures Adler32(s[k := x]) != Adler32(s)
  {
    AdlerDiffers(s[k := x], s);
    SumAUpdate(s, k, x);
  }

  lemma {:induction false} SumAUpdate(s: seq<Byte>, k: int, x: Byte)
    requires 0 <= k < |s| && x != s[k]
    ensures SumA(s[k := x]) != SumA(s)
  {
    SumAClosed(s);
    SumAClosed(s[k := x]);
    TotalUpdate(s, k, x);
    SameResidue(1 + Total(s[k := x]), 1 + Total(s));
    SmallNotMultiple(Minus(x, s[k]));
  }

  lemma SmallNotMultiple(d: int)
    requires -256 < d < 256 && d != 0
    ensures d % BASE != 0
  {
  }

  // ---------------------------------------------------------------------------
  // Two exchanged bytes
  // ---------------------------------------------------------------------------

  function Exchange(s: seq<Byte>, i: int, j: int): (t: seq<Byte>)
    requires 0 <= i < j < |s|
  {
    s[i := s[j]][j := s[i]]
  }

  lemma NoSmallDivisor(d: int)
    requires 2 <= d < 256
    ensures BASE % d != 0
  {
  }

  /** Euclid's lemma for the modulus and a factor below 256, by descent on the factor. */
  lemma {:induction false} FactorOut(a: int, d: nat)
    requires 1 <= d < 256
    requires a * d % BASE == 0
    ensures a % BASE == 0
    decreases d
  {
    if d > 1 {
      NoSmallDivisor(d);
      var q, r := BASE / d, BASE % d;
      var t := a * d / BASE;
      assert a * d == BASE * t;
      assert a * r == BASE * (a - q * t) by {
        assert BASE == d * q + r;
        assert a * BASE == a * (d * q + r) == a * d * q + a * r;
      }
      Multiple(a - q * t);
      FactorOut(a, r);
    }
  }

  lemma Multiple(k: int)
    ensures BASE * k % BASE == 0
  {
  }

  lemma {:induction false} ExchangeTotal(s: seq<Byte>, i: int, j: int)
    requires 0 <= i < j < |s|
    ensures Total(Exchange(s, i, j)) == Total(s)
  {
    TotalUpdate(s, i, s[j]);
    TotalUpdate(s[i := s[j]], j, s[i]);
  }

  /** An exchange moves the weighted sum by distance times difference. */
  lemma {:induction false} ExchangeWeighted(s: seq<Byte>, i: int, j: int)
    requires 0 <= i < j < |s|
    ensures Weighted(Exchange(s, i, j)) == Weighted(s) + (j - i) * Minus(s[j], s[i])
  {
    var t := s[i := s[j]];
    WeightedUpdate(s, i, s[j]);
    WeightedUpdate(t, j, s[i]);
    Telescope(Weighted(s), Weighted(t), Weighted(Exchange(s, i, j)), |s|, i, j, s[j], s[i]);
  }

  lemma Telescope(w: int, w': int, w'': int, n: int, i: int, j: int, x: int, y: int)
    requires w' == w + (n - i) * Minus(x, y)
    requires w'' == w' + (n - j) * Minus(y, x)
    ensures w'' == w + (j - i) * Minus(x, y)
  {
  }

  lemma DistanceTimesDifference(k: int, d: int)
    requires -256 < d < 256 && d != 0
    ensures (k * d) % BASE == 0 <==> k % BASE == 0
  {
    if k % BASE == 0 {
      var q := k / BASE;
      assert k * d == BASE * (q * d);
      Multiple(q * d);
    }
    if (k * d) % BASE == 0 {
      if d > 0 {
        FactorOut(k, d);
      } else {
        assert k * (-d) == -(k * d);
        SameResidue(0, k * d);
        FactorOut(k, -d);
      }
    }
  }

  /** The low half never notices an exchange. */
  lemma {:induction false} ExchangeSumA(s: seq<Byte>, i: int, j: int)
    requires 0 <= i < j < |s|
    ensures SumA(Exchange(s, i, j)) == SumA(s)
  {
    ExchangeTotal(s, i, j);
    SumAClosed(s);
    SumAClosed(Exchange(s, i, j));
  }

  lemma {:induction false} ExchangeSumB(s: seq<Byte>, i: int, j: int)
    requires 0 <= i < j < |s|
    ensures SumB(Exchange(s, i, j)) == SumB(s) <==> ((j - i) * Minus(s[j], s[i])) % BASE == 0
  {
    var u := Exchange(s, i, j);
    ExchangeWeighted(s, i, j);
    SumBClosed(s);
    SumBClosed(u);
    SameResidue(|u| + Weighted(u), |s| + Weighted(s));
  }

  /** Exchanging two different bytes goes unnoticed exactly when their distance is a
      multiple of 65521. */
  lemma {:induction false} ExchangeDetected(s: seq<Byte>, i: int, j: int)
    requires 0 <= i < j < |s| && s[i] != s[j]
    ensures Adler32(Exchange(s, i, j)) != Adler32(s) <==> (j - i) % BASE != 0
  {
    AdlerDiffers(Exchange(s, i, j), s);
    ExchangeSumA(s, i, j);
    ExchangeSumB(s, i, j);
    DistanceTimesDifference(j - i, Minus(s[j], s[i]));
  }
}
