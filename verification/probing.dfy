/** The room formula `base1^sequence * base2^channel` and quadratic probing. */
module Probing {
  import opened Primes

  /** `b` raised to `e` (Python's `**` on non-negative integers). */
  function Pow(b: nat, e: nat): (r: nat)
    ensures b >= 1 ==> r >= 1
  {
    if e == 0 then 1 else b * Pow(b, e - 1)
  }

  /** The nominal room of guest `sequence` of channel `channel` under the two bases. */
  function NominalRoom(base1: nat, base2: nat, sequence: nat, channel: nat): (r: nat)
    ensures base1 >= 1 && base2 >= 1 ==> r >= 1
  {
    Pow(base1, sequence) * Pow(base2, channel)
  }

  /** Exponents add when powers of one base are multiplied. */
  lemma {:induction false} PowAdd(b: nat, m: nat, n: nat)
    ensures Pow(b, m + n) == Pow(b, m) * Pow(b, n)
    decreases n
  {
    if n > 0 {
      PowAdd(b, m, n - 1);
      var x, y := Pow(b, m), Pow(b, n - 1);
      assert Pow(b, m + n) == b * Pow(b, m + (n - 1));
      MulSwap(b, x, y);
    }
  }

  /** For a base of at least 2, a larger exponent gives a strictly larger power. */
  lemma PowStrict(b: nat, m: nat, n: nat)
    requires b >= 2 && m < n
    ensures Pow(b, m) < Pow(b, n)
  {
    PowAdd(b, m, n - m);
    assert Pow(b, n - m) == b * Pow(b, n - m - 1);
    MulMono(b, 1, Pow(b, n - m - 1));
    MulMono(Pow(b, m), 2, Pow(b, n - m));
  }

  /** A positive factor can be cancelled from both sides of an equation. */
  lemma MulCancel(x: int, y: int, z: int)
    requires x > 0 && x * y == x * z
    ensures y == z
  {
    if y < z {
      MulMono(x, y + 1, z);
    } else if z < y {
      MulMono(x, z + 1, y);
    }
  }

  /** A prime never divides a power of a different prime. */
  lemma {:induction false} PrimeNotDividesPow(p: nat, q: nat, c: nat)
    requires IsPrime(p) && IsPrime(q) && p != q
    ensures Pow(q, c) % p != 0
  {
    if c == 0 {
      DivModUnique(1, p, 0, 1);
    } else {
      PrimeNotDividesPow(p, q, c - 1);
      if p > q {
        DivModUnique(q, p, 0, q);
      }
      assert q % p != 0;
      if Pow(q, c) % p == 0 {
        EuclidPrime(p, q, Pow(q, c - 1));
      }
    }
  }

  /** Two rooms whose first-base exponents differ are different rooms. */
  lemma FirstExponentDiffers(b1: nat, b2: nat, s1: nat, c1: nat, s2: nat, c2: nat)
    requires IsPrime(b1) && IsPrime(b2) && b1 != b2 && s1 < s2
    ensures NominalRoom(b1, b2, s1, c1) != NominalRoom(b1, b2, s2, c2)
  {
    var d := s2 - s1;
    var common, step, tail := Pow(b1, s1), Pow(b1, d - 1), Pow(b2, c2);
    PowAdd(b1, s1, d);
    assert Pow(b1, s2) == common * (b1 * step);
    Regroup(common, b1, step, tail);
    PrimeNotDividesPow(b1, b2, c1);
    if NominalRoom(b1, b2, s1, c1) == NominalRoom(b1, b2, s2, c2) {
      MulCancel(common, Pow(b2, c1), b1 * (step * tail));
      DivModUnique(Pow(b2, c1), b1, step * tail, 0);
    }
  }

  /** Moving a factor across a product. */
  lemma MulSwap(b: int, x: int, y: int)
    ensures b * (x * y) == x * (b * y)
  {
  }

  /** Regrouping a product of four factors. */
  lemma Regroup(w: int, x: int, y: int, z: int)
    ensures (w * (x * y)) * z == w * (x * (y * z))
  {
  }

  /** The room formula is injective for two distinct prime bases: the nominal
      room identifies the guest's sequence and channel. */
  lemma NominalRoomInjective(b1: nat, b2: nat, s1: nat, c1: nat, s2: nat, c2: nat)
    requires IsPrime(b1) && IsPrime(b2) && b1 != b2
    requires NominalRoom(b1, b2, s1, c1) == NominalRoom(b1, b2, s2, c2)
    ensures s1 == s2 && c1 == c2
  {
    if s1 < s2 {
      FirstExponentDiffers(b1, b2, s1, c1, s2, c2);
    } else if s2 < s1 {
      FirstExponentDiffers(b1, b2, s2, c2, s1, c1);
    }
    MulCancel(Pow(b1, s1), Pow(b2, c1), Pow(b2, c2));
    if c1 < c2 {
      PowStrict(b2, c1, c2);
    } else if c2 < c1 {
      PowStrict(b2, c2, c1);
    }
  }

  /** The occupied numbers at or above `lo`: finite, and the measure that makes probing stop. */
  function Above(keys: set<int>, lo: int): set<int>
  {
    set x | x in keys && x >= lo
  }

  lemma {:induction false} SubsetCard<T>(a: set<T>, b: set<T>)
    requires a <= b
    ensures |a| <= |b|
    decreases a
  {
    if a != {} {
      var x :| x in a;
      SubsetCard(a - {x}, b - {x});
    }
  }

  /** Moving past an occupied number leaves strictly fewer occupied numbers ahead. */
  lemma AboveShrinks(keys: set<int>, lo: int, hi: int)
    requires lo < hi && lo in keys
    ensures |Above(keys, hi)| < |Above(keys, lo)|
  {
    SubsetCard(Above(keys, hi), Above(keys, lo) - {lo});
  }

  /** The first step `j >= i` whose probe `original + j * j` is vacant. It exists
      because the set of occupied numbers is finite. */
  function ProbeFrom(keys: set<int>, original: int, i: nat): (j: nat)
    ensures j >= i && original + j * j !in keys
    ensures forall m :: i <= m < j ==> original + m * m in keys
    decreases |Above(keys, original + i * i)|
  {
    if original + i * i !in keys then i
    else
      AboveShrinks(keys, original + i * i, original + (i + 1) * (i + 1));
      ProbeFrom(keys, original, i + 1)
  }

  /** The room probing settles on: `original` itself when vacant, otherwise the
      first vacant `original + i * i` for `i = 1, 2, ...`. */
  function Probe(keys: set<int>, original: int): (room: int)
    ensures room !in keys && room >= original
    ensures original !in keys ==> room == original
  {
    var j := ProbeFrom(keys, original, 0);
    assert j * j >= 0;
    original + j * j
  }

  /** A step that is vacant while every step before it is occupied is the one
      `ProbeFrom` finds: the probe sequence has a single answer. */
  lemma {:induction false} ProbeFromIsLeast(keys: set<int>, original: int, i: nat, j: nat)
    requires i <= j && original + j * j !in keys
    requires forall m :: i <= m < j ==> original + m * m in keys
    ensures ProbeFrom(keys, original, i) == j
    decreases j - i
  {
    if i < j {
      ProbeFromIsLeast(keys, original, i + 1, j);
    }
  }
}
