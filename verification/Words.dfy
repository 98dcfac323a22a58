/** Machine words and byte strings as the C host and the VHDL cores use them:
    64-bit unsigned words with wrap-around, bytes, and the two byte orders. */
module Words {

  const TWO32: nat := 0x1_0000_0000
  const TWO64: nat := 0x1_0000_0000_0000_0000

  type U64 = x: int | 0 <= x < TWO64
  type U32 = x: int | 0 <= x < 0x1_0000_0000
  type Byte = x: int | 0 <= x < 256
  type Bytes32 = b: seq<Byte> | |b| == 32 witness seq(32, _ => 0)

  datatype Option<+T> = None | Some(value: T)

  function Pow2(n: nat): (p: nat)
    ensures p > 0
  {
    if n == 0 then 1 else 2 * Pow2(n - 1)
  }

  function Pow256(n: nat): (p: nat)
    ensures p > 0
  {
    if n == 0 then 1 else 256 * Pow256(n - 1)
  }

  lemma {:induction false} Pow2Plus8(n: nat)
    ensures Pow2(n + 8) == 256 * Pow2(n)
  {
    assert Pow2(n + 2) == 4 * Pow2(n);
    assert Pow2(n + 4) == 4 * Pow2(n + 2);
    assert Pow2(n + 6) == 4 * Pow2(n + 4);
    assert Pow2(n + 8) == 4 * Pow2(n + 6);
  }

  lemma {:induction false} Pow256IsPow2(k: nat)
    ensures Pow256(k) == Pow2(8 * k)
  {
    if k > 0 {
      Pow256IsPow2(k - 1);
      Pow2Plus8(8 * k - 8);
    }
  }

  lemma {:induction false} Pow256Monotone(m: nat, n: nat)
    requires m <= n
    ensures Pow256(m) <= Pow256(n)
    decreases n
  {
    if m < n { Pow256Monotone(m, n - 1); }
  }

  // ---------------------------------------------------------------- division

  lemma Associate(a: int, b: int, c: int)
    ensures a * (b * c) == (a * b) * c
  {
  }

  lemma MulMonotone(a: nat, b: int, c: int)
    requires b <= c
    ensures a * b <= a * c
  {
    assert a * (c - b) >= 0;
  }

  lemma QuotientUnique(v: nat, d: nat, q: nat, r: nat)
    requires d > 0 && v == d * q + r && r < d
    ensures v / d == q && v % d == r
  {
    var q', r' := v / d, v % d;
    assert v == d * q' + r';
    if q < q' { MulMonotone(d, q + 1, q'); }
    if q' < q { MulMonotone(d, q' + 1, q); }
  }

  lemma RestAtMost(x: nat, p: nat)
    requires p > 0
    ensures 0 <= x % p <= x
  {
    assert x == p * (x / p) + x % p;
    MulMonotone(p, 0, x / p);
  }

  lemma QuotientSmaller(m: nat, p: nat)
    requires p > 0
    ensures m / p <= m
  {
    var q := m / p;
    assert m == p * q + m % p;
    MulMonotone(q, 1, p);
  }

  lemma DivDiv(v: nat, a: nat, b: nat)
    requires a > 0 && b > 0
    ensures a * b > 0 && v / a / b == v / (a * b)
  {
    var q, u := v / a, v % a;
    var s, t := q / b, q % b;
    assert v == a * q + u && q == b * s + t;
    Regroup(a, b, q, s, t, u);
    QuotientUnique(v, a * b, s, a * t + u);
  }

  lemma Regroup(a: nat, b: nat, q: nat, s: nat, t: nat, u: nat)
    requires u < a && t < b && q == b * s + t
    ensures a * q + u == a * b * s + (a * t + u)
    ensures 0 <= a * t + u < a * b
  {
    Distribute(a, b * s, t);
    Associate(a, b, s);
    MulMonotone(a, t + 1, b);
    Distribute(a, t, 1);
  }

  lemma Distribute(a: int, x: int, y: int)
    ensures a * (x + y) == a * x + a * y
  {
  }

  // ---------------------------------------------------------------- modular arithmetic

  function Zeros(n: nat): (z: seq<Byte>)
    ensures |z| == n
  {
    seq(n, _ => 0)
  }

  function Add(a: U64, b: U64): U64 { (a + b) % TWO64 }

  function Sub(a: U64, b: U64): U64 { (a - b) % TWO64 }

  function Not(a: U64): U64 { TWO64 - 1 - a }

  // ---------------------------------------------------------------- exclusive or

  /** Bitwise exclusive or, one binary digit at a time. */
  function XorNat(a: nat, b: nat): nat
    decreases a + b
  {
    if a == 0 && b == 0 then 0 else 2 * XorNat(a / 2, b / 2) + (a + b) % 2
  }

  lemma {:induction false} XorNatBound(a: nat, b: nat, n: nat)
    requires a < Pow2(n) && b < Pow2(n)
    ensures XorNat(a, b) < Pow2(n)
  {
    if n > 0 {
      assert a / 2 < Pow2(n - 1) && b / 2 < Pow2(n - 1);
      XorNatBound(a / 2, b / 2, n - 1);
    }
  }

  lemma XorNatHalf(a: nat, b: nat)
    ensures XorNat(a, b) / 2 == XorNat(a / 2, b / 2)
    ensures XorNat(a, b) % 2 == (a + b) % 2
  {
    if a == 0 && b == 0 { assert XorNat(0, 0) == 0; }
  }

  lemma {:induction false} XorNatAssoc(a: nat, b: nat, c: nat)
    ensures XorNat(XorNat(a, b), c) == XorNat(a, XorNat(b, c))
    decreases a + b + c
  {
    if a == 0 && b == 0 && c == 0 {
      assert XorNat(0, 0) == 0;
    } else {
      XorNatAssoc(a / 2, b / 2, c / 2);
      XorNatAssocStep(a, b, c);
    }
  }

  lemma XorNatAssocStep(a: nat, b: nat, c: nat)
    requires XorNat(XorNat(a / 2, b / 2), c / 2) == XorNat(a / 2, XorNat(b / 2, c / 2))
    ensures XorNat(XorNat(a, b), c) == XorNat(a, XorNat(b, c))
  {
    hide XorNat;
    var ab, bc := XorNat(a, b), XorNat(b, c);
    var l, r := XorNat(ab, c), XorNat(a, bc);
    assert ab / 2 == XorNat(a / 2, b / 2) && ab % 2 == (a + b) % 2 by { XorNatHalf(a, b); }
    assert bc / 2 == XorNat(b / 2, c / 2) && bc % 2 == (b + c) % 2 by { XorNatHalf(b, c); }
    assert l / 2 == r / 2 by { XorNatHalf(ab, c); XorNatHalf(a, bc); }
    assert l % 2 == (ab + c) % 2 by { XorNatHalf(ab, c); }
    assert r % 2 == (a + bc) % 2 by { XorNatHalf(a, bc); }
    ParityAssoc(a, b, c, ab, bc);
    SameDigits(l, r);
  }

  lemma ParityAssoc(a: nat, b: nat, c: nat, ab: nat, bc: nat)
    requires ab % 2 == (a + b) % 2 && bc % 2 == (b + c) % 2
    ensures (ab + c) % 2 == (a + bc) % 2
  {
  }

  lemma SameDigits(x: nat, y: nat)
    requires x / 2 == y / 2 && x % 2 == y % 2
    ensures x == y
  {
  }

  lemma {:induction false} XorNatZero(a: nat)
    ensures XorNat(a, 0) == a
  {
    if a > 0 { XorNatZero(a / 2); }
  }

  /** Exclusive or of numbers with no digit in common is their sum. */
  lemma {:induction false} XorNatDisjoint(a: nat, b: nat, k: nat)
    requires b < Pow2(k)
    ensures XorNat(a * Pow2(k), b) == a * Pow2(k) + b
  {
    if k == 0 {
      XorNatZero(a);
    } else {
      var p := Pow2(k - 1);
      assert a * Pow2(k) == 2 * (a * p);
      XorNatDisjoint(a, b / 2, k - 1);
      XorNatHalf(2 * (a * p), b);
      assert (2 * (a * p)) / 2 == a * p;
      SameDigits(XorNat(2 * (a * p), b), 2 * (a * p) + b);
    }
  }

  /** Bitwise or, one binary digit at a time. */
  function OrNat(a: nat, b: nat): nat
    decreases a + b
  {
    if a == 0 && b == 0 then 0 else 2 * OrNat(a / 2, b / 2) + if a % 2 == 1 || b % 2 == 1 then 1 else 0
  }

  lemma {:induction false} OrNatBound(a: nat, b: nat, n: nat)
    requires a < Pow2(n) && b < Pow2(n)
    ensures OrNat(a, b) < Pow2(n)
  {
    if n > 0 { OrNatBound(a / 2, b / 2, n - 1); }
  }

  /** A word with its low k digits clear keeps them apart from a k-digit number. */
  lemma {:induction false} OrNatDisjoint(a: nat, b: nat, k: nat)
    requires b < Pow2(k)
    ensures OrNat(a * Pow2(k), b) == a * Pow2(k) + b
  {
    if k == 0 {
      OrNatZero(a);
    } else {
      var p := Pow2(k - 1);
      Associate(a, 2, p);
      Associate(2, a, p);
      OrNatDisjoint(a, b / 2, k - 1);
      assert a * Pow2(k) == 2 * (a * p);
      OrNatStep(a * p, b);
    }
  }

  lemma {:induction false} OrNatZero(a: nat)
    ensures OrNat(a, 0) == a
  {
    if a > 0 { OrNatZero(a / 2); }
  }

  lemma OrNatStep(h: nat, b: nat)
    ensures OrNat(2 * h, b) == 2 * OrNat(h, b / 2) + b % 2
  {
    if h == 0 && b == 0 { assert OrNat(0, 0) == 0; }
  }

  lemma Pow2Values()
    ensures Pow2(16) == 0x1_0000
    ensures Pow2(32) == 0x1_0000_0000
    ensures Pow2(64) == TWO64
  {
    assert Pow2(8) == 256;
    assert Pow2(16) == 0x1_0000;
    assert Pow2(24) == 0x100_0000;
    assert Pow2(32) == 0x1_0000_0000;
    assert Pow2(40) == 0x100_0000_0000;
    assert Pow2(48) == 0x1_0000_0000_0000;
    assert Pow2(56) == 0x100_0000_0000_0000;
  }

  function Xor(a: U64, b: U64): U64
  {
    Pow2Values();
    XorNatBound(a, b, 64);
    XorNat(a, b)
  }

  lemma XorAssoc(a: U64, b: U64, c: U64)
    ensures Xor(Xor(a, b), c) == Xor(a, Xor(b, c))
  {
    XorNatAssoc(a, b, c);
  }

  // ---------------------------------------------------------------- rotation

  lemma Pow2Split(n: nat, m: nat)
    requires m <= n
    ensures Pow2(m) * Pow2(n - m) == Pow2(n)
  {
    if m > 0 {
      Pow2Split(n - 1, m - 1);
      assert Pow2(m) * Pow2(n - m) == 2 * (Pow2(m - 1) * Pow2(n - 1 - (m - 1)));
    }
  }

  /** Rotate right by n bit positions: the low n bits become the high ones. */
  function Rotr(x: U64, n: nat): U64
    requires n <= 64
  {
    RotrBound(x, n);
    x / Pow2(n) + x % Pow2(n) * Pow2(64 - n)
  }

  lemma RotrBound(x: U64, n: nat)
    requires n <= 64
    ensures 0 <= x / Pow2(n) + x % Pow2(n) * Pow2(64 - n) < TWO64
  {
    hide Pow2;
    var p, q := Pow2(n), Pow2(64 - n);
    Pow2Values();
    Pow2Split(64, n);
    QuotientBound(x, p, q);
    PairBound(x / p, x % p, p, q);
  }

  lemma QuotientBound(x: nat, p: nat, q: nat)
    requires p > 0 && x < p * q
    ensures x / p < q
  {
  }

  lemma PairBound(hi: nat, lo: nat, p: nat, q: nat)
    requires hi < q && lo < p
    ensures 0 <= hi + lo * q < p * q
  {
    assert (p - 1 - lo) * q >= 0;
    assert (p - 1 - lo) * q == p * q - q - lo * q;
  }

  // ---------------------------------------------------------------- byte order

  /** Value of a byte string read least significant byte first. */
  function LE(b: seq<Byte>): nat
  {
    if |b| == 0 then 0 else b[0] + 256 * LE(b[1..])
  }

  /** Value of a byte string read most significant byte first. */
  function BE(b: seq<Byte>): nat
  {
    if |b| == 0 then 0 else 256 * BE(b[..|b| - 1]) + b[|b| - 1]
  }

  /** The n low bytes of v, least significant first. */
  function ToLE(v: nat, n: nat): (b: seq<Byte>)
    ensures |b| == n
  {
    if n == 0 then [] else [v % 256] + ToLE(v / 256, n - 1)
  }

  function Reverse<T>(s: seq<T>): (r: seq<T>)
    ensures |r| == |s|
    ensures forall i :: 0 <= i < |s| ==> r[i] == s[|s| - 1 - i]
  {
    if |s| == 0 then [] else Reverse(s[1..]) + [s[0]]
  }

  lemma {:induction false} LEBound(b: seq<Byte>)
    ensures LE(b) < Pow256(|b|)
  {
    if |b| > 0 { LEBound(b[1..]); }
  }

  lemma {:induction false} BEBound(b: seq<Byte>)
    ensures BE(b) < Pow256(|b|)
  {
    if |b| > 0 { BEBound(b[..|b| - 1]); }
  }

  lemma {:induction false} LEToLE(v: nat, n: nat)
    requires v < Pow256(n)
    ensures LE(ToLE(v, n)) == v
  {
    if n > 0 {
      assert v / 256 < Pow256(n - 1);
      LEToLE(v / 256, n - 1);
      assert ToLE(v, n)[1..] == ToLE(v / 256, n - 1);
    }
  }

  lemma {:induction false} ToLELE(b: seq<Byte>)
    ensures ToLE(LE(b), |b|) == b
  {
    if |b| > 0 {
      ToLELE(b[1..]);
      assert LE(b) % 256 == b[0] && LE(b) / 256 == LE(b[1..]);
      assert b == [b[0]] + b[1..];
    }
  }

  lemma {:induction false} LEConcat(a: seq<Byte>, b: seq<Byte>)
    ensures LE(a + b) == LE(a) + Pow256(|a|) * LE(b)
  {
    if |a| == 0 {
      assert a + b == b;
    } else {
      LEConcat(a[1..], b);
      assert (a + b)[1..] == a[1..] + b;
      assert 256 * (Pow256(|a| - 1) * LE(b)) == Pow256(|a|) * LE(b) by {
        Associate(256, Pow256(|a| - 1), LE(b));
      }
    }
  }

  lemma {:induction false} BEConcat(a: seq<Byte>, b: seq<Byte>)
    ensures BE(a + b) == BE(a) * Pow256(|b|) + BE(b)
  {
    if |b| == 0 {
      assert a + b == a;
    } else {
      var m := |b| - 1;
      BEConcat(a, b[..m]);
      assert (a + b)[..|a| + m] == a + b[..m];
      assert 256 * (BE(a) * Pow256(m)) == BE(a) * Pow256(|b|) by {
        Associate(BE(a), 256, Pow256(m));
        Associate(256, BE(a), Pow256(m));
      }
    }
  }

  lemma {:induction false} BEReverse(b: seq<Byte>)
    ensures BE(Reverse(b)) == LE(b)
  {
    if |b| > 0 {
      var r := Reverse(b[1..]);
      assert Reverse(b) == r + [b[0]];
      assert Reverse(b)[..|b| - 1] == r;
      BEReverse(b[1..]);
    }
  }

  /** The n low bytes of v, most significant first. */
  function ToBE(v: nat, n: nat): (b: seq<Byte>)
    ensures |b| == n
  {
    if n == 0 then [] else ToBE(v / 256, n - 1) + [v % 256]
  }

  lemma {:induction false} ToBEOfBE(b: seq<Byte>)
    ensures ToBE(BE(b), |b|) == b
  {
    if b != [] {
      var n := |b| - 1;
      ToBEOfBE(b[..n]);
      assert BE(b) / 256 == BE(b[..n]) && BE(b) % 256 == b[n];
      assert b == b[..n] + [b[n]];
    }
  }

  lemma {:induction false} BEOfToBE(v: nat, n: nat)
    requires v < Pow256(n)
    ensures BE(ToBE(v, n)) == v
  {
    if n > 0 {
      assert v / 256 < Pow256(n - 1);
      BEOfToBE(v / 256, n - 1);
      assert ToBE(v, n)[..n - 1] == ToBE(v / 256, n - 1);
    }
  }

  lemma {:induction false} BEAt(v: nat, n: nat, i: nat)
    requires i < n
    ensures v / Pow256(i) % 256 == ToBE(v, n)[n - 1 - i]
  {
    if i > 0 {
      BEAt(v / 256, n - 1, i - 1);
      DivDiv(v, 256, Pow256(i - 1));
    }
  }

  lemma Pow256Values()
    ensures Pow256(4) == 0x1_0000_0000
    ensures Pow256(8) == TWO64
    ensures Pow256(1) == 256
  {
    assert Pow256(2) == 0x1_0000;
    assert Pow256(4) == 0x1_0000_0000;
    assert Pow256(6) == 0x1_0000_0000_0000;
  }

  lemma {:induction false} ToLEAt(v: nat, n: nat, k: nat)
    requires k < n
    ensures ToLE(v, n)[k] == v / Pow256(k) % 256
  {
    if k > 0 {
      ToLEAt(v / 256, n - 1, k - 1);
      DivDiv(v, 256, Pow256(k - 1));
    }
  }

  /** The eight bytes of a word swapped end for end. */
  function ByteSwap(w: U64): U64
  {
    Pow256Values();
    BEBound(ToLE(w, 8));
    BE(ToLE(w, 8))
  }

  lemma LE8IsWord(b: seq<Byte>)
    requires |b| == 8
    ensures 0 <= LE(b) < TWO64
  {
    Pow256Values();
    LEBound(b);
  }

  /** A 64-bit word read from eight bytes, least significant first. */
  function Load64(b: seq<Byte>): U64
    requires |b| == 8
  {
    LE8IsWord(b);
    LE(b)
  }
}
