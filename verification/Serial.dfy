/** Bit strings on a serial line, least significant bit first. */
module Serial {
  import opened Words

  function Bit(v: nat): bool { v % 2 == 1 }

  /** The n low bits of v. */
  function Bits(v: nat, n: nat): (b: seq<bool>)
    ensures |b| == n
  {
    if n == 0 then [] else [Bit(v)] + Bits(v / 2, n - 1)
  }

  function ValueOf(b: seq<bool>): nat {
    if |b| == 0 then 0 else (if b[0] then 1 else 0) + 2 * ValueOf(b[1..])
  }

  lemma {:induction false} ValueBound(b: seq<bool>)
    ensures ValueOf(b) < Pow2(|b|)
  {
    if |b| > 0 { ValueBound(b[1..]); }
  }

  lemma {:induction false} ValueOfBits(v: nat, n: nat)
    requires v < Pow2(n)
    ensures ValueOf(Bits(v, n)) == v
  {
    if n > 0 {
      assert Bits(v, n)[1..] == Bits(v / 2, n - 1);
      ValueOfBits(v / 2, n - 1);
    }
  }

  function ByteOf(b: seq<bool>): Byte
    requires |b| == 8
  {
    assert Pow2(8) == 256;
    ValueBound(b);
    ValueOf(b)
  }

  lemma ByteOfBits(x: Byte)
    ensures ByteOf(Bits(x, 8)) == x
  {
    assert Pow2(8) == 256;
    ValueOfBits(x, 8);
  }

  /** Eight bits a byte. */
  function BytesOf(b: seq<bool>): (s: seq<Byte>)
    requires |b| % 8 == 0
    ensures |s| == |b| / 8
  {
    if |b| == 0 then [] else [ByteOf(b[..8])] + BytesOf(b[8..])
  }

  function BitsOf(s: seq<Byte>): (b: seq<bool>)
    ensures |b| == 8 * |s|
  {
    if |s| == 0 then [] else Bits(s[0], 8) + BitsOf(s[1..])
  }

  lemma {:induction false} BytesOfBitsOf(s: seq<Byte>)
    ensures BytesOf(BitsOf(s)) == s
  {
    if |s| > 0 {
      var b := BitsOf(s);
      assert b[..8] == Bits(s[0], 8) && b[8..] == BitsOf(s[1..]);
      ByteOfBits(s[0]);
      BytesOfBitsOf(s[1..]);
    }
  }

  lemma {:induction false} BitsOfConcat(s: seq<Byte>, t: seq<Byte>)
    ensures BitsOf(s + t) == BitsOf(s) + BitsOf(t)
  {
    hide Bits;
    if |s| == 0 {
      assert s + t == t;
      assert BitsOf(s) == [];
    } else {
      assert (s + t)[1..] == s[1..] + t && (s + t)[0] == s[0];
      BitsOfConcat(s[1..], t);
      var a, b, c := Bits(s[0], 8), BitsOf(s[1..]), BitsOf(t);
      assert BitsOf(s + t) == a + BitsOf((s + t)[1..]);
      assert a + (b + c) == (a + b) + c;
    }
  }

  /** A word on the wire is its bytes, least significant first. */
  lemma {:induction false} WordBits(v: nat, n: nat)
    ensures Bits(v, 8 * n) == BitsOf(ToLE(v, n))
  {
    if n > 0 {
      BitsSplit(v, 8 * n, 8);
      ByteShift(v);
      WordBits(v / 256, n - 1);
      LowBits(v);
      assert ToLE(v, n)[1..] == ToLE(v / 256, n - 1);
    }
  }

  lemma ByteShift(v: nat)
    ensures Shifted(v, 8) == v / 256
  {
    assert Pow2(8) == 256;
  }

  lemma {:induction false} BitsSplit(v: nat, n: nat, k: nat)
    requires k <= n
    ensures Bits(v, n) == Bits(v, k) + Bits(Shifted(v, k), n - k)
  {
    hide Bits, Shifted;
    if k > 0 {
      BitsSplit(v / 2, n - 1, k - 1);
      HalfThenShift(v, k);
      BitsStep(v, n);
      BitsStep(v, k);
      var a, b := Bits(v / 2, k - 1), Bits(Shifted(v, k), n - k);
      assert [Bit(v)] + (a + b) == ([Bit(v)] + a) + b;
    } else {
      NoBits(v);
      assert [] + Bits(v, n) == Bits(v, n);
    }
  }

  /** v without its k low digits. */
  function Shifted(v: nat, k: nat): nat {
    hide Pow2;
    v / Pow2(k)
  }

  lemma HalfThenShift(v: nat, k: nat)
    requires k > 0
    ensures Shifted(v / 2, k - 1) == Shifted(v, k)
  {
    DivDiv(v, 2, Pow2(k - 1));
  }

  lemma BitsStep(v: nat, n: nat)
    requires n > 0
    ensures Bits(v, n) == [Bit(v)] + Bits(v / 2, n - 1)
  {
  }

  lemma NoBits(v: nat)
    ensures Bits(v, 0) == [] && Shifted(v, 0) == v
  {
  }

  lemma LowBits(v: nat)
    ensures Bits(v, 8) == Bits(v % 256, 8)
  {
    LowBitsUpTo(v, v % 256, 8);
  }

  lemma {:induction false} LowBitsUpTo(v: nat, w: nat, n: nat)
    requires v % Pow2(n) == w % Pow2(n)
    ensures Bits(v, n) == Bits(w, n)
  {
    if n > 0 {
      HalvesAgree(v, w, Pow2(n - 1));
      LowBitsUpTo(v / 2, w / 2, n - 1);
    }
  }

  lemma HalvesAgree(v: nat, w: nat, p: nat)
    requires p > 0 && v % (2 * p) == w % (2 * p)
    ensures v % 2 == w % 2 && (v / 2) % p == (w / 2) % p
  {
    HalfMod(v, p);
    HalfMod(w, p);
  }

  lemma HalfMod(v: nat, p: nat)
    requires p > 0
    ensures v % 2 == v % (2 * p) % 2 && (v / 2) % p == v % (2 * p) / 2
  {
    var q, r := v / (2 * p), v % (2 * p);
    assert v == (2 * p) * q + r;
    Associate(2, p, q);
    assert v == 2 * (p * q) + r;
    assert v / 2 == p * q + r / 2;
    QuotientUnique(v / 2, p, q, r / 2);
  }

  function Ones(n: nat): seq<bool> { seq(n, _ => true) }
  function Low(n: nat): (z: seq<bool>) ensures |z| == n { seq(n, _ => false) }
}
