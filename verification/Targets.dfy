/** Target arithmetic on 256-bit big-endian byte strings (miner/stratum.c, miner/work_item.c). */
module Targets {
  import opened Words
  import HostCheck

  // ---------------------------------------------------------------- single bits

  /** Bit pos, counted from the least significant end, of a big-endian number. */
  function BitOf(s: seq<Byte>, pos: nat): nat
    requires pos / 8 < |s|
  {
    s[|s| - 1 - pos / 8] / Pow2(pos % 8) % 2
  }

  lemma BitIsDigit(s: seq<Byte>, pos: nat)
    requires pos / 8 < |s|
    ensures BitOf(s, pos) == BE(s) / Pow2(pos) % 2
  {
    hide BE, Pow2, Pow256;
    var k, e := pos / 8, pos % 8;
    var j := |s| - 1 - k;
    var high := BE(s[..j]) * 256 + s[j];
    DropBytes(s, k);
    DivDiv(BE(s), Pow256(k), Pow2(e));
    PlacePower(pos);
    HighBits(BE(s[..j]), s[j], e);
  }

  lemma DropBytes(s: seq<Byte>, k: nat)
    requires k < |s|
    ensures var j := |s| - 1 - k;
            BE(s) / Pow256(k) == BE(s[..j]) * 256 + s[j]
  {
    hide BE, Pow256;
    var j := |s| - 1 - k;
    HostCheck.SplitAt(s, j);
    BEBound(s[j + 1..]);
    QuotientUnique(BE(s), Pow256(k), BE(s[..j]) * 256 + s[j], BE(s[j + 1..]));
  }

  lemma PlacePower(pos: nat)
    ensures Pow256(pos / 8) * Pow2(pos % 8) == Pow2(pos)
  {
    Pow256IsPow2(pos / 8);
    Pow2Split(pos, 8 * (pos / 8));
  }

  lemma HighBits(high: nat, x: Byte, e: nat)
    requires e < 8
    ensures (high * 256 + x) / Pow2(e) % 2 == x / Pow2(e) % 2
  {
    var p, w := Pow2(e), Pow2(7 - e);
    assert p * (2 * w) == 256 by {
      Pow2Split(8, e);
      assert Pow2(8) == 256;
      PowStep(7 - e);
    }
    HighPart(high, x, p, w);
  }

  lemma HighPart(high: nat, x: nat, p: nat, w: nat)
    requires p > 0 && p * (2 * w) == 256
    ensures (high * 256 + x) / p % 2 == x / p % 2
  {
    HighSum(high, p, w, x / p);
    QuotientUnique(high * 256 + x, p, 2 * (w * high) + x / p, x % p);
    EvenPart(w * high, x / p);
  }

  lemma HighSum(high: nat, p: nat, w: nat, t: nat)
    ensures p * (2 * (w * high) + t) == p * (2 * w) * high + p * t
  {
    Associate(p, 2 * w, high);
    Associate(2, w, high);
    Distribute(p, 2 * (w * high), t);
  }

  lemma EvenPart(h: nat, t: nat)
    ensures (2 * h + t) % 2 == t % 2
  {
  }

  lemma PowStep(k: nat)
    ensures Pow2(k + 1) == 2 * Pow2(k)
  {
  }

  /** x | (1 << e). */
  function OrBit(x: Byte, e: nat): Byte
    requires e < 8
  {
    OrBitFits(x, e);
    if x / Pow2(e) % 2 == 1 then x else x + Pow2(e)
  }

  lemma OrBitFits(x: Byte, e: nat)
    requires e < 8
    ensures x / Pow2(e) % 2 == 0 ==> x + Pow2(e) < 256
  {
    assert Pow2(0) == 1 && Pow2(1) == 2 && Pow2(2) == 4 && Pow2(3) == 8;
    assert Pow2(4) == 16 && Pow2(5) == 32 && Pow2(6) == 64 && Pow2(7) == 128;
    if e == 0 { } else if e == 1 { } else if e == 2 { } else if e == 3 { }
    else if e == 4 { } else if e == 5 { } else if e == 6 { } else { assert e == 7; }
  }

  /** out[byte] |= 1 << bit, in place: adds the digit's power when it was clear, and nothing when it was set. */
  method SetBit(out: array<Byte>, byte: nat, bit: nat)
    requires out.Length == 32 && byte < 32 && bit < 8
    modifies out
    ensures var pos, was := 8 * (31 - byte) + bit, BE(old(out[..]));
            BE(out[..]) == if was / Pow2(pos) % 2 == 0 then was + Pow2(pos) else was
  {
    hide BE;
    ghost var s, pos := out[..], 8 * (31 - byte) + bit;
    out[byte] := OrBit(out[byte], bit);
    assert out[..] == s[byte := OrBit(s[byte], bit)];
    BitIsDigit(s, pos);
    if BE(s) / Pow2(pos) % 2 == 0 {
      PutAt(s, byte, s[byte] + Pow2(bit));
      PlacePower(pos);
    } else {
      assert out[..] == s;
    }
  }

  lemma PutAt(s: seq<Byte>, j: nat, x: Byte)
    requires j < |s| && x >= s[j]
    ensures BE(s[j := x]) == BE(s) + Pow256(|s| - 1 - j) * (x - s[j])
  {
    hide BE;
    var t := s[j := x];
    HostCheck.SplitAt(s, j);
    HostCheck.SplitAt(t, j);
    assert t[..j] == s[..j] && t[j + 1..] == s[j + 1..];
    var w := Pow256(|s| - 1 - j);
    assert (BE(s[..j]) * 256 + x) * w == (BE(s[..j]) * 256 + s[j]) * w + w * (x - s[j]);
  }

  // ---------------------------------------------------------------- bn_div_u64

  /** Quotient and remainder after the first i of 256 bits, with the C code's 64-bit remainder:
      the shift drops its top bit. */
  function DivLoop(n: nat, d: U64, i: nat): (nat, nat)
    requires i <= 256
  {
    if i == 0 then (0, 0)
    else
      var (q, r) := DivLoop(n, d, i - 1);
      var s := r * 2 % TWO64 + n / Pow2(256 - i) % 2;
      if s >= d then (2 * q + 1, s - d) else (2 * q, s)
  }

  /** The 256-bit quotient bn_div_u64 leaves in its output; zero for a zero divisor. */
  function DivSpec(n: nat, d: U64): nat {
    if d == 0 then 0 else DivLoop(n, d, 256).0
  }

  /** bn_div_u64, for every divisor. */
  method BnDiv(num: Bytes32, divisor: U64, out: array<Byte>)
    requires out.Length == 32
    modifies out
    ensures BE(out[..]) == DivSpec(BE(num), divisor)
  {
    hide BE, BitOf, DivLoop, Pow2;
    var rem: U64 := 0;
    for i := 0 to 32
      invariant forall k :: 0 <= k < i ==> out[k] == 0
    {
      out[i] := 0;
    }
    AllZero(out[..]);
    if divisor == 0 { return; }
    ghost var n := BE(num);
    DivStart(n, divisor);
    for i := 0 to 256
      invariant rem as int == DivLoop(n, divisor, i).1
      invariant BE(out[..]) == DivLoop(n, divisor, i).0 * Pow2(256 - i)
    {
      var byte, bit := i / 8, 7 - i % 8;
      assert 8 * (31 - byte) + bit == 255 - i;
      DivStep(num, divisor, i, rem);
      rem := rem * 2 % TWO64 + num[byte] / Pow2(bit) % 2;
      if rem >= divisor {
        rem := rem - divisor;
        SetBit(out, byte, bit);
      }
    }
    PowZero();
  }

  /** One turn of the loop: the shifted remainder fits, and the quotient so far leaves the next
      digit clear. */
  lemma DivStep(num: Bytes32, d: U64, i: nat, rem: U64)
    requires d > 0 && i < 256 && rem as int == DivLoop(BE(num), d, i).1
    ensures var (q, _) := DivLoop(BE(num), d, i);
            var s := rem * 2 % TWO64 + num[i / 8] / Pow2(7 - i % 8) % 2;
            && 0 <= s < TWO64
            && DivLoop(BE(num), d, i + 1) == (if s >= d then (2 * q + 1, s - d) else (2 * q, s))
            && q * Pow2(256 - i) == 2 * q * Pow2(255 - i)
            && q * Pow2(256 - i) / Pow2(255 - i) % 2 == 0
            && q * Pow2(256 - i) + Pow2(255 - i) == (2 * q + 1) * Pow2(255 - i)
  {
    hide BE, BitOf, DivLoop, Pow2;
    var byte, bit, pos: nat := i / 8, 7 - i % 8, 255 - i;
    BitIsDigit(num, pos);
    DigitBit(num, pos, byte, bit);
    DivNext(BE(num), d, i);
    ShiftOrFits(rem, num[byte] / Pow2(bit));
    EvenThere(DivLoop(BE(num), d, i).0, pos);
  }

  lemma DigitBit(num: Bytes32, pos: nat, byte: nat, bit: nat)
    requires byte < 32 && bit < 8 && pos < 256 && pos / 8 == 31 - byte && pos % 8 == bit
    ensures BitOf(num, pos) == num[byte] / Pow2(bit) % 2
  {
  }

  lemma ShiftOrFits(r: U64, b: nat)
    ensures r * 2 % TWO64 + b % 2 < TWO64
  {
  }

  lemma {:induction false} AllZero(s: seq<Byte>)
    requires forall k :: 0 <= k < |s| ==> s[k] == 0
    ensures BE(s) == 0
  {
    if s != [] { AllZero(s[..|s| - 1]); }
  }

  lemma DivStart(n: nat, d: U64)
    ensures DivLoop(n, d, 0) == (0, 0)
  {
  }

  lemma DivNext(n: nat, d: U64, i: nat)
    requires i < 256
    ensures var (q, r) := DivLoop(n, d, i);
            var s := r * 2 % TWO64 + n / Pow2(255 - i) % 2;
            DivLoop(n, d, i + 1) == if s >= d then (2 * q + 1, s - d) else (2 * q, s)
  {
    hide Pow2;
  }

  /** A number that is a multiple of 2^(pos+1) has digit pos clear. */
  lemma EvenThere(q: nat, pos: nat)
    ensures q * Pow2(pos + 1) == 2 * q * Pow2(pos)
    ensures q * Pow2(pos + 1) / Pow2(pos) % 2 == 0
    ensures q * Pow2(pos + 1) + Pow2(pos) == (2 * q + 1) * Pow2(pos)
  {
    var p := Pow2(pos);
    assert q * (2 * p) == (2 * q) * p;
    QuotientUnique(q * (2 * p), p, 2 * q, 0);
  }

  const HALF: nat := 0x8000_0000_0000_0000

  /** The number the first k of 256 bits spell. */
  function Leading(n: nat, k: nat): nat
    requires k <= 256
  {
    hide Pow2;
    n / Pow2(256 - k)
  }

  /** No remainder met while the first i bits are worked off reaches 2^63, so that doubling it
      loses nothing. */
  ghost predicate KeepsBits(n: nat, d: U64, i: nat)
    requires d > 0 && i <= 256
  {
    forall k :: 0 <= k < i ==> Leading(n, k) % d < HALF
  }

  lemma NextBit(n: nat, i: nat)
    requires 0 < i <= 256
    ensures Leading(n, i) == 2 * Leading(n, i - 1) + n / Pow2(256 - i) % 2
  {
    hide Pow2;
    HalveUp(n, 256 - i);
  }

  lemma LeadingEnds(n: nat)
    ensures Leading(n, 256) == n
    ensures n < Pow2(256) ==> Leading(n, 0) == 0
  {
    PowZero();
    if n < Pow2(256) {
      hide Pow2;
      QuotientUnique(n, Pow2(256), 0, n);
    }
  }

  /** As long as that holds, quotient and remainder are exact. */
  lemma {:induction false} ExactWhileKept(n: nat, d: U64, i: nat)
    requires d > 0 && i <= 256 && n < Pow2(256) && KeepsBits(n, d, i)
    ensures DivLoop(n, d, i) == (Leading(n, i) / d, Leading(n, i) % d)
  {
    hide Pow2, Leading, DivLoop;
    if i == 0 {
      LeadingEnds(n);
      DivStart(n, d);
    } else {
      ExactWhileKept(n, d, i - 1);
      DivNext(n, d, i - 1);
      NextBit(n, i);
      assert Leading(n, i - 1) % d < HALF;
      NextDigit(d, Leading(n, i - 1), Leading(n, i - 1) / d, Leading(n, i - 1) % d, n / Pow2(256 - i) % 2);
    }
  }

  lemma NextDigit(d: nat, m: nat, q: nat, r: nat, b: nat)
    requires d > 0 && q == m / d && r == m % d && r < HALF && b < 2
    ensures var s := r * 2 % TWO64 + b;
            ((2 * m + b) / d, (2 * m + b) % d) == if s >= d then (2 * q + 1, s - d) else (2 * q, s)
  {
    NoOverflow(r);
    TrueDigit(d, m, q, r, b);
  }

  lemma NoOverflow(r: nat)
    requires r < HALF
    ensures r * 2 % TWO64 == 2 * r
  {
  }

  /** Once a bit is lost the quotient stays short of the true one. */
  lemma {:induction false} ShortOnceLost(n: nat, d: U64, i: nat)
    requires d > 0 && i <= 256 && n < Pow2(256) && !KeepsBits(n, d, i)
    ensures DivLoop(n, d, i).0 < Leading(n, i) / d && DivLoop(n, d, i).1 < d
  {
    hide Pow2, Leading, DivLoop, KeepsBits;
    KeepsOneMore(n, d, i);
    DivNext(n, d, i - 1);
    NextBit(n, i);
    var m, b := Leading(n, i - 1), n / Pow2(256 - i) % 2;
    var (q, r) := DivLoop(n, d, i - 1);
    if KeepsBits(n, d, i - 1) {
      ExactWhileKept(n, d, i - 1);
      FallsShort(d, m, q, r, b);
    } else {
      ShortOnceLost(n, d, i - 1);
      StaysShort(d, m, q, r, b);
    }
  }

  lemma KeepsOneMore(n: nat, d: U64, i: nat)
    requires d > 0 && i <= 256 && !KeepsBits(n, d, i)
    ensures i > 0 && (KeepsBits(n, d, i - 1) ==> Leading(n, i - 1) % d >= HALF)
  {
    hide Leading;
  }

  lemma FallsShort(d: U64, m: nat, q: nat, r: nat, b: nat)
    requires d > 0 && q == m / d && r == m % d && r >= HALF && b < 2
    ensures var s := r * 2 % TWO64 + b;
            s < d && 2 * q < (2 * m + b) / d
  {
    LostDigit(d, r, b);
    TrueDigit(d, m, q, r, b);
  }

  lemma StaysShort(d: U64, m: nat, q: nat, r: nat, b: nat)
    requires d > 0 && q < m / d && r < d && b < 2
    ensures var s := r * 2 % TWO64 + b;
            s - d < d && 2 * q + 1 < (2 * m + b) / d
  {
    TrueDigit(d, m, m / d, m % d, b);
    Shrinks(r);
  }

  lemma Shrinks(r: nat)
    ensures r * 2 % TWO64 <= r * 2
  {
    RestAtMost(r * 2, TWO64);
  }

  lemma TrueDigit(d: nat, m: nat, q: nat, r: nat, b: nat)
    requires d > 0 && q == m / d && r == m % d && b < 2
    ensures var s := 2 * r + b;
            ((2 * m + b) / d, (2 * m + b) % d) == if s >= d then (2 * q + 1, s - d) else (2 * q, s)
  {
    assert m == d * q + r;
    DoubledProduct(d, q);
    var s := 2 * r + b;
    if s >= d { QuotientUnique(2 * m + b, d, 2 * q + 1, s - d); } else { QuotientUnique(2 * m + b, d, 2 * q, s); }
  }

  lemma DoubledProduct(d: nat, q: nat)
    ensures d * (2 * q) == 2 * (d * q) && d * (2 * q + 1) == 2 * (d * q) + d
  {
    Associate(d, 2, q);
    Associate(2, d, q);
    Distribute(d, 2 * q, 1);
  }

  /** A remainder of 2^63 or more, doubled in 64 bits, misses the digit it should have set. */
  lemma LostDigit(d: U64, r: nat, b: nat)
    requires HALF <= r < d && b < 2
    ensures r * 2 % TWO64 + b < d && 2 * r + b >= d
  {
  }

  lemma HalveUp(n: nat, p: nat)
    ensures n / Pow2(p) == 2 * (n / Pow2(p + 1)) + n / Pow2(p) % 2
  {
    DivDiv(n, Pow2(p), 2);
    assert Pow2(p) * 2 == Pow2(p + 1);
  }

  /** For every dividend and divisor: the quotient is never too large, and it is exact if and
      only if no remainder on the way reaches 2^63. */
  lemma QuotientExactIff(n: nat, d: U64)
    requires d > 0 && n < Pow2(256)
    ensures DivSpec(n, d) <= n / d
    ensures DivSpec(n, d) == n / d <==> KeepsBits(n, d, 256)
  {
    hide DivLoop, Pow2, Leading, KeepsBits;
    LeadingEnds(n);
    if KeepsBits(n, d, 256) { ExactWhileKept(n, d, 256); } else { ShortOnceLost(n, d, 256); }
  }

  /** bn_div_u64 divides exactly for divisors from 1 to 2^63. */
  lemma DivExact(n: nat, d: U64)
    requires 1 <= d <= HALF && n < Pow2(256)
    ensures DivSpec(n, d) == n / d
  {
    hide DivSpec, Pow2, Leading;
    forall k | 0 <= k < 256
      ensures Leading(n, k) % d < HALF
    {
    }
    QuotientExactIff(n, d);
  }

  lemma PowZero()
    ensures Pow2(0) == 1
  {
  }

  /** Exactly which divisors bn_div_u64 divides by correctly, whatever the dividend: above 2^63
      the dividend 2^64 goes wrong. */
  lemma DivExactIff(d: U64)
    requires d > 0
    ensures (forall n: nat :: n < Pow2(256) ==> DivSpec(n, d) == n / d) <==> d <= HALF
  {
    hide DivSpec, Pow2;
    if d <= HALF {
      forall n: nat | n < Pow2(256)
        ensures DivSpec(n, d) == n / d
      {
        DivExact(n, d);
      }
    } else {
      TooLarge(d);
    }
  }

  lemma TooLarge(d: U64)
    requires d > HALF
    ensures TWO64 < Pow2(256) && DivSpec(TWO64, d) != TWO64 / d
  {
    hide DivSpec, Pow2, KeepsBits;
    assert TWO64 < Pow2(256) by { WidthValues(); }
    QuotientExactIff(TWO64, d);
    LosesOne(d);
  }

  lemma LosesOne(d: U64)
    requires d > HALF
    ensures !KeepsBits(TWO64, d, 256)
  {
    hide Leading;
    HalfOfIt();
    QuotientUnique(HALF, d, 0, HALF);
    assert Leading(TWO64, 255) % d == HALF;
  }

  lemma HalfOfIt()
    ensures Leading(TWO64, 255) == HALF
  {
    assert Pow2(1) == 2;
  }

  // ---------------------------------------------------------------- stratum target

  /** Difficulty 1: 0x00000000FFFF0000...00. */
  const DIFF1: nat := 0xFFFF * 0x1_0000_0000_0000_0000_0000_0000_0000_0000_0000_0000_0000_0000_0000

  const TWO224: nat := 0x1_0000_0000_0000_0000_0000_0000_0000_0000_0000_0000_0000_0000_0000_0000
  const TWO256: nat := TWO224 * TWO32

  lemma WidthValues()
    ensures Pow256(26) * 0x1_0000 == TWO224 && Pow256(28) == TWO224 && Pow256(32) == TWO256 && Pow2(256) == TWO256
  {
    Pow256Values();
    HostCheck.Pow256Plus(8, 8);
    HostCheck.Pow256Plus(16, 8);
    HostCheck.Pow256Plus(24, 4);
    HostCheck.Pow256Plus(28, 4);
    assert Pow256(28) == 256 * (256 * Pow256(26));
    Pow256IsPow2(32);
  }

  /** bn_shl32: drop the top four bytes, append four zeros. */
  method BnShl32(num: Bytes32) returns (out: Bytes32)
    ensures BE(out) == BE(num) * TWO32 % TWO256
  {
    out := num[4..] + [0, 0, 0, 0];
    ShiftedValue(num);
  }

  lemma ShiftedValue(num: Bytes32)
    ensures BE(num[4..] + [0, 0, 0, 0]) == BE(num) * TWO32 % TWO256
  {
    hide BE;
    var zeros: seq<Byte> := [0, 0, 0, 0];
    var top, low := BE(num[..4]), BE(num[4..]);
    BEConcat(num[4..], zeros);
    AllZero(zeros);
    assert num == num[..4] + num[4..];
    BEConcat(num[..4], num[4..]);
    BEBound(num[4..]);
    WidthValues();
    Pow256Values();
    assert BE(num) * TWO32 == TWO256 * top + low * TWO32;
    QuotientUnique(BE(num) * TWO32, TWO256, top, low * TWO32);
  }

  function Diff1Bytes(): (b: Bytes32) {
    [0, 0, 0, 0, 0xff, 0xff] + seq(26, _ => 0)
  }

  lemma Diff1Value()
    ensures BE(Diff1Bytes()) == DIFF1
  {
    var head: seq<Byte> := [0, 0, 0, 0, 0xff, 0xff];
    var zeros: seq<Byte> := seq(26, _ => 0);
    assert BE(head) == 0xFFFF by {
      assert head[..5] == [0, 0, 0, 0, 0xff];
      assert head[..5][..4] == [0, 0, 0, 0];
      AllZero([0, 0, 0, 0]);
    }
    AllZero(zeros);
    BEConcat(head, zeros);
    WidthValues();
  }

  /** The difficulty, already scaled by 2^32; zero is replaced by one as the code does. */
  function Scaled(dscaled: U64): (d: U64)
    ensures d > 0
  {
    if dscaled == 0 then 1 else dscaled
  }

  /** The target the difficulty stands for, rounded down to a multiple of 2^32. */
  function TargetValue(dscaled: U64): nat { DIFF1 / Scaled(dscaled) * TWO32 }

  /** The target the host computes. */
  function HostTarget(dscaled: U64): nat {
    hide DivSpec;
    DivSpec(DIFF1, Scaled(dscaled)) * TWO32
  }

  /** stratum_target_full after the floating-point scaling, for every scaled difficulty: nothing
      is lost by the shift. */
  method TargetFull(dscaled: U64) returns (out: Bytes32)
    ensures BE(out) == HostTarget(dscaled)
  {
    hide BE, DivSpec;
    var q := new Byte[32];
    BnDiv(Diff1Bytes(), Scaled(dscaled), q);
    Diff1Value();
    HostQuotient(Scaled(dscaled));
    out := BnShl32(q[..]);
    ShiftKeepsAll(DivSpec(DIFF1, Scaled(dscaled)));
  }

  lemma HostQuotient(d: U64)
    requires d > 0
    ensures DIFF1 < Pow2(256)
    ensures DivSpec(DIFF1, d) <= DIFF1 / d <= DIFF1
    ensures DivSpec(DIFF1, d) == DIFF1 / d <==> KeepsBits(DIFF1, d, 256)
  {
    hide DivSpec, Pow2, KeepsBits;
    WidthValues();
    QuotientExactIff(DIFF1, d);
    QuotientSmaller(DIFF1, d);
  }

  lemma ShiftKeepsAll(q: nat)
    requires q <= DIFF1
    ensures q * TWO32 % TWO256 == q * TWO32
  {
  }

  /** stratum_target_top64. */
  method TargetTop64(dscaled: U64) returns (v: U64)
    ensures v as nat == HostTarget(dscaled) / HostCheck.TWO192
  {
    hide BE, HostTarget;
    var t := TargetFull(dscaled);
    v := HostCheck.FoldBig(t, 0);
    HostCheck.TopWord(t);
  }

  /** 0xFFFF doubled j times. */
  function Doubled(j: nat): nat {
    hide Pow2;
    0xFFFF * Pow2(j)
  }

  /** The host's target never exceeds the one the difficulty stands for, and equals it if and
      only if none of 0xFFFF doubled up to 207 times leaves a remainder of 2^63 or more; up to
      2^63 none can. */
  lemma TargetExactIff(dscaled: U64)
    ensures HostTarget(dscaled) <= TargetValue(dscaled)
    ensures HostTarget(dscaled) == TargetValue(dscaled)
       <==> forall j :: 0 <= j <= 207 ==> Doubled(j) % Scaled(dscaled) < HALF
    ensures Scaled(dscaled) <= HALF ==> HostTarget(dscaled) == TargetValue(dscaled)
  {
    hide DivSpec, Pow2, Leading, Doubled, Scaled;
    var d := Scaled(dscaled);
    HostQuotient(d);
    KeptIffDoublings(d);
    if d <= HALF { DivExact(DIFF1, d); }
  }

  lemma KeptIffDoublings(d: U64)
    requires d > 0
    ensures KeepsBits(DIFF1, d, 256) <==> forall j :: 0 <= j <= 207 ==> Doubled(j) % d < HALF
  {
    hide Pow2, Leading, Doubled;
    if KeepsBits(DIFF1, d, 256) {
      forall j | 0 <= j <= 207
        ensures Doubled(j) % d < HALF
      {
        LeadingDiff1(48 + j);
        assert Leading(DIFF1, 48 + j) % d < HALF;
      }
    }
    if forall j :: 0 <= j <= 207 ==> Doubled(j) % d < HALF {
      forall k | 0 <= k < 256
        ensures Leading(DIFF1, k) % d < HALF
      {
        LeadingDiff1(k);
        if k >= 48 { assert Doubled(k - 48) % d < HALF; } else { RestAtMost(Leading(DIFF1, k), d); }
      }
    }
  }

  lemma LeadingDiff1(k: nat)
    requires k <= 256
    ensures if k >= 48 then Leading(DIFF1, k) == Doubled(k - 48) else Leading(DIFF1, k) <= 0xFFFF
  {
    hide Pow2;
    assert Pow2(208) == DIFF1 / 0xFFFF by {
      WidthValues();
      Pow256IsPow2(26);
    }
    if k >= 48 {
      Pow2Split(208, 256 - k);
      var p, w := Pow2(256 - k), Pow2(k - 48);
      Associate(0xFFFF, p, w);
      QuotientUnique(DIFF1, p, 0xFFFF * w, 0);
    } else {
      Pow2Split(256 - k, 208);
      var p, w := Pow2(208), Pow2(48 - k);
      DivDiv(DIFF1, p, w);
      QuotientUnique(DIFF1, p, 0xFFFF, 0);
      QuotientSmaller(0xFFFF, w);
    }
  }

  /** The host's target is zero exactly above 0xFFFF000000000000: from there on the remainder runs
      out of the top of its word before it reaches the divisor. Every difficulty stands for more. */
  lemma TargetVanishes(dscaled: U64)
    ensures HostTarget(dscaled) == 0 <==> dscaled > FIRST96
    ensures TargetValue(dscaled) > 0
  {
    hide DivLoop, Pow2;
    var d := Scaled(dscaled);
    DifficultyFits(d);
    if dscaled > FIRST96 {
      ZeroTail(d, 256);
    } else if d > HALF {
      FirstHalf(d);
      QuotientGrows(DIFF1, d, 96, 256);
      AtLeastOne(FIRST96, d);
    } else {
      DivExact(DIFF1, d);
    }
  }

  lemma DifficultyFits(d: U64)
    requires d > 0
    ensures DIFF1 / d > 0 && DIFF1 < Pow2(256)
  {
    hide Pow2;
    WidthValues();
    AtLeastOne(DIFF1, d);
  }

  lemma AtLeastOne(n: nat, d: nat)
    requires 0 < d <= n
    ensures n / d > 0
  {
  }

  lemma {:induction false} QuotientGrows(n: nat, d: U64, i: nat, j: nat)
    requires i <= j <= 256
    ensures DivLoop(n, d, j).0 >= DivLoop(n, d, i).0
  {
    hide Pow2, DivLoop;
    if i < j {
      QuotientGrows(n, d, i, j - 1);
      DivNext(n, d, j - 1);
    }
  }

  const UNIT: nat := 0x1_0000_0000_0000

  /** What the first 96 of its 256 bits spell. */
  const FIRST96: nat := 0xFFFF * UNIT

  /** Until the low end of 0xFFFF is worked off nothing is lost, whatever the divisor. */
  lemma FirstHalf(d: U64)
    requires d > HALF
    ensures DivLoop(DIFF1, d, 96) == (FIRST96 / d, FIRST96 % d)
  {
    hide DivLoop, Pow2, Leading;
    forall k | 0 <= k < 96
      ensures Leading(DIFF1, k) % d < HALF
    {
      LeadingDiff1(k);
      if k >= 48 { DoubledSmall(k - 48); }
      RestAtMost(Leading(DIFF1, k), d);
    }
    assert DIFF1 < Pow2(256) by { WidthValues(); }
    ExactWhileKept(DIFF1, d, 96);
    LeadingDiff1(96);
    DoubledSmall(48);
  }

  lemma DoubledSmall(j: nat)
    requires j <= 48
    ensures j < 48 ==> Doubled(j) < HALF
    ensures j == 48 ==> Doubled(j) == FIRST96
  {
    hide Pow2;
    assert Pow2(48) == 0x1_0000_0000_0000 by {
      Pow2Values();
      Pow2Split(48, 16);
    }
    Pow2Split(48, j);
    if j < 48 {
      assert Pow2(48 - j) == 2 * Pow2(47 - j) by { PowStep(47 - j); }
      MulMonotone(Pow2(j), 2, Pow2(48 - j));
    }
  }

  /** From there on the remainder is 2^64 less a power of two that soon fills the word. */
  lemma {:induction false} ZeroTail(d: U64, i: nat)
    requires d > FIRST96 && 96 <= i <= 256
    ensures DivLoop(DIFF1, d, i) == (0, if i < 112 then TWO64 - Pow2(i - 48) else 0)
    ensures i < 112 ==> UNIT <= Pow2(i - 48) <= HALF
  {
    hide DivLoop, Pow2;
    if i == 96 {
      FirstHalf(d);
      QuotientUnique(FIRST96, d, 0, FIRST96);
      assert Pow2(48) == UNIT by {
        Pow2Values();
        Pow2Split(48, 16);
      }
    } else {
      ZeroTail(d, i - 1);
      DivNext(DIFF1, d, i - 1);
      NoMoreBits(i);
      if i <= 112 {
        PowStep(i - 49);
        if i < 112 {
          PowersBelow(i - 48);
        } else {
          Pow2Values();
        }
      }
    }
  }

  lemma NoMoreBits(i: nat)
    requires 48 < i <= 256
    ensures DIFF1 / Pow2(256 - i) % 2 == 0
  {
    hide Pow2, Leading, Doubled;
    LeadingDiff1(i);
    LeadingDiff1(i - 1);
    NextBit(DIFF1, i);
    DoublesOnce(i - 49);
  }

  lemma DoublesOnce(j: nat)
    ensures Doubled(j + 1) == 2 * Doubled(j)
  {
    hide Pow2;
    PowStep(j);
  }

  lemma PowersBelow(k: nat)
    requires k <= 63
    ensures Pow2(k) <= HALF
  {
    hide Pow2;
    Pow2Values();
    PowStep(63);
    Pow2Split(63, k);
    MulMonotone(Pow2(k), 1, Pow2(63 - k));
  }

  /** The division from there on by a divisor that is a multiple of 2^48, in units of 2^48. */
  function Units(d: nat, j: nat): (nat, nat)
    requires d > 0
  {
    if j == 0 then (0xFFFF / d, 0xFFFF % d)
    else
      var (q, r) := Units(d, j - 1);
      var s := r * 2 % 0x1_0000;
      if s >= d then (2 * q + 1, s - d) else (2 * q, s)
  }

  lemma {:induction false} UnitsAreLoop(d: nat, j: nat)
    requires 0x8000 < d < 0x1_0000 && j <= 160
    ensures Units(d, j).1 < d
    ensures DivLoop(DIFF1, d * UNIT, 96 + j) == (Units(d, j).0, Units(d, j).1 * UNIT)
  {
    hide DivLoop, Pow2;
    if j == 0 {
      FirstHalf(d * UNIT);
      QuotientUnique(FIRST96, d * UNIT, 0xFFFF / d, 0xFFFF % d * UNIT);
    } else {
      UnitsAreLoop(d, j - 1);
      DivNext(DIFF1, d * UNIT, 95 + j);
      NoMoreBits(96 + j);
      InUnits(Units(d, j - 1).1);
    }
  }

  lemma InUnits(r: nat)
    ensures r * UNIT * 2 % TWO64 == r * 2 % 0x1_0000 * UNIT
  {
    var x := r * 2;
    QuotientUnique(x * UNIT, TWO64, x / 0x1_0000, x % 0x1_0000 * UNIT);
  }

  /** From there on the quotient at least doubles, and only doubles once nothing is left over. */
  lemma {:induction false} UnitsGrow(d: nat, i: nat, j: nat)
    requires d > 0 && i <= j
    ensures Units(d, j).0 >= Units(d, i).0 * Pow2(j - i)
    ensures Units(d, i).1 == 0 ==> Units(d, j) == (Units(d, i).0 * Pow2(j - i), 0)
  {
    hide Pow2;
    if i == j {
      PowZero();
    } else {
      UnitsGrow(d, i, j - 1);
      PowStep(j - 1 - i);
      Associate(Units(d, i).0, 2, Pow2(j - 1 - i));
      Associate(2, Units(d, i).0, Pow2(j - 1 - i));
    }
  }

  lemma QuotientFrom(d: nat, i: nat)
    requires 0x8000 < d < 0x1_0000 && i <= 160
    ensures HostTarget(d * UNIT) >= Units(d, i).0 * Pow2(160 - i) * TWO32
    ensures Units(d, i).1 == 0 ==> HostTarget(d * UNIT) == Units(d, i).0 * Pow2(160 - i) * TWO32
  {
    hide DivLoop, Pow2, Units;
    UnitsAreLoop(d, 160);
    UnitsGrow(d, i, 160);
  }

  /** Raising the pool difficulty from 3221159936 to 3221225472 raises the host's target. */
  lemma HigherIsLaxer()
    ensures HostTarget(0xBFFF * UNIT) < HostTarget(0xC000 * UNIT)
  {
    hide *;
    assert 0x8000 < 0xBFFF < 0xC000 < 0x1_0000;
    TwoSteps();
    QuotientFrom(0xBFFF, 2);
    QuotientFrom(0xC000, 2);
    FourBelowFive(Pow2(158));
  }

  lemma TwoSteps()
    ensures Units(0xBFFF, 2) == (4, 0) && Units(0xC000, 2).0 == 5
  {
  }

  lemma FourBelowFive(p: nat)
    requires p > 0
    ensures 4 * p * TWO32 < 5 * p * TWO32
  {
  }

  /** Where the host's target is what the difficulty stands for, no higher difficulty has a larger
      one; up to pool difficulty 2^31 that is everywhere. */
  lemma HostAntitone(d: U64, e: U64)
    requires d <= e
    ensures HostTarget(d) == TargetValue(d) ==> HostTarget(e) <= HostTarget(d)
    ensures Scaled(d) <= HALF ==> HostTarget(e) <= HostTarget(d)
  {
    hide HostTarget, TargetValue, Doubled;
    TargetExactIff(d);
    TargetExactIff(e);
    TargetAntitone(d, e);
  }

  /** The host's target never exceeds the rational DIFF1 * 2^32 / d, and undershoots it by less than
      2^32 exactly where it is what the difficulty stands for. */
  lemma HostNearRational(dscaled: U64)
    ensures var d, t := Scaled(dscaled), HostTarget(dscaled);
            && t * d <= DIFF1 * TWO32
            && (DIFF1 * TWO32 < (t + TWO32) * d <==> t == TargetValue(dscaled))
  {
    hide DivSpec, Scaled;
    var d, q := Scaled(dscaled), DivSpec(DIFF1, Scaled(dscaled));
    HostQuotient(d);
    TargetNearRational(dscaled);
    MulMonotone(d, q, DIFF1 / d);
    if q < DIFF1 / d { MulMonotone(d, q + 1, DIFF1 / d); }
    InTwo32(q, d);
  }

  lemma InTwo32(q: nat, d: nat)
    ensures q * TWO32 * d == d * q * TWO32
    ensures (q * TWO32 + TWO32) * d == d * (q + 1) * TWO32
  {
  }

  /** The higher the difficulty, the smaller the target it stands for. */
  lemma TargetAntitone(d: U64, e: U64)
    requires d <= e
    ensures TargetValue(e) <= TargetValue(d)
  {
    DivAntitone(DIFF1, Scaled(d), Scaled(e));
  }

  lemma DivAntitone(n: nat, d: nat, e: nat)
    requires 0 < d <= e
    ensures n / e <= n / d
  {
    var p, q := n / d, n / e;
    if q > p {
      MulMonotone(d, p + 1, q);
      MulMonotone(q, d, e);
    }
  }

  /** What a difficulty stands for undershoots the rational DIFF1 * 2^32 / d by less than 2^32. */
  lemma TargetNearRational(dscaled: U64)
    ensures var d := Scaled(dscaled);
            TargetValue(dscaled) * d <= DIFF1 * TWO32 < (TargetValue(dscaled) + TWO32) * d
  {
    var d := Scaled(dscaled);
    var q := DIFF1 / d;
    assert DIFF1 == d * q + DIFF1 % d;
    assert d * (q + 1) == d * q + d;
    assert q * TWO32 * d == (d * q) * TWO32;
    assert (q * TWO32 + TWO32) * d == (d * (q + 1)) * TWO32;
  }

  /** The target of a pool that divides without rounding: DIFF1 over the difficulty. */
  function PoolTarget(dscaled: U64): nat { DIFF1 * TWO32 / Scaled(dscaled) }

  /** The host is never laxer than such a pool, and where its division is exact it is stricter by
      less than 2^32. */
  lemma HostNearPool(dscaled: U64)
    ensures HostTarget(dscaled) <= PoolTarget(dscaled)
    ensures HostTarget(dscaled) == TargetValue(dscaled) ==> PoolTarget(dscaled) < HostTarget(dscaled) + TWO32
  {
    hide HostTarget, Doubled, Scaled, TargetValue;
    TargetExactIff(dscaled);
    TargetNearRational(dscaled);
    FloorBetween(DIFF1 * TWO32, Scaled(dscaled), TargetValue(dscaled), TargetValue(dscaled) + TWO32);
  }

  lemma FloorBetween(m: nat, d: nat, lo: nat, hi: nat)
    requires d > 0 && lo * d <= m < hi * d
    ensures lo <= m / d < hi
  {
    var q := m / d;
    assert m == d * q + m % d;
    if q < lo { MulMonotone(d, q + 1, lo); }
    if q >= hi { MulMonotone(d, hi, q); }
  }

  // ---------------------------------------------------------------- compact targets

  function Exponent(nBits: U32): nat { nBits / 0x100_0000 }
  function Mantissa(nBits: U32): nat { nBits % 0x80_0000 }
  predicate Negative(nBits: U32) { nBits / 0x80_0000 % 2 == 1 }

  /** compact_to_target of the reference for a non-negative encoding. */
  function CompactToTarget(nBits: U32): nat {
    hide Pow2;
    var e := Exponent(nBits);
    if e <= 3 then Mantissa(nBits) / Pow2(8 * (3 - e)) else Mantissa(nBits) * Pow2(8 * (e - 3))
  }

  /** The target value once the b low mantissa bits are placed. */
  ghost function Placed(mant: nat, b: nat, bitpos: nat): nat {
    mant % Pow2(b) * Pow2(bitpos) % Pow2(256)
  }

  /** compact_to_target_shifted: every mantissa bit placed on its own, those past bit 255
      dropped. */
  method CompactToTargetShifted(nBits: U32, shift: U32) returns (out: array<Byte>)
    ensures fresh(out) && out.Length == 32
    ensures BE(out[..]) == if Negative(nBits) then 0 else CompactToTarget(nBits) * Pow2(shift) % Pow2(256)
  {
    hide BE, Pow2, Placed, CompactToTarget;
    var exp, mant := Exponent(nBits), Mantissa(nBits);
    out := new Byte[32](_ => 0);
    AllZero(out[..]);
    if Negative(nBits) { return; }
    var bitpos := shift;
    if exp <= 3 {
      mant := mant / Pow2(8 * (3 - exp));
    } else {
      bitpos := 8 * (exp - 3) + shift;
    }
    MantissaPlaced(nBits, shift, mant, bitpos);
    NoBitsYet(mant, bitpos);
    for b := 0 to 24
      invariant BE(out[..]) == Placed(mant, b, bitpos)
    {
      var bit := mant / Pow2(b) % 2;
      if bit != 0 {
        var pos := bitpos + b;
        PlaceBit(mant, b, bitpos);
        if pos < 256 {
          SetBit(out, 31 - pos / 8, pos % 8);
        }
      } else {
        SkipBit(mant, b, bitpos);
      }
    }
    MantissaDone(mant, bitpos, nBits);
  }

  lemma MantissaPlaced(nBits: U32, shift: U32, mant: nat, bitpos: nat)
    requires if Exponent(nBits) <= 3 then
               mant == Mantissa(nBits) / Pow2(8 * (3 - Exponent(nBits))) && bitpos == shift
             else mant == Mantissa(nBits) && bitpos == 8 * (Exponent(nBits) - 3) + shift
    ensures mant * Pow2(bitpos) == CompactToTarget(nBits) * Pow2(shift) && mant <= Mantissa(nBits)
  {
    hide Pow2, Exponent, Mantissa;
    if Exponent(nBits) > 3 {
      ShiftTwice(mant, 8 * (Exponent(nBits) - 3), shift);
    } else {
      QuotientSmaller(Mantissa(nBits), Pow2(8 * (3 - Exponent(nBits))));
    }
  }

  lemma ShiftTwice(m: nat, a: nat, b: nat)
    ensures m * Pow2(a + b) == m * Pow2(a) * Pow2(b)
  {
    hide Pow2;
    Pow2Split(a + b, a);
    Associate(m, Pow2(a), Pow2(b));
  }

  lemma NoBitsYet(mant: nat, bitpos: nat)
    ensures Placed(mant, 0, bitpos) == 0
  {
    hide Pow2;
    PowZero();
    QuotientUnique(0, Pow2(256), 0, 0);
  }

  lemma NextMantissaBit(mant: nat, b: nat)
    ensures mant % Pow2(b + 1) == mant % Pow2(b) + mant / Pow2(b) % 2 * Pow2(b)
  {
    SplitOff(mant, Pow2(b));
  }

  lemma SplitOff(m: nat, p: nat)
    requires p > 0
    ensures m % (2 * p) == m % p + m / p % 2 * p
  {
    var q, r := m / p, m % p;
    var d, s := q / 2, q % 2;
    Evenly(p, q, d, s);
    QuotientUnique(m, 2 * p, d, s * p + r);
  }

  lemma Evenly(p: nat, q: nat, d: nat, s: nat)
    requires q == 2 * d + s && s < 2
    ensures p * q == 2 * p * d + s * p && s * p <= p
  {
    Distribute(p, 2 * d, s);
    Associate(p, 2, d);
    if s == 0 { } else { assert s == 1; }
  }

  /** Below bit 256 the digit is clear and adding it stays in range; past it, nothing shows. */
  lemma PlaceBit(mant: nat, b: nat, bitpos: nat)
    requires mant / Pow2(b) % 2 == 1
    ensures var x, y := Placed(mant, b, bitpos), Placed(mant, b + 1, bitpos);
            if bitpos + b < 256 then x / Pow2(bitpos + b) % 2 == 0 && y == x + Pow2(bitpos + b) else y == x
  {
    hide Pow2;
    NextMantissaBit(mant, b);
    var p, w, pos := Pow2(b), Pow2(bitpos), bitpos + b;
    var r := mant % p;
    Pow2Split(pos, b);
    assert (r + p) * w == r * w + Pow2(pos);
    if pos < 256 {
      MulMonotone(w, r + 1, p);
      assert r * w < Pow2(pos);
      PowerDoubles(pos);
      QuotientUnique(r * w, Pow2(256), 0, r * w);
      QuotientUnique(r * w + Pow2(pos), Pow2(256), 0, r * w + Pow2(pos));
      QuotientUnique(r * w, Pow2(pos), 0, r * w);
    } else {
      Pow2Split(pos, 256);
      AddMultiple(r * w, Pow2(256), Pow2(pos - 256));
    }
  }

  lemma PowerDoubles(pos: nat)
    requires pos < 256
    ensures 2 * Pow2(pos) <= Pow2(256)
  {
    hide Pow2;
    PowStep(pos);
    Pow2Split(256, pos + 1);
    MulMonotone(Pow2(pos + 1), 1, Pow2(256 - (pos + 1)));
  }

  lemma AddMultiple(x: nat, d: nat, k: nat)
    requires d > 0
    ensures (x + d * k) % d == x % d
  {
    assert x + d * k == d * (x / d + k) + x % d;
    QuotientUnique(x + d * k, d, x / d + k, x % d);
  }

  lemma SkipBit(mant: nat, b: nat, bitpos: nat)
    requires mant / Pow2(b) % 2 == 0
    ensures Placed(mant, b + 1, bitpos) == Placed(mant, b, bitpos)
  {
    hide Pow2;
    NextMantissaBit(mant, b);
  }

  lemma MantissaDone(mant: nat, bitpos: nat, nBits: U32)
    requires mant <= Mantissa(nBits)
    ensures Placed(mant, 24, bitpos) == mant * Pow2(bitpos) % Pow2(256)
  {
    assert mant % Pow2(24) == mant by {
      Pow2Values();
      Pow2Plus8(16);
      QuotientUnique(mant, Pow2(24), 0, mant);
    }
    hide Pow2;
  }

  /** target_top64_from_bits: the top 64 bits of that target. */
  method TargetTop64FromBits(nBits: U32, shift: U32) returns (v: U64)
    ensures v as nat == if Negative(nBits) then 0
                        else CompactToTarget(nBits) * Pow2(shift) % Pow2(256) / HostCheck.TWO192
  {
    hide BE, Pow2;
    var t := CompactToTargetShifted(nBits, shift);
    v := HostCheck.FoldBig(t[..], 0);
    HostCheck.TopWord(t[..]);
  }
}
