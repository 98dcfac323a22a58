/** BLAKE2b: the functions of RFC 7693, sections 2.6 to 3.3, and the host's in-place
    implementation of them (miner/blake2b.c). */
module Blake2b {
  import opened Words

  type Chain = h: seq<U64> | |h| == 8 witness seq(8, _ => 0)
  type Work = v: seq<U64> | |v| == 16 witness seq(16, _ => 0)
  type Message = m: seq<U64> | |m| == 16 witness seq(16, _ => 0)

  const IV: Chain := [
    0x6a09e667f3bcc908, 0xbb67ae8584caa73b, 0x3c6ef372fe94f82b, 0xa54ff53a5f1d36f1,
    0x510e527fade682d1, 0x9b05688c2b3e6c1f, 0x1f83d9abfb41bd6b, 0x5be0cd19137e2179]

  type Row = r: seq<nat> | |r| == 16 && forall k :: 0 <= k < 16 ==> r[k] < 16 witness seq(16, _ => 0)

  const ROW0: Row := [0, 1, 2, 3, 4, 5, 6, 7, 8, 9, 10, 11, 12, 13, 14, 15]
  const ROW1: Row := [14, 10, 4, 8, 9, 15, 13, 6, 1, 12, 0, 2, 11, 7, 5, 3]
  const ROW2: Row := [11, 8, 12, 0, 5, 2, 15, 13, 10, 14, 3, 6, 7, 1, 9, 4]
  const ROW3: Row := [7, 9, 3, 1, 13, 12, 11, 14, 2, 6, 5, 10, 4, 0, 15, 8]
  const ROW4: Row := [9, 0, 5, 7, 2, 4, 10, 15, 14, 1, 11, 12, 6, 8, 3, 13]
  const ROW5: Row := [2, 12, 6, 10, 0, 11, 8, 3, 4, 13, 7, 5, 15, 14, 1, 9]
  const ROW6: Row := [12, 5, 1, 15, 14, 13, 4, 10, 0, 7, 6, 3, 9, 2, 8, 11]
  const ROW7: Row := [13, 11, 7, 14, 12, 1, 3, 9, 5, 0, 15, 4, 8, 6, 2, 10]
  const ROW8: Row := [6, 15, 14, 9, 11, 3, 0, 8, 12, 2, 13, 7, 1, 4, 10, 5]
  const ROW9: Row := [10, 2, 8, 4, 7, 6, 1, 5, 15, 11, 9, 14, 3, 12, 13, 0]

  /** The schedule of section 2.7. The C table spells out twelve rows; its last two repeat the
      first two, which is row r mod 10 of the standard. */
  const SIGMA: seq<Row> := [ROW0, ROW1, ROW2, ROW3, ROW4, ROW5, ROW6, ROW7, ROW8, ROW9, ROW0, ROW1]

  /** The message schedule of round r. */
  function Schedule(r: nat): Row { SIGMA[r % 10] }

  // ---------------------------------------------------------------- specification

  datatype Mixed = Mixed(a: U64, b: U64, c: U64, d: U64)

  /** The mixing function G of section 3.1 on four words. */
  function Mix(a: U64, b: U64, c: U64, d: U64, x: U64, y: U64): Mixed {
    var a1 := Add(Add(a, b), x);
    var d1 := Rotr(Xor(d, a1), 32);
    var c1 := Add(c, d1);
    var b1 := Rotr(Xor(b, c1), 24);
    var a2 := Add(Add(a1, b1), y);
    var d2 := Rotr(Xor(d1, a2), 16);
    var c2 := Add(c1, d2);
    var b2 := Rotr(Xor(b1, c2), 63);
    Mixed(a2, b2, c2, d2)
  }

  /** G applied to four positions of the work vector. */
  function GAt(v: Work, a: nat, b: nat, c: nat, d: nat, x: U64, y: U64): Work
    requires a < 16 && b < 16 && c < 16 && d < 16
  {
    var r := Mix(v[a], v[b], v[c], v[d], x, y);
    v[a := r.a][b := r.b][c := r.c][d := r.d]
  }

  function Columns(v: Work, m: Message, s: Row): Work {
    var v1 := GAt(v, 0, 4, 8, 12, m[s[0]], m[s[1]]);
    var v2 := GAt(v1, 1, 5, 9, 13, m[s[2]], m[s[3]]);
    var v3 := GAt(v2, 2, 6, 10, 14, m[s[4]], m[s[5]]);
    GAt(v3, 3, 7, 11, 15, m[s[6]], m[s[7]])
  }

  function Diagonals(v: Work, m: Message, s: Row): Work {
    var v1 := GAt(v, 0, 5, 10, 15, m[s[8]], m[s[9]]);
    var v2 := GAt(v1, 1, 6, 11, 12, m[s[10]], m[s[11]]);
    var v3 := GAt(v2, 2, 7, 8, 13, m[s[12]], m[s[13]]);
    GAt(v3, 3, 4, 9, 14, m[s[14]], m[s[15]])
  }

  /** The first n rounds of section 3.2 (F runs twelve). */
  function Rounds(v: Work, m: Message, n: nat): Work {
    if n == 0 then v
    else
      var u := Rounds(v, m, n - 1);
      Diagonals(Columns(u, m, Schedule(n - 1)), m, Schedule(n - 1))
  }

  function Initial(h: Chain, t: nat, last: bool): Work
    requires t < TWO64 * TWO64
  {
    h + [IV[0], IV[1], IV[2], IV[3], Xor(IV[4], t % TWO64), Xor(IV[5], t / TWO64),
         if last then Not(IV[6]) else IV[6], IV[7]]
  }

  /** The compression function F of section 3.2. */
  function F(h: Chain, m: Message, t: nat, last: bool): Chain
    requires t < TWO64 * TWO64
  {
    hide Rounds;
    var v := Rounds(Initial(h, t, last), m, 12);
    seq(8, i requires 0 <= i < 8 => Xor(Xor(h[i], v[i]), v[i + 8]))
  }

  /** A 128-byte block as sixteen little-endian words (section 2.4). */
  function WordsOf(block: seq<Byte>): Message
    requires |block| == 128
  {
    seq(16, i requires 0 <= i < 16 => Load64(block[8 * i..8 * i + 8]))
  }

  /** dd of section 2.3: the number of blocks, one for the empty message. */
  function BlockCount(len: nat): (dd: nat)
    ensures dd > 0
  {
    if len == 0 then 1 else (len + 127) / 128
  }

  function Padded(message: seq<Byte>): (p: seq<Byte>)
    ensures |p| == 128 * BlockCount(|message|)
  {
    message + Zeros(128 * BlockCount(|message|) - |message|)
  }

  function DataBlock(message: seq<Byte>, i: nat): seq<Byte>
    requires i < BlockCount(|message|)
    ensures |DataBlock(message, i)| == 128
  {
    Padded(message)[128 * i..128 * i + 128]
  }

  /** Parameter block of section 2.5 for an unkeyed digest of nn bytes. */
  function Start(nn: nat): Chain
    requires 1 <= nn <= 64
  {
    IV[0 := Xor(IV[0], 0x01010000 + nn)]
  }

  /** The chain value after the first n blocks, none of them final. */
  function Absorb(message: seq<Byte>, nn: nat, n: nat): Chain
    requires 1 <= nn <= 64 && n < BlockCount(|message|) && |message| < TWO64
  {
    if n == 0 then Start(nn)
    else F(Absorb(message, nn, n - 1), WordsOf(DataBlock(message, n - 1)), 128 * n, false)
  }

  function DigestOf(h: Chain): (d: seq<Byte>)
    ensures |d| == 64
  {
    ToLE(h[0], 8) + ToLE(h[1], 8) + ToLE(h[2], 8) + ToLE(h[3], 8)
    + ToLE(h[4], 8) + ToLE(h[5], 8) + ToLE(h[6], 8) + ToLE(h[7], 8)
  }

  /** Section 3.3 with no key: the nn-byte digest. */
  function Hash(message: seq<Byte>, nn: nat): (d: seq<Byte>)
    requires 1 <= nn <= 64 && |message| < TWO64
    ensures |d| == nn
  {
    var dd := BlockCount(|message|);
    var h := F(Absorb(message, nn, dd - 1), WordsOf(DataBlock(message, dd - 1)), |message|, true);
    DigestOf(h)[..nn]
  }

  // ---------------------------------------------------------------- the host's code

  /** load64: eight bytes, folded from the most significant end. */
  method LoadWord(p: seq<Byte>) returns (v: U64)
    requires |p| == 8
    ensures v == Load64(p)
  {
    hide LE;
    var w: nat := 0;
    EmptyLE(p[8..]);
    var i := 8;
    while i > 0
      invariant 0 <= i <= 8 && w == LE(p[i..])
    {
      i := i - 1;
      assert p[i..][1..] == p[i + 1..];
      FoldFits(w, p[i..]);
      w := w * 256 + p[i];
    }
    assert p[0..] == p;
    LE8IsWord(p);
    v := w;
  }

  lemma EmptyLE(p: seq<Byte>)
    requires p == []
    ensures LE(p) == 0
  {
  }

  lemma FoldFits(v: nat, rest: seq<Byte>)
    requires 0 < |rest| <= 8 && v == LE(rest[1..])
    ensures v * 256 + rest[0] == LE(rest) < TWO64
  {
    LEBound(rest);
    Pow256Monotone(|rest|, 8);
    Pow256Values();
  }

  /** The G macro: four cells of v rewritten in place. */
  method GMacro(v: array<U64>, a: nat, b: nat, c: nat, d: nat, x: U64, y: U64)
    requires v.Length == 16 && a < 16 && b < 16 && c < 16 && d < 16
    requires a != b && a != c && a != d && b != c && b != d && c != d
    modifies v
    ensures v[..] == GAt(old(v[..]), a, b, c, d, x, y)
  {
    hide Xor, Rotr, Add;
    v[a] := Add(Add(v[a], v[b]), x);
    v[d] := Rotr(Xor(v[d], v[a]), 32);
    v[c] := Add(v[c], v[d]);
    v[b] := Rotr(Xor(v[b], v[c]), 24);
    v[a] := Add(Add(v[a], v[b]), y);
    v[d] := Rotr(Xor(v[d], v[a]), 16);
    v[c] := Add(v[c], v[d]);
    v[b] := Rotr(Xor(v[b], v[c]), 63);
  }

  /** The work vector set up from the chain value, the counter and the final-block flag. */
  method Prepare(h: array<U64>, v: array<U64>, t: U64, last: bool)
    requires h.Length == 8 && v.Length == 16 && h != v
    modifies v
    ensures v[..] == Initial(h[..], t, last)
  {
    hide Xor;
    for i := 0 to 8
      invariant forall k :: 0 <= k < i ==> v[k] == h[k]
    {
      v[i] := h[i];
    }
    for i := 0 to 8
      invariant forall k :: 0 <= k < 8 ==> v[k] == h[k]
      invariant forall k :: 0 <= k < i ==> v[8 + k] == IV[k]
    {
      v[8 + i] := IV[i];
    }
    v[12] := Xor(v[12], t);
    if last { v[14] := Not(v[14]); }
    XorZero(IV[5]);
  }

  /** One iteration of the round loop: eight G macros on the shared work vector. */
  method RoundInPlace(v: array<U64>, m: Message, s: Row)
    requires v.Length == 16
    modifies v
    ensures v[..] == Diagonals(Columns(old(v[..]), m, s), m, s)
  {
    hide GAt;
    GMacro(v, 0, 4, 8, 12, m[s[0]], m[s[1]]);
    GMacro(v, 1, 5, 9, 13, m[s[2]], m[s[3]]);
    GMacro(v, 2, 6, 10, 14, m[s[4]], m[s[5]]);
    GMacro(v, 3, 7, 11, 15, m[s[6]], m[s[7]]);
    GMacro(v, 0, 5, 10, 15, m[s[8]], m[s[9]]);
    GMacro(v, 1, 6, 11, 12, m[s[10]], m[s[11]]);
    GMacro(v, 2, 7, 8, 13, m[s[12]], m[s[13]]);
    GMacro(v, 3, 4, 9, 14, m[s[14]], m[s[15]]);
  }

  /** compress: one block into the chain value, in place. */
  method Compress(h: array<U64>, block: seq<Byte>, t: U64, last: bool)
    requires h.Length == 8 && |block| == 128
    modifies h
    ensures h[..] == F(old(h[..]), WordsOf(block), t, last)
  {
    hide Xor, Initial, Rounds, Columns, Diagonals, Load64;
    var v, mm := new U64[16], new U64[16];
    for i := 0 to 16
      invariant h[..] == old(h[..])
      invariant forall k :: 0 <= k < i ==> mm[k] == Load64(block[8 * k..8 * k + 8])
    {
      mm[i] := LoadWord(block[8 * i..8 * i + 8]);
    }
    var m: Message := mm[..];
    assert m == WordsOf(block);
    Prepare(h, v, t, last);
    ghost var v0 := v[..];
    RoundsStart(v0, m);
    for r := 0 to 12
      invariant h[..] == old(h[..])
      invariant v[..] == Rounds(v0, m, r)
    {
      SigmaRepeats(r);
      RoundsStep(v0, m, r);
      RoundInPlace(v, m, SIGMA[r]);
    }
    ghost var w := v[..];
    for i := 0 to 8
      invariant v[..] == w
      invariant forall k :: 0 <= k < i ==> h[k] == Xor(Xor(old(h[..])[k], w[k]), w[k + 8])
      invariant forall k :: i <= k < 8 ==> h[k] == old(h[..])[k]
    {
      XorAssoc(h[i], v[i], v[i + 8]);
      h[i] := Xor(h[i], Xor(v[i], v[i + 8]));
    }
    assert h[..] == F(old(h[..]), m, t, last);
  }

  lemma RoundsStart(v: Work, m: Message)
    ensures Rounds(v, m, 0) == v
  {
  }

  lemma RoundsStep(v: Work, m: Message, r: nat)
    ensures Rounds(v, m, r + 1) == Diagonals(Columns(Rounds(v, m, r), m, Schedule(r)), m, Schedule(r))
  {
    hide Columns, Diagonals, Schedule;
  }

  lemma SigmaRepeats(r: nat)
    requires r < 12
    ensures SIGMA[r] == Schedule(r)
  {
    if r == 10 { assert r % 10 == 0; } else if r == 11 { assert r % 10 == 1; } else { assert r % 10 == r; }
  }

  lemma XorZero(a: U64)
    ensures Xor(a, 0) == a
  {
    XorNatZero(a);
  }

  /** The C expression 0x01010000 ^ outlen, folded into h[0]. */
  lemma ParameterWord(nn: nat)
    requires 1 <= nn <= 64
    ensures Xor(0x01010000, nn) == 0x01010000 + nn
  {
    Pow2Values();
    XorNatDisjoint(0x0101, nn, 16);
  }

  /** blake2b_nokey. The loop runs while more than one block is left, so a message that is
      an exact multiple of 128 bytes keeps its last full block for the final call, and the
      empty message still gets one. */
  method Blake2bNoKey(input: seq<Byte>, outlen: nat) returns (out: seq<Byte>)
    requires 1 <= outlen <= 64 && |input| < TWO64
    ensures out == Hash(input, outlen)
  {
    hide Xor, Rotr, Add, Mix, LE, F, WordsOf, ToLE, DigestOf, Pow2;
    var h := new U64[8];
    for i := 0 to 8
      invariant forall k :: 0 <= k < i ==> h[k] == IV[k]
    {
      h[i] := IV[i];
    }
    ParameterWord(outlen);
    h[0] := Xor(h[0], Xor(0x01010000, outlen));
    assert h[..] == Start(outlen);
    var off, counter: U64 := 0, 0;
    ghost var n := 0;
    ghost var dd := BlockCount(|input|);
    while |input| - off > 128
      invariant off == counter == 128 * n && n < dd && off <= |input|
      invariant h[..] == Absorb(input, outlen, n)
      decreases |input| - off
    {
      counter := counter + 128;
      assert input[off..off + 128] == DataBlock(input, n);
      Compress(h, input[off..off + 128], counter, false);
      off := off + 128;
      n := n + 1;
    }
    assert n == dd - 1;
    var rem := |input| - off;
    var block := input[off..] + Zeros(128 - rem);
    assert block == DataBlock(input, dd - 1);
    counter := counter + rem;
    Compress(h, block, counter, true);
    ghost var d := DigestOf(h[..]);
    out := [];
    var i := 0;
    while i < outlen
      invariant i <= outlen && out == d[..i]
      invariant d == DigestOf(h[..])
    {
      OutByte(h[..], i);
      out := out + [h[i / 8] / Pow2(8 * (i % 8)) % 256];
      i := i + 1;
    }
  }

  /** The shift and mask by which byte i is taken out of the chain. */
  lemma OutByte(h: Chain, i: nat)
    requires i < 64
    ensures h[i / 8] / Pow2(8 * (i % 8)) % 256 == DigestOf(h)[i]
  {
    hide ToLE, Pow2, DigestOf;
    DigestByte(h, i);
    ShiftByte(h[i / 8], i % 8);
  }

  lemma ShiftByte(w: U64, k: nat)
    requires k < 8
    ensures w / Pow2(8 * k) % 256 == ToLE(w, 8)[k]
  {
    ToLEAt(w, 8, k);
    Pow256IsPow2(k);
  }

  lemma DigestByte(h: Chain, i: nat)
    requires i < 64
    ensures DigestOf(h)[i] == ToLE(h[i / 8], 8)[i % 8]
  {
    hide ToLE;
  }
}
