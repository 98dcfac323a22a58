/** What the host recomputes for a reported nonce, and why the on-chip 64-bit compare may stand
    in for the host's 256-bit one (miner/sia_stratum.c, miner/work_item.c). */
module HostCheck {
  import opened Words
  import opened Blake2b
  import opened Pipeline
  import opened Cores

  type Ss4 = b: seq<Byte> | |b| == 80 witness seq(80, _ => 0)

  /** The ten message slots of the 80-byte stage-4 message. */
  function HeaderOf(ss4: Ss4): Header {
    seq(10, i requires 0 <= i < 10 => Load64(ss4[8 * i..8 * i + 8]))
  }

  function WithNonce(ss4: Ss4, nonce: U64): Ss4 {
    ss4[..32] + ToLE(nonce, 8) + ss4[40..]
  }

  /** Writing the nonce bytes is overwriting message word 4. */
  lemma NonceIsWord4(ss4: Ss4, nonce: U64)
    ensures HeaderOf(WithNonce(ss4, nonce)) == HeaderOf(ss4)[NONCE_WORD := nonce]
  {
    hide ToLE;
    var b := WithNonce(ss4, nonce);
    assert b[32..40] == ToLE(nonce, 8);
    Pow256Values();
    LEToLE(nonce, 8);
    forall i | 0 <= i < 10 && i != 4
      ensures b[8 * i..8 * i + 8] == ss4[8 * i..8 * i + 8]
    {
    }
  }

  // ---------------------------------------------------------------- one-block digests

  lemma OneBlock(message: seq<Byte>, nn: nat)
    requires |message| <= 128 && 1 <= nn <= 64
    ensures Hash(message, nn)
         == DigestOf(F(Start(nn), WordsOf(message + Zeros(128 - |message|)), |message|, true))[..nn]
  {
    hide F, WordsOf, DigestOf, Start;
    assert BlockCount(|message|) == 1;
    assert DataBlock(message, 0) == message + Zeros(128 - |message|);
  }

  lemma {:induction false} LEZeros(n: nat)
    ensures LE(Zeros(n)) == 0
  {
    if n > 0 {
      assert Zeros(n)[1..] == Zeros(n - 1);
      LEZeros(n - 1);
    }
  }

  /** The stage-4 message block, as the compression function reads it, is the header words
      followed by zeros: the cores' Msg assignment. */
  lemma BlockIsHeader(ss4: Ss4)
    ensures WordsOf(ss4 + Zeros(48)) == MessageOf(HeaderOf(ss4))
  {
    hide LE;
    var block := ss4 + Zeros(48);
    forall i | 0 <= i < 16
      ensures Load64(block[8 * i..8 * i + 8]) == MessageOf(HeaderOf(ss4))[i]
    {
      if i < 10 {
        assert block[8 * i..8 * i + 8] == ss4[8 * i..8 * i + 8];
      } else {
        assert block[8 * i..8 * i + 8] == Zeros(8);
        LEZeros(8);
      }
    }
  }

  /** The digest of the stage-4 message: its four chain words, each least significant first. */
  lemma StageFourDigest(ss4: Ss4)
    ensures var h := F(Start(32), MessageOf(HeaderOf(ss4)), GRIND_LEN, true);
            Hash(ss4, 32) == ToLE(h[0], 8) + ToLE(h[1], 8) + ToLE(h[2], 8) + ToLE(h[3], 8)
  {
    hide F, Start, ToLE, MessageOf, WordsOf, HeaderOf;
    OneBlock(ss4, 32);
    BlockIsHeader(ss4);
  }

  // ---------------------------------------------------------------- the host's recomputation

  /** put_nonce: the nonce stored least significant byte first at offset 32. */
  method PutNonce(ss4: array<Byte>, nonce: U64)
    requires ss4.Length == 80
    modifies ss4
    ensures ss4[..] == WithNonce(old(ss4[..]), nonce)
  {
    hide ToLE;
    for i := 0 to 8
      invariant forall k :: 0 <= k < 80 && !(32 <= k < 32 + i) ==> ss4[k] == old(ss4[..])[k]
      invariant forall k :: 0 <= k < i ==> ss4[32 + k] == ToLE(nonce, 8)[k]
    {
      ShiftByte(nonce, i);
      ss4[32 + i] := nonce / Pow2(8 * i) % 256;
    }
  }

  method DigestWithNonce(ss4: Ss4, nonce: U64) returns (hb: Bytes32)
    ensures hb == Hash(WithNonce(ss4, nonce), 32)
  {
    var a := new Byte[80](i requires 0 <= i < 80 => ss4[i]);
    assert a[..] == ss4;
    PutNonce(a, nonce);
    hb := Blake2bNoKey(a[..], 32);
  }

  /** Big-endian fold of eight bytes, as in the C loops `v = (v << 8) | b[i]`. */
  method FoldBig(b: seq<Byte>, from: nat) returns (v: U64)
    requires from + 8 <= |b|
    ensures v as nat == BE(b[from..from + 8])
  {
    hide BE;
    var w: nat := 0;
    assert BE(b[from..from]) == 0 by { EmptyBE(b[from..from]); }
    for i := from to from + 8
      invariant w == BE(b[from..i])
    {
      AppendBE(b[from..i], b[i]);
      assert b[from..i] + [b[i]] == b[from..i + 1];
      w := w * 256 + b[i];
    }
    BEBound(b[from..from + 8]);
    Pow256Values();
    v := w;
  }

  lemma EmptyBE(p: seq<Byte>)
    requires p == []
    ensures BE(p) == 0
  {
  }

  lemma AppendBE(p: seq<Byte>, x: Byte)
    ensures BE(p + [x]) == BE(p) * 256 + x
  {
    assert (p + [x])[..|p|] == p;
  }

  /** sia_expected_top64 (Knots) and sia_chain_expected_top64 (Siacoin): the word the host
      expects the FPGA to report is the byte-swapped tapped word. */
  method ExpectedTop64(rule: Rule, ss4: Ss4, nonce: U64) returns (v: U64)
    ensures v == ByteSwap(DigestWord(rule, HeaderOf(ss4), nonce))
  {
    hide F, Start, ToLE, MessageOf, HeaderOf, WithNonce, BE;
    var hb := DigestWithNonce(ss4, nonce);
    v := FoldBig(hb, if rule.Knots? then 24 else 0);
    ghost var h := F(Start(32), MessageOf(HeaderOf(WithNonce(ss4, nonce))), GRIND_LEN, true);
    StageFourDigest(WithNonce(ss4, nonce));
    NonceIsWord4(ss4, nonce);
    assert hb[24..32] == ToLE(h[3], 8) && hb[0..8] == ToLE(h[0], 8);
  }

  /** The full 256-bit compare value, most significant byte first. */
  function CompareBytes(rule: Rule, ss4: Ss4, nonce: U64): Bytes32 {
    var d := Hash(WithNonce(ss4, nonce), 32);
    if rule.Knots? then Reverse(d) else d
  }

  /** sia_pow_compare (digest reversed) and sia_chain_pow_compare (digest as emitted). */
  method PowCompare(rule: Rule, ss4: Ss4, nonce: U64) returns (out: Bytes32)
    ensures out == CompareBytes(rule, ss4, nonce)
  {
    hide WithNonce, Hash, Reverse;
    var hb := DigestWithNonce(ss4, nonce);
    if rule.Sia? {
      return hb;
    }
    var a := new Byte[32];
    for i := 0 to 32
      invariant forall k :: 0 <= k < i ==> a[k] == hb[31 - k]
    {
      a[i] := hb[31 - i];
    }
    out := a[..];
    assert out == Reverse(hb);
  }

  /** hash_meets_target: memcmp of two 32-byte strings, result at most zero. */
  method HashMeetsTarget(hash: Bytes32, target: Bytes32) returns (meets: bool)
    ensures meets <==> BE(hash) <= BE(target)
  {
    hide BE;
    var i := 0;
    while i < 32 && hash[i] == target[i]
      invariant i <= 32 && hash[..i] == target[..i]
    {
      i := i + 1;
    }
    if i == 32 {
      assert hash == hash[..32] && target == target[..32];
      return true;
    }
    FirstDifference(hash, target, i);
    return hash[i] < target[i];
  }

  lemma FirstDifference(a: seq<Byte>, b: seq<Byte>, i: nat)
    requires |a| == |b| && i < |a| && a[..i] == b[..i] && a[i] != b[i]
    ensures BE(a) < BE(b) <==> a[i] < b[i]
    ensures BE(a) != BE(b)
  {
    if a[i] < b[i] { FirstSmaller(a, b, i); } else { FirstSmaller(b, a, i); }
  }

  lemma FirstSmaller(a: seq<Byte>, b: seq<Byte>, i: nat)
    requires |a| == |b| && i < |a| && a[..i] == b[..i] && a[i] < b[i]
    ensures BE(a) < BE(b)
  {
    hide BE;
    var p := Pow256(|a| - 1 - i);
    SplitAt(a, i);
    SplitAt(b, i);
    BEBound(a[i + 1..]);
    LeadDecides(BE(a[..i]) * 256 + a[i], BE(b[..i]) * 256 + b[i], p, BE(a[i + 1..]), BE(b[i + 1..]));
  }

  lemma LeadDecides(x: nat, y: nat, p: nat, r: nat, s: nat)
    requires x < y && r < p
    ensures x * p + r < y * p + s
  {
    MulMonotone(p, x + 1, y);
  }

  lemma SplitAt(a: seq<Byte>, i: nat)
    requires i < |a|
    ensures BE(a) == (BE(a[..i]) * 256 + a[i]) * Pow256(|a| - 1 - i) + BE(a[i + 1..])
  {
    hide BE;
    assert a == a[..i + 1] + a[i + 1..];
    assert a[..i + 1] == a[..i] + [a[i]];
    AppendBE(a[..i], a[i]);
    BEConcat(a[..i + 1], a[i + 1..]);
  }

  // ---------------------------------------------------------------- the prefilter

  const TWO192: nat := TWO64 * TWO64 * TWO64

  /** The word the core compares is the top 64 bits of the value the host compares. */
  lemma ComparedWordIsTop64(rule: Rule, ss4: Ss4, nonce: U64)
    ensures BE(CompareBytes(rule, ss4, nonce)) / TWO192 == rule.Compared(DigestWord(rule, HeaderOf(ss4), nonce))
  {
    hide F, Start, ToLE, MessageOf, HeaderOf, WithNonce, BE, LE, Reverse, Hash;
    var d := Hash(WithNonce(ss4, nonce), 32);
    var h := F(Start(32), MessageOf(HeaderOf(WithNonce(ss4, nonce))), GRIND_LEN, true);
    StageFourDigest(WithNonce(ss4, nonce));
    NonceIsWord4(ss4, nonce);
    TopWord(d);
    Pow256Values();
    if rule.Knots? {
      BEReverse(d);
      assert d[24..32] == ToLE(h[3], 8);
      LEToLE(h[3], 8);
    } else {
      assert d[0..8] == ToLE(h[0], 8);
    }
  }

  lemma TopWord(d: Bytes32)
    ensures LE(d) / TWO192 == LE(d[24..32])
    ensures BE(d) / TWO192 == BE(d[0..8])
  {
    hide LE, BE;
    assert Pow256(24) == TWO192 by {
      Pow256Plus(8, 8);
      Pow256Plus(16, 8);
      Pow256Values();
    }
    assert d == d[..24] + d[24..32];
    LEConcat(d[..24], d[24..32]);
    LEBound(d[..24]);
    QuotientUnique(LE(d), TWO192, LE(d[24..32]), LE(d[..24]));
    assert d == d[0..8] + d[8..];
    BEConcat(d[0..8], d[8..]);
    BEBound(d[8..]);
    QuotientUnique(BE(d), TWO192, BE(d[0..8]), BE(d[8..]));
  }

  lemma {:induction false} Pow256Plus(a: nat, b: nat)
    ensures Pow256(a + b) == Pow256(a) * Pow256(b)
  {
    if a > 0 {
      Pow256Plus(a - 1, b);
      Associate(256, Pow256(a - 1), Pow256(b));
    }
  }

  /** The prefilter is exact up to one value of the top word: a hit meets the full target, and
      for a solution the strict compare fails exactly when the two top words are equal. */
  lemma PrefilterExact(rule: Rule, ss4: Ss4, nonce: U64, target: Bytes32)
    ensures var word := rule.Compared(DigestWord(rule, HeaderOf(ss4), nonce));
            var top := BE(target) / TWO192;
            && (word < top ==> BE(CompareBytes(rule, ss4, nonce)) < BE(target))
            && (BE(CompareBytes(rule, ss4, nonce)) <= BE(target) ==> (word < top <==> word != top))
  {
    hide DigestWord, CompareBytes, BE;
    ComparedWordIsTop64(rule, ss4, nonce);
    DivOrder(BE(CompareBytes(rule, ss4, nonce)), BE(target));
  }

  lemma DivOrder(a: nat, b: nat)
    ensures a / TWO192 < b / TWO192 ==> a < b
    ensures a <= b ==> a / TWO192 <= b / TWO192
  {
  }

  /** Core and host agree on a whole run. With the work item held, a hit reported for clock t
      carries a nonce the host confirms: the recomputed word equals the reported one, and the
      256-bit compare passes. A held solution the core stays silent about has its top word
      equal to that of the target. */
  lemma CoreAgreesWithHost(rule: Rule, seed: U64, run: seq<Core>, ins: seq<Input>, t: nat, ss4: Ss4, target: Bytes32)
    requires CoreRuns(rule, seed, run, ins) && Stable(ins, t, 97, HeaderOf(ss4)) && Coherent(run[t].nonce)
    requires t + 98 <= |ins| && ins[t + 97].target as nat == BE(target) / TWO192
    ensures var n := run[t].nonce[0];
            var out := run[t + 98];
            && (out.success ==>
                  && out.nonceOut == n
                  && out.hashOut == ByteSwap(DigestWord(rule, HeaderOf(ss4), n))
                  && BE(CompareBytes(rule, ss4, n)) <= BE(target))
            && (!out.success && BE(CompareBytes(rule, ss4, n)) <= BE(target) ==>
                  BE(CompareBytes(rule, ss4, n)) / TWO192 == BE(target) / TWO192)
  {
    hide DigestWord, CompareBytes, BE, Clocked, Coherent, Stable, HeaderOf;
    PipelineCoherence(rule, seed, run, ins, t, HeaderOf(ss4));
    PrefilterExact(rule, ss4, run[t].nonce[0], target);
    ComparedWordIsTop64(rule, ss4, run[t].nonce[0]);
  }
}
