/** The work item: how the host packs it (miner/worksrc.c) and how the chip takes it apart again
    (src/OspreyBlake2bUartTop.vhd, src/sia/OspreySiaUartTop.vhd). */
module WorkItem {
  import opened Words
  import opened Blake2b
  import opened Pipeline
  import opened Cores
  import opened HostCheck
  import opened Serial

  type Ss3 = b: seq<Byte> | |b| == STAGE3_LEN witness seq(52, _ => 0)

  const WORK_ITEM_LEN: nat := 168
  const SIA_ITEM_LEN: nat := 88

  /** work_ctx_t: the two stage messages and the on-chip target. */
  datatype WorkCtx = WorkCtx(ss3: Ss3, ss4: Ss4, targetTop64: U64)

  /** Wire size of an item for each bitstream. */
  function ItemLen(rule: Rule): (n: nat)
    ensures n > 0
  {
    if rule.Knots? then WORK_ITEM_LEN else SIA_ITEM_LEN
  }

  /** The bytes on the wire. */
  function Item(rule: Rule, w: WorkCtx): (s: seq<Byte>)
    ensures |s| == ItemLen(rule)
  {
    if rule.Knots? then w.ss3 + Zeros(28) + w.ss4 + ToLE(w.targetTop64, 8)
    else w.ss4 + ToLE(w.targetTop64, 8)
  }

  /** put_target_le, at an offset of the item. */
  method PutTargetLe(out: array<Byte>, at: nat, v: U64)
    requires at + 8 <= out.Length
    modifies out
    ensures out[..] == old(out[..at]) + ToLE(v, 8) + old(out[at + 8..])
  {
    hide ToLE;
    for i := 0 to 8
      invariant forall k :: 0 <= k < out.Length && !(at <= k < at + i) ==> out[k] == old(out[..])[k]
      invariant forall k :: 0 <= k < i ==> out[at + k] == ToLE(v, 8)[k]
    {
      ShiftByte(v, i);
      out[at + i] := v / Pow2(8 * i) % 256;
    }
  }

  /** memcpy of s to an offset of the item. */
  method Copy(out: array<Byte>, at: nat, s: seq<Byte>)
    requires at + |s| <= out.Length
    modifies out
    ensures out[..] == old(out[..at]) + s + old(out[at + |s|..])
    ensures out[..at + |s|] == old(out[..at]) + s
  {
    for i := 0 to |s|
      invariant forall k :: 0 <= k < out.Length && !(at <= k < at + i) ==> out[k] == old(out[..])[k]
      invariant forall k :: 0 <= k < i ==> out[at + k] == s[k]
    {
      out[at + i] := s[i];
    }
  }

  /** worksrc_pack_item: the layout is chosen by the requested length; any other length packs
      nothing. The rest of the buffer is always cleared. */
  method PackItem(w: WorkCtx, itemLen: nat, out: array<Byte>) returns (n: nat)
    requires out.Length == WORK_ITEM_LEN
    modifies out
    ensures n == (if itemLen == WORK_ITEM_LEN || itemLen == SIA_ITEM_LEN then itemLen else 0)
    ensures itemLen == WORK_ITEM_LEN ==> out[..] == Item(Knots, w)
    ensures itemLen == SIA_ITEM_LEN ==> out[..n] == Item(Sia, w)
    ensures out[n..] == Zeros(WORK_ITEM_LEN - n)
  {
    hide ToLE;
    for i := 0 to WORK_ITEM_LEN
      invariant forall k :: 0 <= k < i ==> out[k] == 0
    {
      out[i] := 0;
    }
    assert out[..] == Zeros(WORK_ITEM_LEN);
    if itemLen == WORK_ITEM_LEN {
      Copy(out, 0, w.ss3);
      assert out[..] == w.ss3 + Zeros(116);
      Copy(out, 80, w.ss4);
      assert out[..] == w.ss3 + Zeros(28) + w.ss4 + Zeros(8);
      PutTargetLe(out, 160, w.targetTop64);
      return WORK_ITEM_LEN;
    }
    if itemLen == SIA_ITEM_LEN {
      Copy(out, 0, w.ss4);
      assert out[..] == w.ss4 + Zeros(88);
      PutTargetLe(out, 80, w.targetTop64);
      return SIA_ITEM_LEN;
    }
    return 0;
  }

  // ---------------------------------------------------------------- the chip's slots

  /** Bits 64*i+63 downto 64*i of the held copy, as a number. */
  function Slot(held: seq<bool>, i: nat): U64
    requires 64 * i + 64 <= |held|
  {
    Pow2Values();
    ValueBound(held[64 * i..64 * i + 64]);
    ValueOf(held[64 * i..64 * i + 64])
  }

  function Slots(held: seq<bool>, from: nat): Header
    requires 64 * (from + 10) <= |held|
  {
    [Slot(held, from), Slot(held, from + 1), Slot(held, from + 2), Slot(held, from + 3), Slot(held, from + 4),
     Slot(held, from + 5), Slot(held, from + 6), Slot(held, from + 7), Slot(held, from + 8), Slot(held, from + 9)]
  }

  /** Stage4In of the Knots chip, Header of the Siacoin one. */
  function MessageSlots(rule: Rule, held: seq<bool>): Header
    requires |held| == 8 * ItemLen(rule)
  {
    Slots(held, if rule.Knots? then 10 else 0)
  }

  /** TargetTop64. */
  function TargetSlot(rule: Rule, held: seq<bool>): U64
    requires |held| == 8 * ItemLen(rule)
  {
    Slot(held, if rule.Knots? then 20 else 10)
  }

  lemma {:induction false} BitsOfSlice(s: seq<Byte>, a: nat, b: nat)
    requires a <= b <= |s|
    ensures BitsOf(s)[8 * a..8 * b] == BitsOf(s[a..b])
  {
    hide BitsOf;
    BitsOfConcat(s[..a], s[a..]);
    BitsOfConcat(s[a..b], s[b..]);
    assert s == s[..a] + s[a..];
    assert s[a..] == s[a..b] + s[b..];
    var x, y, z := BitsOf(s[..a]), BitsOf(s[a..b]), BitsOf(s[b..]);
    assert |x| == 8 * a;
    assert |x| + |y| == 8 * b;
    Middle(x, y, z);
  }

  lemma Middle(x: seq<bool>, y: seq<bool>, z: seq<bool>)
    ensures (x + (y + z))[|x|..|x| + |y|] == y
  {
  }

  /** A slot is eight bytes of the item, least significant first. */
  lemma SlotIsLoad64(s: seq<Byte>, i: nat)
    requires 8 * i + 8 <= |s|
    ensures Slot(BitsOf(s), i) == Load64(s[8 * i..8 * i + 8])
  {
    hide BitsOf, LE, Slot, ValueOf;
    var b := s[8 * i..8 * i + 8];
    SlotIsSlice(BitsOf(s), i);
    BitsOfSlice(s, 8 * i, 8 * i + 8);
    EightBytes(b);
  }

  lemma SlotIsSlice(held: seq<bool>, i: nat)
    requires 64 * i + 64 <= |held|
    ensures Slot(held, i) == ValueOf(held[64 * i..64 * i + 64])
  {
    hide ValueOf, Pow2;
  }

  lemma EightBytes(b: seq<Byte>)
    requires |b| == 8
    ensures ValueOf(BitsOf(b)) == LE(b)
  {
    hide BitsOf, Bits, LE, ToLE, ValueOf, Pow2;
    LE8IsWord(b);
    ToLELE(b);
    WordBits(LE(b), 8);
    Pow2Values();
    ValueOfBits(LE(b), 64);
  }

  lemma SlotsAreLoads(s: seq<Byte>, from: nat, part: seq<Byte>)
    requires 8 * (from + 10) <= |s| && part == s[8 * from..8 * from + 80]
    ensures forall i :: 0 <= i < 10 ==> Slots(BitsOf(s), from)[i] == Load64(part[8 * i..8 * i + 8])
  {
    hide BitsOf, Load64, Slot;
    forall i | 0 <= i < 10
      ensures Slots(BitsOf(s), from)[i] == Load64(part[8 * i..8 * i + 8])
    {
      SlotIsLoad64(s, from + i);
      SliceOfSlice(s, 8 * from, 80, 8 * i, 8);
    }
  }

  lemma SliceOfSlice(s: seq<Byte>, at: nat, size: nat, i: nat, n: nat)
    requires at + size <= |s| && i + n <= size
    ensures s[at..at + size][i..i + n] == s[at + i..at + i + n]
  {
    var x, y := s[at..at + size][i..i + n], s[at + i..at + i + n];
    forall k | 0 <= k < n
      ensures x[k] == y[k]
    {
    }
    assert x == y;
  }

  /** Packing, sending the item least significant bit first and slicing what was received gives
      back the header words and the target. */
  lemma RoundTrip(rule: Rule, w: WorkCtx)
    ensures MessageSlots(rule, BitsOf(Item(rule, w))) == HeaderOf(w.ss4)
    ensures TargetSlot(rule, BitsOf(Item(rule, w))) == w.targetTop64
  {
    hide BitsOf, Load64, Slot, ToLE;
    var s := Item(rule, w);
    var from := if rule.Knots? then 10 else 0;
    assert s[8 * from..8 * from + 80] == w.ss4;
    SlotsAreLoads(s, from, w.ss4);
    assert MessageSlots(rule, BitsOf(s)) == HeaderOf(w.ss4);
    assert s[8 * (from + 10)..8 * (from + 10) + 8] == ToLE(w.targetTop64, 8);
    SlotIsLoad64(s, from + 10);
    TargetLoads(w.targetTop64);
  }

  lemma TargetLoads(v: U64)
    ensures Load64(ToLE(v, 8)) == v
  {
    Pow256Values();
    LEToLE(v, 8);
  }

  // ---------------------------------------------------------------- stage 3 and its bypass

  /** Stage3In of the Knots chip. */
  function Stage3In(held: seq<bool>): Header
    requires |held| == 8 * WORK_ITEM_LEN
  {
    Slots(held, 0)
  }

  /** The message stage 3 hashes is the 52-byte ss3 as the compression function reads it. */
  lemma Stage3InIsBlock(w: WorkCtx)
    ensures MessageOf(Stage3In(BitsOf(Item(Knots, w)))) == WordsOf(w.ss3 + Zeros(76))
  {
    hide BitsOf, LE, Slot, ToLE;
    var s, block := Item(Knots, w), w.ss3 + Zeros(76);
    var part := w.ss3 + Zeros(28);
    assert s[0..80] == part;
    SlotsAreLoads(s, 0, part);
    forall i | 0 <= i < 16
      ensures MessageOf(Stage3In(BitsOf(s)))[i] == Load64(block[8 * i..8 * i + 8])
    {
      if i < 10 {
        assert block[8 * i..8 * i + 8] == part[8 * i..8 * i + 8];
      } else {
        assert block[8 * i..8 * i + 8] == Zeros(8);
        LEZeros(8);
      }
    }
  }

  /** Stage4Msg: the message of the stage-4 core, with word 4 left to the nonce counter. */
  function Compose(stage4In: Header, hashA: seq<U64>): Header
    requires |hashA| == 4
  {
    stage4In[..4] + [0, stage4In[5]] + hashA
  }

  /** kOnChipStage3 = false: hashA is what the host already put in slots 6 to 9. */
  function Bypassed(stage4In: Header): seq<U64> { stage4In[6..] }

  /** kOnChipStage3 = true: hashA is the output of the stage-3 pipeline. */
  function OnChip(s: Stage3): seq<U64> {
    seq(4, i requires 0 <= i < 4 => HashOut(s, i))
  }

  /** The digest bytes, read as little-endian words, are the chain words. */
  lemma DigestWords(ss3: Ss3, i: nat)
    requires i < 4
    ensures Load64(DigestWord3(ss3, i)) == Chain3(ss3)[i]
  {
    hide F, Start, ToLE, WordsOf, Hash, Load64, DigestOf;
    OneBlock(ss3, 32);
    DigestSlice(Chain3(ss3), i);
    TargetLoads(Chain3(ss3)[i]);
  }

  /** The chain value of the one-block digest of ss3, and its i-th eight digest bytes. */
  function Chain3(ss3: Ss3): Chain {
    hide F, WordsOf, Start;
    F(Start(32), WordsOf(ss3 + Zeros(76)), STAGE3_LEN, true)
  }

  function DigestWord3(ss3: Ss3, i: nat): (b: seq<Byte>)
    requires i < 4
    ensures |b| == 8
  {
    hide Hash;
    Hash(ss3, 32)[8 * i..8 * i + 8]
  }

  lemma DigestSlice(h: Chain, i: nat)
    requires i < 4
    ensures DigestOf(h)[..32][8 * i..8 * i + 8] == ToLE(h[i], 8)
  {
    hide ToLE;
    var rest := ToLE(h[4], 8) + ToLE(h[5], 8) + ToLE(h[6], 8) + ToLE(h[7], 8);
    assert DigestOf(h) == ToLE(h[0], 8) + ToLE(h[1], 8) + ToLE(h[2], 8) + ToLE(h[3], 8) + rest;
    FourSlices(ToLE(h[0], 8), ToLE(h[1], 8), ToLE(h[2], 8), ToLE(h[3], 8), rest);
    if i == 0 { } else if i == 1 { } else if i == 2 { } else { assert i == 3; }
  }

  lemma FourSlices(a: seq<Byte>, b: seq<Byte>, c: seq<Byte>, d: seq<Byte>, rest: seq<Byte>)
    requires |a| == |b| == |c| == |d| == 8
    ensures var s := (a + b + c + d + rest)[..32];
            s[0..8] == a && s[8..16] == b && s[16..24] == c && s[24..32] == d
  {
  }

  /** Dropping stage 3 from the chip changes nothing: for a work item whose ss4 carries the
      BLAKE2b digest of its ss3 from byte 48 on, the stage-4 core gets the same message either
      way once the stage-3 pipeline has seen the item for 97 clocks, and for every nonce the
      header it hashes is that of ss4. */
  lemma BypassEquivalent(w: WorkCtx, run: seq<Stage3>, ins: seq<Header>, t: nat, n: U64)
    requires w.ss4[48..] == Hash(w.ss3, 32)
    requires Stage3Runs(run, ins) && t + 97 <= |ins|
    requires forall u :: t <= u < t + 97 ==> ins[u] == Stage3In(BitsOf(Item(Knots, w)))
    ensures var slots := MessageSlots(Knots, BitsOf(Item(Knots, w)));
            && Compose(slots, OnChip(run[t + 97])) == Compose(slots, Bypassed(slots))
            && Compose(slots, OnChip(run[t + 97]))[NONCE_WORD := n] == HeaderOf(w.ss4)[NONCE_WORD := n]
  {
    hide BitsOf, Hash, HashOut, F, Start, WordsOf, Load64, MessageOf, Slots;
    var slots := MessageSlots(Knots, BitsOf(Item(Knots, w)));
    RoundTrip(Knots, w);
    Stage3InIsBlock(w);
    forall i | 0 <= i < 4
      ensures OnChip(run[t + 97])[i] == Bypassed(slots)[i]
    {
      Stage3Coherence(run, ins, t, Stage3In(BitsOf(Item(Knots, w))), i);
      DigestWords(w.ss3, i);
      assert w.ss4[8 * (6 + i)..8 * (6 + i) + 8] == w.ss4[48..][8 * i..8 * i + 8];
    }
    assert OnChip(run[t + 97]) == Bypassed(slots);
    ComposeIsHeader(w.ss4, n);
  }

  /** Either way the grind core hashes the same headers: word 4 of its message is replaced by
      the nonce, so the composed message may stand for the stage-4 message itself. */
  lemma ComposeIsHeader(ss4: Ss4, n: U64)
    ensures Compose(HeaderOf(ss4), Bypassed(HeaderOf(ss4)))[NONCE_WORD := n] == HeaderOf(ss4)[NONCE_WORD := n]
  {
    hide Load64;
  }
}
