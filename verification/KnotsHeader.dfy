/** Solo mining: the five stages of a Knots v2 header hash in software and the part of them the
    chip does (miner/work_item.c, the solo work source in miner/miner.c). */
module KnotsHeader {
  import opened Words
  import opened Blake2b
  import opened Pipeline
  import opened Cores
  import opened HostCheck
  import opened WorkItem
  import opened Serial
  import S = Sha256

  const TWO31: nat := 0x8000_0000
  type Bytes16 = b: seq<Byte> | |b| == 16 witness seq(16, _ => 0)
  type I32 = x: int | -0x8000_0000 <= x < 0x8000_0000
  type U16 = x: int | 0 <= x < 0x1_0000

  datatype Header2 = Header2(version: U32, prev: Bytes32, merkle: Bytes32, time: U32, nBits: U32,
                             nonce: U32, nonce2: U32, nonce3: U32, extranonce: Bytes16, timeOffset: U32,
                             txCount: U16, flags: Byte, clearBits: Byte, xorKey: Bytes16, height: I32, mmRhs: Bytes32)

  /** The characters of a tag as bytes. */
  function Ascii(t: string): (b: seq<Byte>)
    ensures |b| == |t|
  {
    seq(|t|, i requires 0 <= i < |t| => t[i] as int % 256)
  }

  function Tagged(f: S.Compress, tag: string, payload: seq<Byte>): Bytes32 {
    hide S.Digest;
    var th := S.Digest(f, Ascii(tag));
    S.Digest(f, th + th + payload)
  }

  // ---------------------------------------------------------------- the stages

  /** knots_complete_version: the v2 flag is bit 31. */
  function CompleteVersion(h: Header2): U32 { TWO31 + h.version % TWO31 }

  /** knots_time_on_wire: flag bit 2 subtracts the offset, modulo 2^32. */
  function TimeOnWire(h: Header2): U32 {
    if h.flags / 4 % 2 == 0 then h.time else (h.time - h.timeOffset) % TWO32
  }

  function Payload1(f: S.Compress, h: Header2): (p: seq<Byte>)
    ensures |p| == 119
  {
    hide Tagged, ToLE;
    ToLE(CompleteVersion(h), 4) + Reverse(h.prev) + ToLE(h.height % TWO32, 4) + h.merkle + ToLE(TimeOnWire(h), 4)
    + [0] + ToLE(h.nBits, 4) + ToLE(h.txCount, 4) + [h.flags, h.clearBits]
    + Tagged(f, "Bitcoin block hash PoW XOR key", h.xorKey)
  }

  function Hash2(f: S.Compress, h: Header2): Bytes32 {
    Tagged(f, "Merge-mining hook", Tagged(f, "Bitcoin block header 1", Payload1(f, h)) + Zeros(32) + h.mmRhs)
  }

  function Message3(f: S.Compress, h: Header2): Ss3 {
    hide Hash2;
    Zeros(4) + Hash2(f, h) + h.extranonce
  }

  /** The previous block's hash as the chip sees it: tagged, and its first six bytes cleared. */
  function PrevHidden(f: S.Compress, h: Header2): Bytes32 {
    hide Tagged;
    Zeros(6) + Tagged(f, "Bitcoin prevblock header, hashed", Reverse(h.prev))[6..]
  }

  function StageMessage4(f: S.Compress, h: Header2): Ss4 {
    hide PrevHidden, Message3, Hash, ToLE;
    PrevHidden(f, h) + ToLE(h.nonce, 4) + ToLE(h.nonce2, 4) + ToLE(h.timeOffset, 4) + ToLE(h.nonce3, 4)
    + Hash(Message3(f, h), 32)
  }

  predicate ModeZero(h: Header2) { h.flags % 4 == 0 }

  method PutLe32(out: array<Byte>, at: nat, v: U32)
    requires at + 4 <= out.Length
    modifies out
    ensures out[..] == old(out[..at]) + ToLE(v, 4) + old(out[at + 4..])
    ensures out[..at + 4] == old(out[..at]) + ToLE(v, 4)
  {
    out[at] := v % 256;
    out[at + 1] := v / 256 % 256;
    out[at + 2] := v / 65536 % 256;
    out[at + 3] := v / 16777216 % 256;
    FourDigits(v);
  }

  method PutByte(out: array<Byte>, at: nat, x: Byte)
    requires at < out.Length
    modifies out
    ensures out[..at + 1] == old(out[..at]) + [x]
  {
    out[at] := x;
  }

  lemma FourDigits(v: U32)
    ensures ToLE(v, 4) == [v % 256, v / 256 % 256, v / 65536 % 256, v / 16777216 % 256]
  {
    DivDiv(v, 256, 256);
    DivDiv(v, 65536, 256);
    var b, c, d := v / 256, v / 65536, v / 16777216;
    assert ToLE(d, 1) == [d % 256];
    assert ToLE(c, 2) == [c % 256, d % 256];
    assert ToLE(b, 3) == [b % 256, c % 256, d % 256];
    assert ToLE(v, 4) == [v % 256, b % 256, c % 256, d % 256];
  }

  /** prev_sane: the previous block hash reversed. */
  method Reversed32(b: Bytes32) returns (r: Bytes32)
    ensures r == Reverse(b)
  {
    hide Reverse;
    var a := new Byte[32];
    for i := 0 to 32
      invariant forall k :: 0 <= k < i ==> a[k] == b[31 - k]
    {
      a[i] := b[31 - i];
    }
    assert a[..] == Reverse(b);
    r := a[..];
  }

  method TaggedHash(f: S.Compress, tag: string, payload: seq<Byte>) returns (out: Bytes32)
    ensures out == Tagged(f, tag, payload)
  {
    hide S.Digest, Ascii;
    out := S.TaggedHash(f, Ascii(tag), payload);
  }

  /** The 119-byte payload of stage 1, written field by field. */
  method FillPayload1(f: S.Compress, h: Header2) returns (p: seq<Byte>)
    ensures p == Payload1(f, h)
  {
    hide Tagged, ToLE, Reverse, CompleteVersion, TimeOnWire;
    var inner := TaggedHash(f, "Bitcoin block hash PoW XOR key", h.xorKey);
    var a := new Byte[119](_ => 0);
    FillFront(h, a);
    ghost var front := a[..76];
    PutByte(a, 76, 0);
    PutLe32(a, 77, h.nBits);
    PutLe32(a, 81, h.txCount);
    ghost var before := a[..85];
    assert before == front + [0] + ToLE(h.nBits, 4) + ToLE(h.txCount, 4);
    PutByte(a, 85, h.flags);
    PutByte(a, 86, h.clearBits);
    assert before + [h.flags] + [h.clearBits] == before + [h.flags, h.clearBits];
    Copy(a, 87, inner);
    assert a[..119] == a[..];
    p := a[..];
  }

  /** Its fields up to the time. */
  method FillFront(h: Header2, a: array<Byte>)
    requires a.Length == 119
    modifies a
    ensures a[..76] == ToLE(CompleteVersion(h), 4) + Reverse(h.prev) + ToLE(h.height % TWO32, 4) + h.merkle
                       + ToLE(TimeOnWire(h), 4)
  {
    hide ToLE, Reverse, CompleteVersion, TimeOnWire;
    var sane := Reversed32(h.prev);
    PutLe32(a, 0, CompleteVersion(h));
    assert a[..0] == [] && a[..4] == ToLE(CompleteVersion(h), 4);
    Copy(a, 4, sane);
    PutLe32(a, 36, h.height % TWO32);
    Copy(a, 40, h.merkle);
    PutLe32(a, 72, TimeOnWire(h));
  }

  /** stage_inputs: the chip does mode 0 only, any other header is refused. */
  method StageInputs(f: S.Compress, h: Header2) returns (r: Option<(Ss3, Ss4, Bytes32)>)
    ensures ModeZero(h) ==> r == Some((Message3(f, h), StageMessage4(f, h), Hash(Message3(f, h), 32)))
    ensures !ModeZero(h) ==> r == None
  {
    hide Tagged, ToLE, Reverse, Payload1, Hash;
    if h.flags % 4 != 0 {
      return None;
    }
    var payload := FillPayload1(f, h);
    var h1 := TaggedHash(f, "Bitcoin block header 1", payload);
    var h2 := TaggedHash(f, "Merge-mining hook", h1 + Zeros(32) + h.mmRhs);
    assert h2 == Hash2(f, h);
    var a3 := new Byte[STAGE3_LEN](_ => 0);
    assert a3[..4] == Zeros(4);
    Copy(a3, 4, h2);
    assert a3[..36] == Zeros(4) + h2;
    Copy(a3, 36, h.extranonce);
    assert a3[..] == Message3(f, h);
    var ss3: Ss3 := a3[..];
    var hashA := Blake2bNoKey(ss3, 32);
    var sane := Reversed32(h.prev);
    var hidden := TaggedHash(f, "Bitcoin prevblock header, hashed", sane);
    var a4 := new Byte[80](_ => 0);
    Copy(a4, 0, hidden);
    for i := 0 to 6
      invariant forall k :: 0 <= k < i ==> a4[k] == 0
      invariant forall k :: i <= k < 32 ==> a4[k] == hidden[k]
      modifies a4
    {
      a4[i] := 0;
    }
    assert a4[..32] == PrevHidden(f, h);
    PutLe32(a4, 32, h.nonce);
    PutLe32(a4, 36, h.nonce2);
    assert a4[..40] == PrevHidden(f, h) + ToLE(h.nonce, 4) + ToLE(h.nonce2, 4);
    ghost var p := a4[..40];
    PutLe32(a4, 40, h.timeOffset);
    PutLe32(a4, 44, h.nonce3);
    assert a4[..48] == p + ToLE(h.timeOffset, 4) + ToLE(h.nonce3, 4);
    Copy(a4, 48, hashA);
    assert a4[..] == StageMessage4(f, h);
    r := Some((ss3, a4[..], hashA));
  }

  /** build_work_item writes the item worksrc_pack_item would; a refused header leaves the
      buffer alone. */
  method BuildWorkItem(f: S.Compress, h: Header2, target: U64, out: array<Byte>) returns (ok: bool)
    requires out.Length == WORK_ITEM_LEN
    modifies out
    ensures ok <==> ModeZero(h)
    ensures ok ==> out[..] == Item(Knots, WorkCtx(Message3(f, h), StageMessage4(f, h), target))
    ensures !ok ==> out[..] == old(out[..])
  {
    hide Message3, StageMessage4, Item, Hash;
    var stages := StageInputs(f, h);
    if stages.None? {
      return false;
    }
    var n := PackItem(WorkCtx(stages.value.0, stages.value.1, target), WORK_ITEM_LEN, out);
    ok := true;
  }

  // ---------------------------------------------------------------- stage 5

  function XorByte(a: Byte, b: Byte): Byte {
    assert Pow2(8) == 256;
    XorNatBound(a, b, 8);
    XorNat(a, b)
  }

  /** Clearing the top bits of the mask: clear_bits / 8 whole bytes, then the rest. */
  function Cleared(m: Bytes32, bits: Byte): Bytes32 {
    hide Pow2, ClearedByte;
    seq(32, i requires 0 <= i < 32 => ClearedByte(m[i], i, bits))
  }

  function ClearedByte(x: Byte, i: nat, bits: Byte): Byte {
    hide Pow2;
    RestAtMost(x, Pow2(8 - bits % 8));
    if i < bits / 8 then 0 else if i == bits / 8 then x % Pow2(8 - bits % 8) else x
  }

  function Mask(f: S.Compress, h: Header2): Bytes32 {
    if h.xorKey == seq(16, _ => 0) then Zeros(32)
    else Cleared(Tagged(f, "Bitcoin block hash PoW XOR mask", h.xorKey), h.clearBits)
  }

  /** Masked and byte-reversed. */
  function Masked(b: Bytes32, m: Bytes32): Bytes32 {
    hide XorByte;
    seq(32, i requires 0 <= i < 32 => XorByte(b[31 - i], m[31 - i]))
  }

  /** get_pow_hash of a mode-0 header. */
  function PowHash(f: S.Compress, h: Header2): Bytes32 {
    hide Hash, StageMessage4, Mask;
    Masked(Hash(StageMessage4(f, h), 32), Mask(f, h))
  }

  method GetPowHash(f: S.Compress, h: Header2) returns (r: Option<Bytes32>)
    ensures r == if ModeZero(h) then Some(PowHash(f, h)) else None
  {
    hide Hash, StageMessage4, Message3, Mask, Masked;
    var stages := StageInputs(f, h);
    if stages.None? {
      return None;
    }
    var b := Blake2bNoKey(stages.value.1, 32);
    var mask := MaskFor(f, h);
    var out := ApplyMask(b, mask);
    r := Some(out);
  }

  /** The mask bytes: none for a zero key. */
  method MaskFor(f: S.Compress, h: Header2) returns (m: Bytes32)
    ensures m == Mask(f, h)
  {
    hide Tagged, Cleared;
    var i := 0;
    while i < 16 && h.xorKey[i] == 0
      invariant i <= 16 && forall k :: 0 <= k < i ==> h.xorKey[k] == 0
    {
      i := i + 1;
    }
    if i == 16 {
      assert h.xorKey == seq(16, _ => 0);
      return Zeros(32);
    }
    assert h.xorKey != seq(16, _ => 0) by { assert seq(16, _ => 0)[i] == 0; }
    var full := TaggedHash(f, "Bitcoin block hash PoW XOR mask", h.xorKey);
    var mask := new Byte[32](k requires 0 <= k < 32 => full[k]);
    assert mask[..] == full;
    ClearMask(mask, h.clearBits);
    m := mask[..];
  }

  method ApplyMask(b: Bytes32, m: Bytes32) returns (r: Bytes32)
    ensures r == Masked(b, m)
  {
    hide XorByte;
    var out := new Byte[32];
    for j := 0 to 32
      invariant forall k :: 32 - j <= k < 32 ==> out[k] == XorByte(b[31 - k], m[31 - k])
    {
      out[31 - j] := XorByte(b[j], m[j]);
    }
    assert out[..] == Masked(b, m);
    r := out[..];
  }

  method ClearMask(mask: array<Byte>, bits: Byte)
    requires mask.Length == 32
    modifies mask
    ensures mask[..] == Cleared(old(mask[..]), bits)
  {
    hide Pow2, ClearedByte;
    ghost var m: Bytes32 := mask[..];
    var bytes := bits / 8;
    for i := 0 to bytes
      invariant forall k :: 0 <= k < 32 ==> mask[k] == if k < i then 0 else m[k]
    {
      mask[i] := 0;
    }
    var rem := bits % 8;
    WholeByte(mask[bytes]);
    if rem != 0 {
      mask[bytes] := mask[bytes] % Pow2(8 - rem);
    }
    forall k | 0 <= k < 32
      ensures mask[k] == ClearedByte(m[k], k, bits)
    {
      ClearedIs(m[k], k, bits);
    }
    assert mask[..] == Cleared(m, bits);
  }

  lemma ClearedIs(x: Byte, i: nat, bits: Byte)
    ensures ClearedByte(x, i, bits)
         == if i < bits / 8 then 0 else if i == bits / 8 then x % Pow2(8 - bits % 8) else x
  {
    hide Pow2;
  }

  lemma WholeByte(x: Byte)
    ensures x % Pow2(8) == x
  {
    assert Pow2(8) == 256;
  }

  // ---------------------------------------------------------------- solo mining

  /** The header with a reported nonce written back into its two nonce fields. */
  function WithCandidate(h: Header2, n: U64): Header2 {
    h.(nonce := n % TWO32, nonce2 := n / TWO32)
  }

  lemma NonceHalves(n: U64)
    ensures ToLE(n, 8) == ToLE(n % TWO32, 4) + ToLE(n / TWO32, 4)
  {
    hide LE, ToLE;
    var a, b := ToLE(n % TWO32, 4), ToLE(n / TWO32, 4);
    Pow256Values();
    LEToLE(n % TWO32, 4);
    LEToLE(n / TWO32, 4);
    LEConcat(a, b);
    ToLELE(a + b);
  }

  /** Writing a candidate back into the header is overwriting the nonce bytes of the item the
      chip was sent; stage 3 does not move. */
  lemma CandidateIsNonce(f: S.Compress, h: Header2, n: U64)
    ensures StageMessage4(f, WithCandidate(h, n)) == WithNonce(StageMessage4(f, h), n)
    ensures Message3(f, WithCandidate(h, n)) == Message3(f, h)
  {
    hide ToLE, Tagged, Hash, Reverse;
    NonceHalves(n);
    assert Payload1(f, WithCandidate(h, n)) == Payload1(f, h);
  }

  /** The chip stops after stage 4. What it compares is the proof-of-work hash exactly when
      stage 5 has nothing to do, that is when the XOR mask is zero. */
  lemma StageFiveIdle(f: S.Compress, h: Header2, n: U64)
    ensures PowHash(f, WithCandidate(h, n)) == CompareBytes(Knots, StageMessage4(f, h), n)
       <==> Mask(f, h) == Zeros(32)
    ensures h.xorKey == seq(16, _ => 0) ==> Mask(f, h) == Zeros(32)
  {
    hide StageMessage4, Hash, Cleared, Tagged, WithNonce, Masked, Reverse;
    CandidateIsNonce(f, h, n);
    MaskedIdle(Hash(WithNonce(StageMessage4(f, h), n), 32), Mask(f, h));
  }

  lemma MaskedIdle(b: Bytes32, m: Bytes32)
    ensures Masked(b, m) == Reverse(b) <==> m == Zeros(32)
  {
    hide XorByte, Reverse;
    var p, c := Masked(b, m), Reverse(b);
    forall i | 0 <= i < 32
      ensures p[i] == c[i] <==> m[31 - i] == 0
    {
      XorIdle(b[31 - i], m[31 - i]);
    }
    if p == c {
      forall j | 0 <= j < 32
        ensures m[j] == 0
      {
        assert p[31 - j] == c[31 - j];
      }
    }
  }

  lemma XorIdle(a: Byte, b: Byte)
    ensures XorByte(a, b) == a <==> b == 0
  {
    XorNatIdle(a, b);
    XorNatZero(a);
  }

  lemma {:induction false} XorNatIdle(a: nat, b: nat)
    ensures XorNat(a, b) == a ==> b == 0
    decreases a + b
  {
    if b != 0 {
      XorNatHalf(a, b);
      if XorNat(a, b) == a { XorNatIdle(a / 2, b / 2); }
    }
  }

  /** The message of every header carries its stage-3 digest. */
  lemma CarriesDigest(f: S.Compress, h: Header2)
    ensures StageMessage4(f, h)[48..] == Hash(Message3(f, h), 32)
  {
    hide ToLE, Tagged, Hash, Message3;
  }

  /** So for every solo job the core of a chip that computes stage 3 itself hashes, for every
      nonce, the header the host put together. */
  lemma SoloJobMayBypass(f: S.Compress, h: Header2, target: U64, run: seq<Stage3>, ins: seq<Header>, t: nat, n: U64)
    requires var w := WorkCtx(Message3(f, h), StageMessage4(f, h), target);
             && Stage3Runs(run, ins) && t + 97 <= |ins|
             && forall u :: t <= u < t + 97 ==> ins[u] == Stage3In(BitsOf(Item(Knots, w)))
    ensures var w := WorkCtx(Message3(f, h), StageMessage4(f, h), target);
            var slots := MessageSlots(Knots, BitsOf(Item(Knots, w)));
            && Compose(slots, OnChip(run[t + 97])) == Compose(slots, Bypassed(slots))
            && Compose(slots, OnChip(run[t + 97]))[NONCE_WORD := n] == HeaderOf(WithNonce(w.ss4, n))
  {
    hide StageMessage4, Message3, MessageSlots, Stage3In, Stage3Runs, OnChip, Compose, Item, Bypassed, Hash, HeaderOf,
      WithNonce;
    CarriesDigest(f, h);
    var w := WorkCtx(Message3(f, h), StageMessage4(f, h), target);
    BypassEquivalent(w, run, ins, t, n);
    NonceIsWord4(w.ss4, n);
  }

  /** Solo mining end to end: with a zero key and no inflated target, a report about the item
      of a header is a nonce whose five-stage hash meets the target. */
  lemma ReportSolves(f: S.Compress, h: Header2, n: U64, target: Bytes32)
    requires Mask(f, h) == Zeros(32)
    requires Knots.Compared(DigestWord(Knots, HeaderOf(StageMessage4(f, h)), n)) < BE(target) / TWO192
    ensures BE(PowHash(f, WithCandidate(h, n))) <= BE(target)
  {
    hide DigestWord, HeaderOf, StageMessage4, PowHash, CompareBytes, BE, Mask;
    StageFiveIdle(f, h, n);
    PrefilterExact(Knots, StageMessage4(f, h), n, target);
  }
}
