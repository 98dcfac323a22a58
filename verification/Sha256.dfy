/** The streaming SHA-256 context (miner/sha256.c) against sections 5.1.1 and 6.2.2 of
    FIPS 180-4. The compression of one block is a parameter: what is proved is that buffering
    and padding feed it the right blocks, whatever it computes. */
module Sha256 {
  import opened Words

  type Word = x: int | 0 <= x < 0x1_0000_0000
  type State = s: seq<Word> | |s| == 8 witness seq(8, _ => 0)
  type Compress = (State, seq<Byte>) -> State

  const INITIAL: State := [
    0x6a09e667, 0xbb67ae85, 0x3c6ef372, 0xa54ff53a, 0x510e527f, 0x9b05688c, 0x1f83d9ab, 0x5be0cd19]

  // ---------------------------------------------------------------- specification

  /** Section 6.2.2: the block fold. Bytes past the last whole block are not read. */
  function Fold(f: Compress, s: State, b: seq<Byte>): State
    decreases |b|
  {
    if |b| < 64 then s else Fold(f, f(s, b[..64]), b[64..])
  }

  /** Section 5.1.1 for a message of len bytes; the length field has 64 bits. */
  function Padding(len: nat): (p: seq<Byte>)
    ensures (len + |p|) % 64 == 0 && 9 <= |p| <= 72
  {
    hide ToBE;
    FillRounds(len);
    [0x80] + Zeros(Fill(len)) + ToBE(8 * len % TWO64, 8)
  }

  /** Zero bytes between the marker and the length field. */
  function Fill(len: nat): nat { (55 - len) % 64 }

  lemma FillRounds(len: nat)
    ensures (len + 9 + Fill(len)) % 64 == 0 && Fill(len) < 64
  {
  }

  /** The state's words, each most significant byte first. */
  function DigestOf(s: State): (d: seq<Byte>)
    ensures |d| == 32
  {
    ToBE(s[0], 4) + ToBE(s[1], 4) + ToBE(s[2], 4) + ToBE(s[3], 4)
    + ToBE(s[4], 4) + ToBE(s[5], 4) + ToBE(s[6], 4) + ToBE(s[7], 4)
  }

  function Digest(f: Compress, message: seq<Byte>): (d: seq<Byte>)
    ensures |d| == 32
  {
    DigestOf(Fold(f, INITIAL, message + Padding(|message|)))
  }

  /** Folding in two goes at a block boundary. */
  lemma {:induction false} FoldConcat(f: Compress, s: State, a: seq<Byte>, b: seq<Byte>)
    requires |a| % 64 == 0
    ensures Fold(f, s, a + b) == Fold(f, Fold(f, s, a), b)
    decreases |a|
  {
    if a == [] {
      assert a + b == b;
    } else {
      assert (a + b)[..64] == a[..64] && (a + b)[64..] == a[64..] + b;
      FoldConcat(f, f(s, a[..64]), a[64..], b);
    }
  }

  lemma FoldOne(f: Compress, s: State, a: seq<Byte>, block: seq<Byte>)
    requires |a| % 64 == 0 && |block| == 64
    ensures Fold(f, s, a + block) == f(Fold(f, s, a), block)
  {
    FoldConcat(f, s, a, block);
    assert block[..64] == block && block[64..] == [];
  }

  // ---------------------------------------------------------------- the context

  function Whole(n: nat): (w: nat)
    ensures w % 64 == 0 && w <= n < w + 64
  {
    n - n % 64
  }

  class Context {
    const f: Compress
    const data: array<Byte>
    var datalen: nat
    var bitlen: U64
    var state: State
    ghost var message: seq<Byte>

    /** The buffer holds the unfinished block of the message so far, the state its whole ones. */
    ghost predicate Valid()
      reads this, data
    {
      var w := Whole(|message|);
      && data.Length == 64 && datalen == |message| - w
      && data[..datalen] == message[w..]
      && state == Fold(f, INITIAL, message[..w])
      && bitlen as nat == 8 * w % TWO64
    }

    /** sha256_init. */
    constructor (f: Compress)
      ensures Valid() && fresh(data) && message == [] && this.f == f
    {
      this.f := f;
      data := new Byte[64];
      datalen, bitlen, state, message := 0, 0, INITIAL, [];
      new;
      assert message[0..] == [] && message[..0] == [];
    }

    /** sha256_update. */
    method Update(bytes: seq<Byte>)
      requires Valid()
      modifies this, data
      ensures Valid() && message == old(message) + bytes
    {
      hide Fold;
      for i := 0 to |bytes|
        invariant Valid() && message == old(message) + bytes[..i]
      {
        assert bytes[..i + 1] == bytes[..i] + [bytes[i]];
        Push(bytes[i]);
      }
      assert bytes[..|bytes|] == bytes;
    }

    /** One turn of the update loop. */
    method Push(x: Byte)
      requires Valid()
      modifies this, data
      ensures Valid() && message == old(message) + [x]
    {
      hide Fold, Whole;
      ghost var m, w := message, Whole(|message|);
      WholeStep(|m|);
      data[datalen] := x;
      datalen := datalen + 1;
      message := message + [x];
      assert data[..datalen] == message[w..];
      assert message[..w] == m[..w];
      if datalen == 64 {
        ghost var block := data[..];
        assert block == data[..64];
        FoldOne(f, INITIAL, m[..w], block);
        assert message == message[..w] + message[w..];
        assert message[..|message|] == message;
        state := f(state, data[..]);
        bitlen := (bitlen + 512) % TWO64;
        WrapBits(w);
        datalen := 0;
        assert data[..0] == message[|message|..];
      }
    }

    /** The two branches of sha256_final: the 0x80 marker and zeros up to the length field,
        with one more block flushed when the field does not fit. */
    method PadTail() returns (ghost folded: seq<Byte>)
      requires Valid()
      modifies this`state, data
      ensures |folded| % 64 == 0 && state == Fold(f, INITIAL, folded)
      ensures folded + data[..56] == message + [0x80] + Zeros(Fill(|message|))
    {
      hide Fold, Fill;
      ghost var w := Whole(|message|);
      var fill := datalen;
      var end := if fill < 56 then 56 else 64;
      data[fill] := 0x80;
      assert data[..fill + 1] == message[w..] + [0x80];
      Clear(fill + 1, end);
      assert data[..end] == message[w..] + [0x80] + Zeros(end - 1 - fill);
      folded := message[..w];
      PaddingLayout(message, w, fill);
      if fill >= 56 {
        assert data[..64] == data[..];
        FoldOne(f, INITIAL, message[..w], data[..]);
        folded := message[..w] + data[..];
        state := f(state, data[..]);
        Clear(0, 56);
        assert data[..56] == Zeros(56);
      }
    }

    /** Bytes from, from + 1 and so on up to end set to zero. */
    method Clear(from: nat, end: nat)
      requires from <= end <= data.Length
      modifies data
      ensures data[..end] == old(data[..from]) + Zeros(end - from)
      ensures data[end..] == old(data[end..])
    {
      for i := from to end
        invariant forall k :: 0 <= k < from || end <= k < data.Length ==> data[k] == old(data[..])[k]
        invariant forall k :: from <= k < i ==> data[k] == 0
      {
        data[i] := 0;
      }
    }

    /** The length loop: eight bytes at the end of the buffer, most significant first. */
    method PutLength()
      requires data.Length == 64
      modifies data
      ensures data[..56] == old(data[..56]) && data[56..] == ToBE(bitlen, 8)
    {
      hide ToBE;
      ghost var head := data[..56];
      for i := 0 to 8
        invariant data[..56] == head
        invariant forall k :: 64 - i <= k < 64 ==> data[k] == ToBE(bitlen, 8)[k - 56]
      {
        ByteOfBE(bitlen, i);
        data[63 - i] := bitlen / Pow2(8 * i) % 256;
      }
    }

    /** sha256_final. */
    method Final() returns (out: seq<Byte>)
      requires Valid()
      modifies this, data
      ensures out == Digest(f, old(message))
    {
      hide Fold, DigestOf, ToBE;
      ghost var m, w := message, Whole(|message|);
      ghost var folded := PadTail();
      bitlen := (bitlen + datalen * 8) % TWO64;
      AddWrapped(8 * w, (|m| - w) * 8);
      PutLength();
      assert data[..] == data[..56] + data[56..];
      assert folded + data[..] == folded + data[..56] + data[56..];
      assert folded + data[..] == m + Padding(|m|);
      FoldOne(f, INITIAL, folded, data[..]);
      state := f(state, data[..]);
      out := Emit(state);
    }
  }

  lemma WholeStep(n: nat)
    ensures Whole(n + 1) == if n + 1 - Whole(n) == 64 then n + 1 else Whole(n)
    ensures 0 <= n - Whole(n) < 64
  {
  }

  lemma WrapBits(w: nat)
    ensures (8 * w % TWO64 + 512) % TWO64 == 8 * (w + 64) % TWO64
  {
  }

  lemma AddWrapped(a: nat, b: nat)
    ensures (a % TWO64 + b) % TWO64 == (a + b) % TWO64
  {
  }

  /** What the two branches of sha256_final leave in front of the length field. */
  lemma PaddingLayout(m: seq<Byte>, w: nat, fill: nat)
    requires w == Whole(|m|) && fill == |m| - w
    ensures m[..w] + m[w..] == m
    ensures fill < 56 ==> Zeros(Fill(|m|)) == Zeros(55 - fill)
    ensures fill >= 56 ==> Zeros(Fill(|m|)) == Zeros(63 - fill) + Zeros(56)
  {
    if fill < 56 {
      assert Fill(|m|) == 55 - fill;
    } else {
      assert Fill(|m|) == 119 - fill;
      assert Zeros(119 - fill) == Zeros(63 - fill) + Zeros(56);
    }
  }

  /** Byte i from the low end of a big-endian field. */
  lemma ByteOfBE(v: U64, i: nat)
    requires i < 8
    ensures v / Pow2(8 * i) % 256 == ToBE(v, 8)[7 - i]
  {
    BEAt(v, 8, i);
    Pow256IsPow2(i);
  }

  /** The output loops: byte i of every word, for i from 0 to 3. */
  method Emit(state: State) returns (out: seq<Byte>)
    ensures out == DigestOf(state)
  {
    hide ToBE, DigestOf;
    ghost var d := DigestOf(state);
    var o := new Byte[32];
    for i := 0 to 4
      invariant forall p :: 0 <= p < 32 && p % 4 < i ==> o[p] == d[p]
    {
      for j := 0 to 8
        invariant forall p :: 0 <= p < 32 && (p % 4 < i || (p % 4 == i && p / 4 < j)) ==> o[p] == d[p]
      {
        WordByte(state[j], i);
        DigestAt(state, j, i);
        o[i + j * 4] := state[j] / Pow2(24 - i * 8) % 256;
      }
    }
    out := o[..];
  }

  lemma DigestAt(s: State, j: nat, i: nat)
    requires j < 8 && i < 4
    ensures DigestOf(s)[4 * j + i] == ToBE(s[j], 4)[i]
  {
    hide ToBE;
    var d := DigestOf(s);
    if j == 0 { } else if j == 1 { } else if j == 2 { } else if j == 3 { }
    else if j == 4 { } else if j == 5 { } else if j == 6 { } else { assert j == 7; }
  }

  lemma WordByte(v: Word, i: nat)
    requires i < 4
    ensures v / Pow2(24 - i * 8) % 256 == ToBE(v, 4)[i]
  {
    BEAt(v, 4, 3 - i);
    Pow256IsPow2(3 - i);
  }

  // ---------------------------------------------------------------- clients

  function Join(pieces: seq<seq<Byte>>): seq<Byte> {
    if pieces == [] then [] else Join(pieces[..|pieces| - 1]) + pieces[|pieces| - 1]
  }

  /** Every way of splitting a message into update calls gives the digest of the whole. */
  method HashPieces(f: Compress, pieces: seq<seq<Byte>>) returns (out: seq<Byte>)
    ensures out == Digest(f, Join(pieces))
  {
    hide Fold, Digest;
    var c := new Context(f);
    for i := 0 to |pieces|
      invariant c.Valid() && c.f == f && c.message == Join(pieces[..i]) && fresh(c) && fresh(c.data)
    {
      assert pieces[..i + 1][..i] == pieces[..i];
      c.Update(pieces[i]);
    }
    assert pieces[..|pieces|] == pieces;
    out := c.Final();
  }

  /** sha256. */
  method Hash(f: Compress, data: seq<Byte>) returns (out: seq<Byte>)
    ensures out == Digest(f, data)
  {
    hide Fold, Digest;
    var c := new Context(f);
    c.Update(data);
    assert [] + data == data;
    out := c.Final();
  }

  /** tagged_hash: SHA256(SHA256(tag) || SHA256(tag) || payload). */
  method TaggedHash(f: Compress, tag: seq<Byte>, payload: seq<Byte>) returns (out: seq<Byte>)
    ensures out == Digest(f, Digest(f, tag) + Digest(f, tag) + payload)
  {
    hide Fold, Digest;
    var th := Hash(f, tag);
    var c := new Context(f);
    c.Update(th);
    c.Update(th);
    c.Update(payload);
    assert [] + th + th + payload == th + th + payload;
    out := c.Final();
  }
}
