/** From the arbiter's grants to the host's parsed results: arbiter, transmitter, line and
    parse_result composed (src/OspreyBlake2bUartTop.vhd, miner/work_item.c). */
module ResultPath {
  import opened Words
  import opened Serial
  import Blake2b
  import A = Arbiter
  import U = Uart

  const FRAME: nat := 17
  const FLAG: Byte := 0x01

  /** ResultData: hash & nonce & x"01", low bit first. */
  function FrameBits(p: A.Pair): (b: seq<bool>)
    ensures |b| == 8 * FRAME
  {
    Bits(FLAG, 8) + Bits(p.nonce, 64) + Bits(p.hash, 64)
  }

  /** The same frame as bytes. */
  function FrameBytes(p: A.Pair): (b: seq<Byte>)
    ensures |b| == FRAME
  {
    [FLAG] + ToLE(p.nonce, 8) + ToLE(p.hash, 8)
  }

  lemma FrameOnTheWire(p: A.Pair)
    ensures BytesOf(FrameBits(p)) == FrameBytes(p)
  {
    hide BytesOf, ToLE, Bits;
    WordBits(p.nonce, 8);
    WordBits(p.hash, 8);
    FlagBits();
    BitsOfConcat([FLAG], ToLE(p.nonce, 8));
    BitsOfConcat([FLAG] + ToLE(p.nonce, 8), ToLE(p.hash, 8));
    BytesOfBitsOf(FrameBytes(p));
  }

  lemma FlagBits()
    ensures Bits(FLAG, 8) == BitsOf([FLAG])
  {
    assert [FLAG][1..] == [];
    assert BitsOf([]) == [];
  }

  // ---------------------------------------------------------------- parse_result

  datatype Parsed = Accepted(nonce: U64, hash: U64) | Rejected(nonce: U64, hash: U64)

  /** parse_result: both words are decoded whatever the flag says. */
  method ParseResult(buf: seq<Byte>) returns (r: Parsed)
    requires |buf| == FRAME
    ensures r == Parse(buf)
  {
    var nonce := Blake2b.LoadWord(buf[1..9]);
    var hash := Blake2b.LoadWord(buf[9..17]);
    r := if buf[0] == FLAG then Accepted(nonce, hash) else Rejected(nonce, hash);
  }

  function Parse(buf: seq<Byte>): Parsed
    requires |buf| == FRAME
  {
    var nonce, hash := Load64(buf[1..9]), Load64(buf[9..17]);
    if buf[0] == FLAG then Accepted(nonce, hash) else Rejected(nonce, hash)
  }

  lemma ParseOfFrame(p: A.Pair)
    ensures Parse(FrameBytes(p)) == Accepted(p.nonce, p.hash)
  {
    hide ToLE, LE;
    var b := FrameBytes(p);
    assert b[1..9] == ToLE(p.nonce, 8) && b[9..17] == ToLE(p.hash, 8);
    Pow256Values();
    LEToLE(p.nonce, 8);
    LEToLE(p.hash, 8);
  }

  // ---------------------------------------------------------------- the composed machine

  datatype Sys = Sys(arb: A.Arb, tx: U.Tx, line: U.Decoder)

  /** One clock: what the cores offer, and whether this clock carries a baud tick. */
  datatype Input = Input(offers: seq<A.Offer>, tick: bool)

  ghost predicate Valid(s: Sys, n: nat) {
    s.arb.Valid(n) && U.InStep(s.tx, FRAME, s.line)
  }

  /** Grant of this clock: the arbiter sees the transmitter ready while it is idle. */
  function GrantOf(s: Sys, n: nat): A.Grant
    requires s.arb.Valid(n)
  {
    A.Select(s.arb, s.tx.phase.Idle?)
  }

  function Offered(g: A.Grant): seq<bool> {
    if g.Granted? then FrameBits(g.pair) else Low(8 * FRAME)
  }

  function Clocked(s: Sys, n: nat, x: Input): Sys
    requires Valid(s, n) && |x.offers| == n
  {
    var g := GrantOf(s, n);
    var tx := U.Clocked(s.tx, FRAME, g.Granted?, Offered(g), x.tick);
    Sys(A.Clocked(s.arb, A.Input(x.offers, s.tx.phase.Idle?)), tx,
        if x.tick then U.Sampled(s.line, tx.line[0]) else s.line)
  }

  lemma ClockedValid(s: Sys, n: nat, x: Input)
    requires Valid(s, n) && |x.offers| == n
    ensures Valid(Clocked(s, n, x), n)
  {
    hide A.Select, A.Clocked, U.Clocked, U.Sampled, U.InStep;
    var g := GrantOf(s, n);
    U.ClockConserves(s.tx, FRAME, s.line, g.Granted?, Offered(g), x.tick);
    var _ := A.Clocked(s.arb, A.Input(x.offers, s.tx.phase.Idle?));
  }

  ghost predicate Inputs(ins: seq<Input>, n: nat) {
    forall t :: 0 <= t < |ins| ==> |ins[t].offers| == n
  }

  /** Power-up: empty slots, idle line. */
  predicate Reset(s: Sys, n: nat): (b: bool)
    ensures b ==> Valid(s, n)
  {
    U.QuietInStep(FRAME);
    s.arb.Valid(n) && A.IsReset(s.arb) && s.tx == U.Quiet(FRAME) && s.line == U.Listening
  }

  function After(s: Sys, n: nat, ins: seq<Input>): (r: Sys)
    requires Valid(s, n) && Inputs(ins, n)
    ensures Valid(r, n)
  {
    if ins == [] then s
    else
      var before := After(s, n, ins[..|ins| - 1]);
      ClockedValid(before, n, ins[|ins| - 1]);
      Clocked(before, n, ins[|ins| - 1])
  }

  /** Every grant so far, in order. */
  function Grants(s: Sys, n: nat, ins: seq<Input>): seq<A.Pair>
    requires Valid(s, n) && Inputs(ins, n)
  {
    if ins == [] then []
    else
      var g := GrantOf(After(s, n, ins[..|ins| - 1]), n);
      Grants(s, n, ins[..|ins| - 1]) + if g.Granted? then [g.pair] else []
  }

  function Frames(ps: seq<A.Pair>): (b: seq<Byte>)
    ensures |b| == FRAME * |ps|
  {
    if ps == [] then [] else Frames(ps[..|ps| - 1]) + FrameBytes(ps[|ps| - 1])
  }

  lemma FramesAppend(ps: seq<A.Pair>, p: A.Pair)
    ensures Frames(ps + [p]) == Frames(ps) + FrameBytes(p)
  {
    assert (ps + [p])[..|ps|] == ps;
  }

  /** Conservation on the line: bytes decoded so far plus bytes in flight are the frames of
      all grants so far. */
  lemma {:induction false} LineConserves(s: Sys, n: nat, ins: seq<Input>)
    requires Reset(s, n) && Inputs(ins, n)
    ensures var r := After(s, n, ins);
            r.line.bytes + U.Pending(r.tx, FRAME, r.line) == Frames(Grants(s, n, ins))
  {
    hide A.Select, A.Clocked, U.Clocked, U.Sampled, U.InStep, U.Pending, FrameBits, FrameBytes, Frames;
    if ins == [] {
      StartsEmpty(s, n);
    } else {
      var before := ins[..|ins| - 1];
      LineConserves(s, n, before);
      var b, x := After(s, n, before), ins[|ins| - 1];
      LineStep(b, n, x);
      var g := GrantOf(b, n);
      if g.Granted? {
        FramesAppend(Grants(s, n, before), g.pair);
      } else {
        assert Grants(s, n, ins) == Grants(s, n, before);
      }
    }
  }

  lemma StartsEmpty(s: Sys, n: nat)
    requires Reset(s, n)
    ensures s.line.bytes + U.Pending(s.tx, FRAME, s.line) == [] == Frames([])
  {
  }

  lemma LineStep(b: Sys, n: nat, x: Input)
    requires Valid(b, n) && |x.offers| == n
    ensures var c := Clocked(b, n, x);
            var g := GrantOf(b, n);
            && Valid(c, n)
            && c.line.bytes + U.Pending(c.tx, FRAME, c.line)
               == b.line.bytes + U.Pending(b.tx, FRAME, b.line) + if g.Granted? then FrameBytes(g.pair) else []
  {
    hide A.Search, A.Clocked, U.Clocked, U.Sampled, U.InStep, U.Pending, FrameBits, FrameBytes, BytesOf;
    ClockedValid(b, n, x);
    var g := GrantOf(b, n);
    U.ClockConserves(b.tx, FRAME, b.line, g.Granted?, Offered(g), x.tick);
    if g.Granted? { FrameOnTheWire(g.pair); }
  }

  /** At most one frame is in flight. */
  lemma PendingShort(s: Sys, n: nat)
    requires Valid(s, n)
    ensures |U.Pending(s.tx, FRAME, s.line)| <= FRAME
    ensures s.tx.phase.Idle? ==> U.Pending(s.tx, FRAME, s.line) == []
  {
  }

  lemma {:induction false} FrameAt(ps: seq<A.Pair>, i: nat)
    requires i < |ps|
    ensures Frames(ps)[FRAME * i..FRAME * i + FRAME] == FrameBytes(ps[i])
  {
    hide FrameBytes;
    if i < |ps| - 1 {
      var front := ps[..|ps| - 1];
      FrameAt(front, i);
      assert Frames(ps)[FRAME * i..FRAME * i + FRAME] == Frames(front)[FRAME * i..FRAME * i + FRAME];
    }
  }

  /** Result path end to end: after any run of any number of cores, each whole 17-byte window
      the line decoder has put out parses as the corresponding grant, in order; at most the
      last grant is still under way, and none is once the transmitter is idle. */
  lemma EveryGrantParses(s: Sys, n: nat, ins: seq<Input>, i: nat)
    requires Reset(s, n) && Inputs(ins, n)
    ensures var r := After(s, n, ins);
            var grants := Grants(s, n, ins);
            var bytes := r.line.bytes;
            && r.line.errors == 0
            && |bytes| <= FRAME * |grants| <= |bytes| + FRAME
            && (r.tx.phase.Idle? ==> |bytes| == FRAME * |grants|)
            && (FRAME * i + FRAME <= |bytes| ==>
                  i < |grants|
                  && Parse(bytes[FRAME * i..FRAME * i + FRAME]) == Accepted(grants[i].nonce, grants[i].hash))
  {
    hide Parse, FrameBytes, U.Pending, After, Grants;
    var r := After(s, n, ins);
    var grants := Grants(s, n, ins);
    var bytes := r.line.bytes;
    LineConserves(s, n, ins);
    PendingShort(r, n);
    if FRAME * i + FRAME <= |bytes| {
      FrameAt(grants, i);
      ParseOfFrame(grants[i]);
      assert bytes[FRAME * i..FRAME * i + FRAME] == Frames(grants)[FRAME * i..FRAME * i + FRAME];
    }
  }

  // ---------------------------------------------------------------- silence on the line

  /** Bytes decoded by clock t. */
  function LineAt(s: Sys, n: nat, ins: seq<Input>, t: nat): seq<Byte>
    requires Valid(s, n) && Inputs(ins, n) && t <= |ins|
  {
    After(s, n, ins[..t]).line.bytes
  }

  function Ticks(ins: seq<Input>): nat {
    if ins == [] then 0 else Ticks(ins[..|ins| - 1]) + if ins[|ins| - 1].tick then 1 else 0
  }

  lemma OneMoreClock(s: Sys, n: nat, ins: seq<Input>, t: nat)
    requires Valid(s, n) && Inputs(ins, n) && t < |ins|
    ensures After(s, n, ins[..t + 1]) == Clocked(After(s, n, ins[..t]), n, ins[t])
  {
    hide Clocked;
    assert ins[..t + 1][..t] == ins[..t];
  }

  lemma {:induction false} LineGrows(s: Sys, n: nat, ins: seq<Input>, t: nat, u: nat)
    requires Valid(s, n) && Inputs(ins, n) && t <= u <= |ins|
    ensures LineAt(s, n, ins, t) <= LineAt(s, n, ins, u)
    decreases u
  {
    hide After, Clocked, Valid;
    if t < u {
      LineGrows(s, n, ins, t, u - 1);
      OneMoreClock(s, n, ins, u - 1);
      ClockAddsBytes(After(s, n, ins[..u - 1]), n, ins[u - 1]);
    }
  }

  lemma ClockAddsBytes(s: Sys, n: nat, x: Input)
    requires Valid(s, n) && |x.offers| == n
    ensures s.line.bytes <= Clocked(s, n, x).line.bytes
  {
    hide A.Select, A.Clocked, U.Clocked, U.InStep;
  }

  /** From clock t on nothing has come out. Either the line stands between frames, or the same bytes
      are owed as then and every tick has brought the end of the frame nearer. */
  ghost predicate Working(x: Sys, y: Sys, n: nat, ticks: nat)
    requires Valid(x, n) && Valid(y, n)
  {
    && !x.tx.phase.Idle? && !y.tx.phase.Idle?
    && |U.Pending(y.tx, FRAME, y.line)| == |U.Pending(x.tx, FRAME, x.line)|
    && U.CellsLeft(y.tx, FRAME) == U.CellsLeft(x.tx, FRAME) - ticks
  }

  lemma {:induction false} QuietStretch(s: Sys, n: nat, ins: seq<Input>, t: nat, u: nat)
    requires Reset(s, n) && Inputs(ins, n) && t <= u <= |ins| && LineAt(s, n, ins, t) == LineAt(s, n, ins, u)
    ensures |LineAt(s, n, ins, u)| % FRAME == 0
         || Working(After(s, n, ins[..t]), After(s, n, ins[..u]), n, Ticks(ins[t..u]))
    decreases u
  {
    hide After, Clocked, Valid, Reset, U.Pending, U.CellsLeft, Grants, Parse;
    EveryGrantParses(s, n, ins[..u], 0);
    if t == u {
      assert ins[t..u] == [];
    } else {
      LineGrows(s, n, ins, t, u - 1);
      LineGrows(s, n, ins, u - 1, u);
      QuietStretch(s, n, ins, t, u - 1);
      OneMoreClock(s, n, ins, u - 1);
      assert ins[t..u][..u - 1 - t] == ins[t..u - 1];
      if !After(s, n, ins[..u - 1]).tx.phase.Idle? { BusyClock(After(s, n, ins[..u - 1]), n, ins[u - 1]); }
    }
  }

  lemma BusyClock(b: Sys, n: nat, x: Input)
    requires Valid(b, n) && |x.offers| == n && !b.tx.phase.Idle?
    ensures var c := Clocked(b, n, x);
            && Valid(c, n)
            && U.CellsLeft(c.tx, FRAME) == U.CellsLeft(b.tx, FRAME) - (if x.tick then 1 else 0)
            && (c.line.bytes == b.line.bytes ==>
                  |U.Pending(c.tx, FRAME, c.line)| == |U.Pending(b.tx, FRAME, b.line)|)
  {
    hide A.Search, A.Clocked, U.Clocked, U.Sampled, U.InStep, U.Pending, U.CellsLeft;
    LineStep(b, n, x);
    var g := GrantOf(b, n);
    U.FrameCells(b.tx, FRAME, b.line, g.Granted?, Offered(g), x.tick);
  }

  /** A silence of eleven bit cells falls between frames: if no byte has come out over that many
      ticks, those that have are whole frames. */
  lemma GapBetweenFrames(s: Sys, n: nat, ins: seq<Input>, t: nat, u: nat)
    requires Reset(s, n) && Inputs(ins, n) && t <= u <= |ins|
    requires LineAt(s, n, ins, t) == LineAt(s, n, ins, u) && Ticks(ins[t..u]) >= 11
    ensures |LineAt(s, n, ins, u)| % FRAME == 0
  {
    hide After, Valid, Reset, U.Pending, U.CellsLeft, LineAt;
    QuietStretch(s, n, ins, t, u);
    var x, y := After(s, n, ins[..t]), After(s, n, ins[..u]);
    assert Valid(x, n) && Valid(y, n);
    if Working(x, y, n, Ticks(ins[t..u])) {
      BoundedWork(x, n);
      BoundedWork(y, n);
    }
  }

  lemma BoundedWork(x: Sys, n: nat)
    requires Valid(x, n) && !x.tx.phase.Idle?
    ensures var p := |U.Pending(x.tx, FRAME, x.line)|; 11 * p - 9 <= U.CellsLeft(x.tx, FRAME) <= 11 * p + 1
  {
    hide U.Pending, U.CellsLeft, U.InStep;
    U.CellsOfPending(x.tx, FRAME, x.line);
  }

  // ---------------------------------------------------------------- per core

  /** The arbiter inputs this run feeds it: the offers, and ready while the line is idle. */
  function ArbInputs(s: Sys, n: nat, ins: seq<Input>): (x: seq<A.Input>)
    requires Valid(s, n) && Inputs(ins, n)
    ensures |x| == |ins| && A.Inputs(x, n)
  {
    if ins == [] then []
    else
      ArbInputs(s, n, ins[..|ins| - 1])
      + [A.Input(ins[|ins| - 1].offers, After(s, n, ins[..|ins| - 1]).tx.phase.Idle?)]
  }

  /** Grants by core, from the same log. */
  function GrantLog(s: Sys, n: nat, ins: seq<Input>): seq<A.Grant>
    requires Valid(s, n) && Inputs(ins, n)
  {
    if ins == [] then []
    else
      var g := GrantOf(After(s, n, ins[..|ins| - 1]), n);
      GrantLog(s, n, ins[..|ins| - 1]) + if g.Granted? then [g] else []
  }

  function OfCore(log: seq<A.Grant>, k: nat): seq<A.Pair> {
    if log == [] then []
    else
      var g := log[|log| - 1];
      OfCore(log[..|log| - 1], k) + if A.GrantsCore(g, k) then [g.pair] else []
  }

  /** The frames on the wire are the grants of the log, and core k's share of the log is what
      the arbiter delivered for k, so Arbiter.Conservation speaks about the parsed results. */
  lemma {:induction false} LogIsDelivery(s: Sys, n: nat, ins: seq<Input>, k: nat)
    requires Valid(s, n) && Inputs(ins, n) && k < n
    ensures var x := ArbInputs(s, n, ins);
            var log := GrantLog(s, n, ins);
            && After(s, n, ins).arb == A.After(s.arb, x, n)
            && OfCore(log, k) == A.Delivered(s.arb, x, n, k)
            && |log| == |Grants(s, n, ins)|
            && forall i :: 0 <= i < |log| ==> log[i].Granted? && log[i].pair == Grants(s, n, ins)[i]
  {
    hide A.Select, A.Search, A.Clocked, A.Delivered, After, Grants, GrantLog, GrantOf, Valid, ArbInputs, OfCore;
    ArbiterAlone(s, n, ins);
    LogIsGrants(s, n, ins);
    if ins == [] {
      NothingLogged(s, n, k);
    } else {
      LogIsDelivery(s, n, ins[..|ins| - 1], k);
      OneMoreLogged(s, n, ins, k);
    }
  }

  lemma NothingLogged(s: Sys, n: nat, k: nat)
    requires Valid(s, n) && k < n
    ensures OfCore(GrantLog(s, n, []), k) == A.Delivered(s.arb, ArbInputs(s, n, []), n, k)
  {
    hide Valid;
  }

  /** Inside the composed run the arbiter runs as it does alone. */
  lemma {:induction false} ArbiterAlone(s: Sys, n: nat, ins: seq<Input>)
    requires Valid(s, n) && Inputs(ins, n)
    ensures After(s, n, ins).arb == A.After(s.arb, ArbInputs(s, n, ins), n)
  {
    hide A.Select, A.Clocked, U.Clocked, U.Sampled, U.InStep;
    if ins != [] {
      var before := ins[..|ins| - 1];
      ArbiterAlone(s, n, before);
      var x, y := ArbInputs(s, n, ins), ArbInputs(s, n, before);
      assert x[..|x| - 1] == y;
    }
  }

  lemma {:induction false} LogIsGrants(s: Sys, n: nat, ins: seq<Input>)
    requires Valid(s, n) && Inputs(ins, n)
    ensures var log := GrantLog(s, n, ins);
            && |log| == |Grants(s, n, ins)|
            && forall i :: 0 <= i < |log| ==> log[i].Granted? && log[i].pair == Grants(s, n, ins)[i]
  {
    hide After, GrantOf, Valid;
    if ins != [] { LogIsGrants(s, n, ins[..|ins| - 1]); }
  }

  lemma OneMoreLogged(s: Sys, n: nat, ins: seq<Input>, k: nat)
    requires Valid(s, n) && Inputs(ins, n) && k < n && ins != []
    requires var before := ins[..|ins| - 1];
             && OfCore(GrantLog(s, n, before), k) == A.Delivered(s.arb, ArbInputs(s, n, before), n, k)
             && After(s, n, before).arb == A.After(s.arb, ArbInputs(s, n, before), n)
    ensures OfCore(GrantLog(s, n, ins), k) == A.Delivered(s.arb, ArbInputs(s, n, ins), n, k)
  {
    hide A.Select, A.After, A.Clocked, After, U.InStep;
    var before := ins[..|ins| - 1];
    var x, y := ArbInputs(s, n, ins), ArbInputs(s, n, before);
    assert x[..|x| - 1] == y;
    var g, log, front := GrantOf(After(s, n, before), n), GrantLog(s, n, ins), GrantLog(s, n, before);
    assert A.LastGrant(s.arb, x, n) == g;
    if g.Granted? {
      assert log == front + [g];
      assert log[..|log| - 1] == front;
    } else {
      assert log == front;
    }
  }
}
