/** The mining cores around the pipeline: the skewed nonce counters, the output tap, the
    on-chip prefilter and the reported triple (src/OspreyBlake2bStage4Core.vhd,
    src/sia/OspreySiaCore.vhd, src/OspreyBlake2bStage3Core.vhd). */
module Cores {
  import opened Words
  import opened Blake2b
  import opened Pipeline

  type Header = h: seq<U64> | |h| == 10 witness seq(10, _ => 0)
  type Counters = n: seq<U64> | |n| == 12 witness seq(12, _ => 0)

  /** Which digest word the core taps, and in which byte order it compares it. */
  datatype Rule = Knots | Sia {
    function Tap(): nat { if Knots? then 3 else 0 }

    /** Top 64 bits of the value the chain compares, from the tapped chain word. */
    function Compared(h: U64): U64 { if Knots? then h else ByteSwap(h) }
  }

  const GRIND_LEN: nat := 80
  const PIPE_LENGTH: nat := 96

  function MessageOf(header: Header): Message {
    header + [0, 0, 0, 0, 0, 0]
  }

  // ---------------------------------------------------------------- one clock

  datatype Core = Core(nonce: Counters, pipe: Pipe, delayed: U64, success: bool, nonceOut: U64, hashOut: U64)

  datatype Input = Input(enable: bool, header: Header, target: U64)

  /** How far the counter of round i runs behind that of round 0. */
  const SKEW: seq<nat> := [0, 8, 20 + 2, 28, 32 + 2, 44, 48, 60 + 2, 68 + 2, 72 + 2, 80, 88]

  function Reloaded(seed: U64): Counters {
    seq(12, i requires 0 <= i < 12 => Sub(seed, SKEW[i]))
  }

  function Advanced(nonce: Counters): Counters {
    seq(12, i requires 0 <= i < 12 => Add(nonce[i], 1))
  }

  /** The tapped chain word as the core sees it on this clock. */
  function Tapped(rule: Rule, s: Core): U64 {
    Xor(Xor(Start(32)[rule.Tap()], s.delayed), TapC(s.pipe, rule.Tap()))
  }

  function Clocked(rule: Rule, seed: U64, s: Core, x: Input): Core {
    var hash := Tapped(rule, s);
    var hit := rule.Compared(hash) < x.target;
    Core(if x.enable then Advanced(s.nonce) else Reloaded(seed),
         Tick(s.pipe, Initial(Start(32), GRIND_LEN, true), Grinding(MessageOf(x.header), s.nonce)),
         TapA(s.pipe, rule.Tap()),
         hit,
         if hit then Sub(s.nonce[0], PIPE_LENGTH + 1) else 0,
         if hit then ByteSwap(hash) else 0)
  }

  /** The core entity: registers updated on each clock edge. The counter registers are written
      in place, the other processes read the values from before the edge. */
  class GrindCore {
    const rule: Rule
    const seed: U64
    const nonce: array<U64>
    var pipe: Pipe
    var delayed: U64
    var success: bool
    var nonceOut: U64
    var hashOut: U64

    constructor (rule: Rule, seed: U64)
      ensures nonce.Length == 12 && fresh(nonce)
      ensures this.rule == rule && this.seed == seed && !success
    {
      this.rule, this.seed := rule, seed;
      nonce := new U64[12];
      pipe := seq(UNITS, _ => Zero);
      delayed, success, nonceOut, hashOut := 0, false, 0, 0;
    }

    ghost function View(): Core
      reads this, nonce
      requires nonce.Length == 12
    {
      Core(nonce[..], pipe, delayed, success, nonceOut, hashOut)
    }

    method Clock(x: Input)
      requires nonce.Length == 12
      modifies this, nonce
      ensures View() == Clocked(rule, seed, old(View()), x)
    {
      hide Tick, Xor, ByteSwap, Initial, Sub, Add, TapA, TapC;
      ghost var was: Core := View();
      var hash := Xor(Xor(Start(32)[rule.Tap()], delayed), TapC(pipe, rule.Tap()));
      var latched := nonce[..];
      if rule.Compared(hash) < x.target {
        success, nonceOut, hashOut := true, Sub(nonce[0], PIPE_LENGTH + 1), ByteSwap(hash);
      } else {
        success, nonceOut, hashOut := false, 0, 0;
      }
      delayed := TapA(pipe, rule.Tap());
      pipe := Tick(pipe, Initial(Start(32), GRIND_LEN, true), Grinding(MessageOf(x.header), latched));
      if !x.enable { Reload(); } else { Advance(); }
    }

    method Reload()
      requires nonce.Length == 12
      modifies nonce
      ensures nonce[..] == Reloaded(seed)
    {
      hide Sub;
      for i := 0 to 12
        invariant forall k :: 0 <= k < i ==> nonce[k] == Sub(seed, SKEW[k])
      {
        nonce[i] := Sub(seed, SKEW[i]);
      }
    }

    method Advance()
      requires nonce.Length == 12
      modifies nonce
      ensures nonce[..] == Advanced(old(nonce[..]))
    {
      hide Add;
      ghost var was: Counters := nonce[..];
      for i := 0 to 12
        invariant forall k :: 0 <= k < i ==> nonce[k] == Add(was[k], 1)
        invariant forall k :: i <= k < 12 ==> nonce[k] == was[k]
      {
        nonce[i] := Add(nonce[i], 1);
      }
    }
  }

  // ---------------------------------------------------------------- runs

  ghost predicate CoreRuns(rule: Rule, seed: U64, run: seq<Core>, ins: seq<Input>) {
    && |run| == |ins| + 1
    && forall t :: 0 <= t < |ins| ==> run[t + 1] == Clocked(rule, seed, run[t], ins[t])
  }

  /** The twelve counters are one counter seen at twelve delays. */
  predicate Coherent(nonce: Counters) {
    forall i :: 0 <= i < 12 ==> nonce[i] == Sub(nonce[0], SKEW[i])
  }

  lemma ClockKeepsCoherent(rule: Rule, seed: U64, s: Core, x: Input)
    ensures Coherent(s.nonce) || !x.enable ==> Coherent(Clocked(rule, seed, s, x).nonce)
  {
    hide Tick, Xor, ByteSwap, Initial, Add, Sub;
    var n := Clocked(rule, seed, s, x).nonce;
    if !x.enable {
      SubZero(seed);
    } else if Coherent(s.nonce) {
      forall i | 0 <= i < 12
        ensures n[i] == Sub(n[0], SKEW[i])
      {
        assert s.nonce[i] == Sub(s.nonce[0], SKEW[i]);
        AdvanceSkewed(s.nonce[0], SKEW[i]);
      }
    }
  }

  lemma SubZero(a: U64)
    ensures Sub(a, 0) == a
  {
  }

  lemma AdvanceSkewed(a: U64, s: U64)
    ensures Add(Sub(a, s), 1) == Sub(Add(a, 1), s)
  {
  }

  /** One clock with Enable low makes the counters coherent, and they stay so for the rest of
      the run whatever Enable does. */
  lemma {:induction false} CoherentSinceReset(rule: Rule, seed: U64, run: seq<Core>, ins: seq<Input>, r: nat, t: nat)
    requires CoreRuns(rule, seed, run, ins) && r < t < |run| && !ins[r].enable
    ensures Coherent(run[t].nonce)
    decreases t
  {
    hide Clocked, Coherent;
    ClockKeepsCoherent(rule, seed, run[t - 1], ins[t - 1]);
    if t > r + 1 { CoherentSinceReset(rule, seed, run, ins, r, t - 1); }
  }

  /** While Enable stays high the round-0 counter counts clocks, modulo 2^64. */
  lemma {:induction false} CountsClocks(rule: Rule, seed: U64, run: seq<Core>, ins: seq<Input>, t: nat, d: nat, i: nat)
    requires CoreRuns(rule, seed, run, ins) && t + d < |run| && i < 12
    requires forall u :: t <= u < t + d ==> ins[u].enable
    ensures run[t + d].nonce[i] as int == (run[t].nonce[i] + d) % TWO64
  {
    hide Clocked, Add;
    if d > 0 {
      CountsClocks(rule, seed, run, ins, t, d - 1, i);
      assert run[t + d] == Clocked(rule, seed, run[t + d - 1], ins[t + d - 1]);
      NextNonce(rule, seed, run[t + d - 1], ins[t + d - 1], i);
      OneMore(run[t].nonce[i], d - 1);
    }
  }

  lemma NextNonce(rule: Rule, seed: U64, s: Core, x: Input, i: nat)
    requires x.enable && i < 12
    ensures Clocked(rule, seed, s, x).nonce[i] == Add(s.nonce[i], 1)
  {
    hide Tick, Xor, ByteSwap, Initial, Add, Sub, Reloaded, Tapped;
  }

  lemma OneMore(a: nat, d: nat)
    ensures Add((a + d) % TWO64, 1) == (a + (d + 1)) % TWO64
  {
  }

  /** Word 4 stands at place p of the row and nowhere else. */
  predicate OnlyAt(row: Row, p: nat) {
    forall k :: 0 <= k < 16 && row[k] == NONCE_WORD ==> k == p
  }

  /** Where each row of the schedule mentions the nonce word. */
  function NonceSlot(i: nat): nat {
    var r := i % 10;
    if r == 0 then 4 else if r == 1 then 2 else if r == 2 then 15 else if r == 3 then 12
    else if r == 4 then 5 else if r == 5 then 8 else if r == 6 then 6 else if r == 7 then 11
    else if r == 8 then 13 else 3
  }

  lemma Row0()
    ensures OnlyAt(ROW0, 4)
  {
  }

  lemma Row1()
    ensures OnlyAt(ROW1, 2)
  {
  }

  lemma Row2()
    ensures OnlyAt(ROW2, 15)
  {
  }

  lemma Row3()
    ensures OnlyAt(ROW3, 12)
  {
  }

  lemma Row4()
    ensures OnlyAt(ROW4, 5)
  {
  }

  lemma Row5()
    ensures OnlyAt(ROW5, 8)
  {
  }

  lemma Row6()
    ensures OnlyAt(ROW6, 6)
  {
  }

  lemma Row7()
    ensures OnlyAt(ROW7, 11)
  {
  }

  lemma Row8()
    ensures OnlyAt(ROW8, 13)
  {
  }

  lemma Row9()
    ensures OnlyAt(ROW9, 3)
  {
  }

  lemma ScheduleRow(i: nat)
    ensures OnlyAt(Schedule(i), NonceSlot(i))
  {
    hide OnlyAt;
    Row0(); Row1(); Row2(); Row3(); Row4(); Row5(); Row6(); Row7(); Row8(); Row9();
    var r := i % 10;
    if r == 0 { } else if r == 1 { } else if r == 2 { } else if r == 3 { } else if r == 4 { }
    else if r == 5 { } else if r == 6 { } else if r == 7 { } else if r == 8 { } else { assert r == 9; }
  }

  /** The skew of round i is exactly the clock, after round 0 began, at which its mixers read
      the nonce word; that word occurs in one slot only. */
  lemma SkewIsReadTime(i: nat, slot: nat)
    requires i < 12 && slot < 16 && Schedule(i)[slot] == NONCE_WORD
    ensures SKEW[i] == 8 * i + Phase(slot)
  {
    hide Schedule;
    ScheduleRow(i);
    assert slot == NonceSlot(i);
  }

  // ---------------------------------------------------------------- coherence

  /** The header wires hold still from clock t for d clocks, except the ignored nonce slot,
      and Enable stays high. */
  ghost predicate Stable(ins: seq<Input>, t: nat, d: nat, header: Header) {
    && t + d <= |ins|
    && forall u :: t <= u < t + d ==>
         && ins[u].enable
         && forall w :: 0 <= w < 10 && w != NONCE_WORD ==> ins[u].header[w] == header[w]
  }

  function PipeOf(run: seq<Core>): seq<Pipe> {
    seq(|run|, t requires 0 <= t < |run| => run[t].pipe)
  }

  function FeedsOf(run: seq<Core>, ins: seq<Input>): seq<Feed>
    requires |run| == |ins| + 1
  {
    seq(|ins|, t requires 0 <= t < |ins| => Grinding(MessageOf(ins[t].header), run[t].nonce))
  }

  /** No round ever sees another nonce: the computation entering at clock t reads, at all its
      192 message slots, the header with the one nonce the round-0 counter showed at t. */
  lemma OneNonce(rule: Rule, seed: U64, run: seq<Core>, ins: seq<Input>, t: nat, header: Header)
    requires CoreRuns(rule, seed, run, ins) && Stable(ins, t, 97, header) && Coherent(run[t].nonce)
    ensures Reads(FeedsOf(run, ins), t, MessageOf(header[NONCE_WORD := run[t].nonce[0]]))
  {
    hide Clocked, Coherent, Schedule, WordAt, MessageOf;
    var feeds, m := FeedsOf(run, ins), MessageOf(header[NONCE_WORD := run[t].nonce[0]]);
    forall i, slot | 0 <= i < 12 && 0 <= slot < 16
      ensures WordAt(feeds[t + 8 * i + Phase(slot)], i, slot) == m[Schedule(i)[slot]]
    {
      if Schedule(i)[slot] == NONCE_WORD {
        NonceReads(rule, seed, run, ins, t, header, i, slot);
      } else {
        HeaderReads(rule, seed, run, ins, t, header, i, slot);
      }
    }
  }

  /** The feed of clock u. */
  function FeedAt(run: seq<Core>, ins: seq<Input>, u: nat): Feed
    requires |run| == |ins| + 1 && u < |ins|
  {
    Grinding(MessageOf(ins[u].header), run[u].nonce)
  }

  lemma NonceReads(rule: Rule, seed: U64, run: seq<Core>, ins: seq<Input>, t: nat, header: Header, i: nat, slot: nat)
    requires CoreRuns(rule, seed, run, ins) && Stable(ins, t, 97, header) && Coherent(run[t].nonce)
    requires i < 12 && slot < 16 && Schedule(i)[slot] == NONCE_WORD
    ensures WordAt(FeedAt(run, ins, t + 8 * i + Phase(slot)), i, slot)
         == MessageOf(header[NONCE_WORD := run[t].nonce[0]])[NONCE_WORD]
  {
    hide Clocked, Schedule, Sub;
    var d := 8 * i + Phase(slot);
    SkewIsReadTime(i, slot);
    NonceAt(rule, seed, run, ins, t, header, i, d);
    assert run[t].nonce[i] == Sub(run[t].nonce[0], d);
    Returns(run[t].nonce[0], d);
  }

  lemma NonceAt(rule: Rule, seed: U64, run: seq<Core>, ins: seq<Input>, t: nat, header: Header, i: nat, d: nat)
    requires CoreRuns(rule, seed, run, ins) && Stable(ins, t, 97, header) && i < 12 && d < 97
    ensures run[t + d].nonce[i] as int == (run[t].nonce[i] + d) % TWO64
  {
    hide Clocked;
    CountsClocks(rule, seed, run, ins, t, d, i);
  }

  lemma Returns(n: U64, d: nat)
    ensures (Sub(n, d % TWO64) + d) % TWO64 == n
  {
  }

  lemma HeaderReads(rule: Rule, seed: U64, run: seq<Core>, ins: seq<Input>, t: nat, header: Header, i: nat, slot: nat)
    requires CoreRuns(rule, seed, run, ins) && Stable(ins, t, 97, header)
    requires i < 12 && slot < 16 && Schedule(i)[slot] != NONCE_WORD
    ensures WordAt(FeedAt(run, ins, t + 8 * i + Phase(slot)), i, slot)
         == MessageOf(header[NONCE_WORD := run[t].nonce[0]])[Schedule(i)[slot]]
  {
    hide Clocked, Schedule;
    var u := t + 8 * i + Phase(slot);
    assert ins[u].enable;
    WordIsHeader(FeedAt(run, ins, u), i, slot);
  }

  lemma WordIsHeader(f: Feed, i: nat, slot: nat)
    requires f.Valid() && i < 12 && slot < 16 && Schedule(i)[slot] != NONCE_WORD
    ensures WordAt(f, i, slot) == f.m[Schedule(i)[slot]]
  {
  }

  lemma PipeRuns(rule: Rule, seed: U64, run: seq<Core>, ins: seq<Input>)
    requires CoreRuns(rule, seed, run, ins)
    ensures Runs(PipeOf(run), FeedsOf(run, ins), Initial(Start(32), GRIND_LEN, true))
  {
    hide Tick, Xor, ByteSwap, Initial, Start;
  }

  /** The digest word the core works on for nonce n. */
  function DigestWord(rule: Rule, header: Header, n: U64): U64 {
    F(Start(32), MessageOf(header[NONCE_WORD := n]), GRIND_LEN, true)[rule.Tap()]
  }

  /** Pipeline coherence. If the inputs held still for the pipeline's length after clock t,
      then 98 clocks after t the outputs speak about the nonce n the counter showed at t and
      about nothing else: a hit exactly when the compared word of BLAKE2b of the header with
      n is below the target, and on a hit n itself with the byte-swapped word. */
  lemma PipelineCoherence(rule: Rule, seed: U64, run: seq<Core>, ins: seq<Input>, t: nat, header: Header)
    requires CoreRuns(rule, seed, run, ins) && Stable(ins, t, 97, header) && Coherent(run[t].nonce)
    requires t + 98 <= |ins|
    ensures var n := run[t].nonce[0];
            var word := DigestWord(rule, header, n);
            var out := run[t + 98];
            && (out.success <==> rule.Compared(word) < ins[t + 97].target)
            && (out.success ==> out.nonceOut == n && out.hashOut == ByteSwap(word))
            && (!out.success ==> out.nonceOut == 0 && out.hashOut == 0)
  {
    hide Tick, Xor, ByteSwap, Initial, Start, F, Schedule, WordAt, Reads, Runs;
    var n := run[t].nonce[0];
    var m := MessageOf(header[NONCE_WORD := n]);
    OneNonce(rule, seed, run, ins, t, header);
    PipeRuns(rule, seed, run, ins);
    TapsGiveF(PipeOf(run), FeedsOf(run, ins), Start(32), GRIND_LEN, t, m, rule.Tap());
    assert run[t + 97] == Clocked(rule, seed, run[t + 96], ins[t + 96]);
    assert run[t + 98] == Clocked(rule, seed, run[t + 97], ins[t + 97]);
    assert Tapped(rule, run[t + 97]) == DigestWord(rule, header, n);
    CountsClocks(rule, seed, run, ins, t, 97, 0);
  }

  /** Every nonce in turn: after a reload at clock r and with the work item held, the report
      at clock r + 99 + k is the verdict on nonce seed + k, so no nonce is skipped or repeated. */
  lemma EveryNonceInTurn(rule: Rule, seed: U64, run: seq<Core>, ins: seq<Input>, r: nat, k: nat, header: Header)
    requires CoreRuns(rule, seed, run, ins) && r < |ins| && !ins[r].enable
    requires r + 99 + k <= |ins| && Stable(ins, r + 1, k + 98, header)
    ensures var n := (seed + k) % TWO64;
            var word := DigestWord(rule, header, n);
            var out := run[r + 99 + k];
            && (out.success <==> rule.Compared(word) < ins[r + 98 + k].target)
            && (out.success ==> out.nonceOut == n && out.hashOut == ByteSwap(word))
  {
    hide Clocked, DigestWord, ByteSwap;
    var t := r + 1 + k;
    CoherentSinceReset(rule, seed, run, ins, r, t);
    AfterReload(rule, seed, run, ins, r);
    CountsClocks(rule, seed, run, ins, r + 1, k, 0);
    PipelineCoherence(rule, seed, run, ins, t, header);
  }

  lemma AfterReload(rule: Rule, seed: U64, run: seq<Core>, ins: seq<Input>, r: nat)
    requires CoreRuns(rule, seed, run, ins) && r < |ins| && !ins[r].enable
    ensures run[r + 1].nonce[0] == seed
  {
    hide Tick, Xor, ByteSwap, Initial;
    assert run[r + 1] == Clocked(rule, seed, run[r], ins[r]);
  }

  // ---------------------------------------------------------------- stage 3

  const STAGE3_LEN: nat := 52

  datatype Stage3 = Stage3(pipe: Pipe, delayed: Quad)

  function Stage3Clocked(s: Stage3, header: Header): Stage3 {
    hide Tick, Initial, Start, MessageOf;
    Stage3(Tick(s.pipe, Initial(Start(32), STAGE3_LEN, true), Fixed(MessageOf(header))),
           [TapA(s.pipe, 0), TapA(s.pipe, 1), TapA(s.pipe, 2), TapA(s.pipe, 3)])
  }

  function HashOut(s: Stage3, word: nat): U64
    requires word < 4
  {
    Xor(Xor(Start(32)[word], s.delayed[word]), TapC(s.pipe, word))
  }

  ghost predicate Stage3Runs(run: seq<Stage3>, ins: seq<Header>) {
    && |run| == |ins| + 1
    && forall t :: 0 <= t < |ins| ==> run[t + 1] == Stage3Clocked(run[t], ins[t])
  }

  /** All four output words of stage 3: 97 clocks of a steady message give the digest. */
  lemma Stage3Coherence(run: seq<Stage3>, ins: seq<Header>, t: nat, header: Header, word: nat)
    requires Stage3Runs(run, ins) && t + 97 <= |ins| && word < 4
    requires forall u :: t <= u < t + 97 ==> ins[u] == header
    ensures HashOut(run[t + 97], word) == F(Start(32), MessageOf(header), STAGE3_LEN, true)[word]
  {
    hide Tick, Xor, Initial, Start, F, Schedule;
    var pipes := seq(|run|, u requires 0 <= u < |run| => run[u].pipe);
    var feeds := seq(|ins|, u requires 0 <= u < |ins| => Fixed(MessageOf(ins[u])));
    assert Reads(feeds, t, MessageOf(header)) by {
      forall i, slot | 0 <= i < 12 && 0 <= slot < 16
        ensures WordAt(feeds[t + 8 * i + Phase(slot)], i, slot) == MessageOf(header)[Schedule(i)[slot]]
      {
        FixedWord(feeds[t + 8 * i + Phase(slot)], i, slot);
      }
    }
    TapsGiveF(pipes, feeds, Start(32), STAGE3_LEN, t, MessageOf(header), word);
    assert run[t + 97] == Stage3Clocked(run[t + 96], ins[t + 96]);
  }

  lemma FixedWord(f: Feed, i: nat, slot: nat)
    requires f.Fixed? && i < 12 && slot < 16
    ensures WordAt(f, i, slot) == f.m[Schedule(i)[slot]]
  {
  }
}
