/** The whole path of one work item: chip, cores, arbiter, serial line and host composed
    (src/OspreyBlake2bUartTop.vhd, miner/miner.c, miner/worksrc_stratum.c). */
module Miner {
  import opened Words
  import opened Cores
  import opened HostCheck
  import opened Receiver
  import opened WorkItem
  import opened Chip
  import A = Arbiter
  import F = FrameSync
  import K = KnotsHeader
  import L = Link
  import B = Loopback
  import R = ResultPath
  import S = Sha256

  // ---------------------------------------------------------------- where results come from

  /** Core k offered p on clock t. */
  predicate OfferedAt(ins: seq<R.Input>, n: nat, t: nat, k: nat, p: A.Pair)
    requires R.Inputs(ins, n)
  {
    t < |ins| && k < n && ins[t].offers[k] == A.Offer(true, p)
  }

  /** Where a grant comes from: the core, the clock on which its slot captured the pair, and the
      clock of the grant. */
  datatype Source = Source(core: nat, captured: nat, granted: nat)

  /** A slot takes what the core offers on this clock. */
  predicate Captures(a: A.Arb, x: A.Input, k: nat)
    requires a.Valid(|x.offers|) && k < |x.offers|
  {
    x.offers[k].success && (!a.slots[k].valid || A.GrantsCore(A.Select(a, x.ready), k))
  }

  function ArbInput(b: R.Sys, x: R.Input): A.Input { A.Input(x.offers, b.tx.phase.Idle?) }

  /** For each slot, the clock of its latest capture. */
  function CaptureClocks(s: R.Sys, n: nat, ins: seq<R.Input>): (c: seq<nat>)
    requires R.Valid(s, n) && R.Inputs(ins, n)
    ensures |c| == n
  {
    hide Captures;
    if ins == [] then seq(n, _ => 0)
    else
      var t := |ins| - 1;
      var before, b := CaptureClocks(s, n, ins[..t]), R.After(s, n, ins[..t]);
      seq(n, k requires 0 <= k < n => if Captures(b.arb, ArbInput(b, ins[t]), k) then t else before[k])
  }

  /** The sources of all grants so far, in order. */
  function Sources(s: R.Sys, n: nat, ins: seq<R.Input>): seq<Source>
    requires R.Valid(s, n) && R.Inputs(ins, n)
  {
    hide R.GrantOf;
    if ins == [] then []
    else
      var t := |ins| - 1;
      var g := R.GrantOf(R.After(s, n, ins[..t]), n);
      Sources(s, n, ins[..t])
      + if g.Granted? && g.core < n then [Source(g.core, CaptureClocks(s, n, ins[..t])[g.core], t)] else []
  }

  /** What a slot holds after a clock was captured on it or was in it before. */
  lemma SlotNext(a: A.Arb, x: A.Input, k: nat)
    requires a.Valid(|x.offers|) && k < |x.offers| && A.Clocked(a, x).slots[k].valid
    ensures var pair := A.Clocked(a, x).slots[k].pair;
            if Captures(a, x, k) then x.offers[k] == A.Offer(true, pair)
            else a.slots[k].valid && a.slots[k].pair == pair && !A.GrantsCore(A.Select(a, x.ready), k)
  {
    hide A.Select;
  }

  /** The last clock of a composed run, as the arbiter sees it. */
  lemma {:induction false} LastClock(s: R.Sys, n: nat, ins: seq<R.Input>)
    requires R.Valid(s, n) && R.Inputs(ins, n) && ins != []
    ensures var b, x := R.After(s, n, ins[..|ins| - 1]), ins[|ins| - 1];
            var g := R.GrantOf(b, n);
            && b.arb.Valid(n) && g == A.Select(b.arb, b.tx.phase.Idle?)
            && R.After(s, n, ins).arb == A.Clocked(b.arb, ArbInput(b, x))
            && R.Grants(s, n, ins) == R.Grants(s, n, ins[..|ins| - 1]) + (if g.Granted? then [g.pair] else [])
            && (g.Granted? ==> g.core < n && b.arb.slots[g.core].valid && g.pair == b.arb.slots[g.core].pair)
  {
    hide A.Search, A.Clocked, R.U.Clocked, R.U.Sampled, R.U.InStep;
  }

  /** Source i: its core offered the granted pair on the capture clock, which comes before the grant. */
  ghost predicate Backed(ins: seq<R.Input>, n: nat, src: Source, p: A.Pair)
    requires R.Inputs(ins, n)
  {
    OfferedAt(ins, n, src.captured, src.core, p) && src.captured < src.granted < |ins|
  }

  /** A core's next capture is on the clock of its last grant or later. */
  predicate InTurn(x: Source, y: Source) { x.core == y.core ==> x.granted <= y.captured }

  ghost predicate Traced(ins: seq<R.Input>, n: nat, sources: seq<Source>, ps: seq<A.Pair>)
    requires R.Inputs(ins, n)
  {
    && |sources| == |ps|
    && (forall i :: 0 <= i < |ps| ==> Backed(ins, n, sources[i], ps[i]))
    && forall i, j :: 0 <= i < j < |ps| ==> InTurn(sources[i], sources[j])
  }

  /** A slot in use was filled on its capture clock, not before the core's last grant. */
  ghost predicate Held(ins: seq<R.Input>, n: nat, sources: seq<Source>, k: nat, slot: A.Slot, captured: nat)
    requires R.Inputs(ins, n)
  {
    slot.valid ==>
      && OfferedAt(ins, n, captured, k, slot.pair)
      && forall i :: 0 <= i < |sources| ==> InTurn(sources[i], Source(k, captured, |ins|))
  }

  ghost predicate SlotsTraced(s: R.Sys, n: nat, ins: seq<R.Input>)
    requires R.Valid(s, n) && R.Inputs(ins, n)
  {
    var slots, clocks := R.After(s, n, ins).arb.slots, CaptureClocks(s, n, ins);
    |slots| == n && forall k :: 0 <= k < n ==> Held(ins, n, Sources(s, n, ins), k, slots[k], clocks[k])
  }

  /** Every grant goes back to one offer of one core, captured before it was granted, and a core's
      offers are granted in the order of their capture, none twice. */
  lemma {:induction false} GrantsWereOffered(s: R.Sys, n: nat, ins: seq<R.Input>)
    requires R.Reset(s, n) && R.Inputs(ins, n)
    ensures SlotsTraced(s, n, ins) && Traced(ins, n, Sources(s, n, ins), R.Grants(s, n, ins))
  {
    if ins != [] {
      GrantsWereOffered(s, n, ins[..|ins| - 1]);
      OneClockTraced(s, n, ins);
    }
  }

  lemma {:induction false} OneClockTraced(s: R.Sys, n: nat, ins: seq<R.Input>)
    requires R.Valid(s, n) && R.Inputs(ins, n) && ins != []
    requires var before := ins[..|ins| - 1];
             SlotsTraced(s, n, before) && Traced(before, n, Sources(s, n, before), R.Grants(s, n, before))
    ensures SlotsTraced(s, n, ins) && Traced(ins, n, Sources(s, n, ins), R.Grants(s, n, ins))
  {
    hide A.Clocked, A.Select, R.After, R.Grants, R.GrantOf, R.Valid, OfferedAt, Captures, InTurn;
    var t := |ins| - 1;
    var before, x := ins[..t], ins[t];
    LastClock(s, n, ins);
    var b := R.After(s, n, before);
    var g, clocks, old', new' := R.GrantOf(b, n), CaptureClocks(s, n, before), Sources(s, n, before), Sources(s, n, ins);
    var ps := R.Grants(s, n, before);
    if g.Granted? {
      assert Held(before, n, old', g.core, b.arb.slots[g.core], clocks[g.core]);
      GrantTraced(ins, n, old', ps, g.core, clocks[g.core], g.pair);
    } else {
      assert new' == old' && R.Grants(s, n, ins) == ps;
      StaysTraced(ins, n, old', ps);
    }
    forall k | 0 <= k < n
      ensures Held(ins, n, new', k, R.After(s, n, ins).arb.slots[k], CaptureClocks(s, n, ins)[k])
    {
      assert Held(before, n, old', k, b.arb.slots[k], clocks[k]);
      if R.After(s, n, ins).arb.slots[k].valid { SlotNext(b.arb, ArbInput(b, x), k); }
      SlotTraced(ins, n, b.arb, ArbInput(b, x), old', new', k, clocks[k], R.After(s, n, ins).arb.slots[k]);
    }
  }

  lemma OfferStands(ins: seq<R.Input>, n: nat, t: nat, k: nat, p: A.Pair)
    requires R.Inputs(ins, n) && ins != [] && OfferedAt(ins[..|ins| - 1], n, t, k, p)
    ensures OfferedAt(ins, n, t, k, p) && t < |ins| - 1
  {
  }

  lemma StaysTraced(ins: seq<R.Input>, n: nat, sources: seq<Source>, ps: seq<A.Pair>)
    requires R.Inputs(ins, n) && ins != [] && Traced(ins[..|ins| - 1], n, sources, ps)
    ensures Traced(ins, n, sources, ps)
  {
    hide OfferedAt, InTurn;
    forall i | 0 <= i < |ps|
      ensures Backed(ins, n, sources[i], ps[i])
    {
      assert Backed(ins[..|ins| - 1], n, sources[i], ps[i]);
      OfferStands(ins, n, sources[i].captured, sources[i].core, ps[i]);
    }
  }

  /** A grant of what the slot of core k has held since clock c. */
  lemma GrantTraced(ins: seq<R.Input>, n: nat, sources: seq<Source>, ps: seq<A.Pair>, k: nat, c: nat, p: A.Pair)
    requires R.Inputs(ins, n) && ins != [] && Traced(ins[..|ins| - 1], n, sources, ps)
    requires OfferedAt(ins[..|ins| - 1], n, c, k, p)
    requires forall i :: 0 <= i < |sources| ==> InTurn(sources[i], Source(k, c, |ins| - 1))
    ensures Traced(ins, n, sources + [Source(k, c, |ins| - 1)], ps + [p])
  {
    hide OfferedAt, InTurn;
    StaysTraced(ins, n, sources, ps);
    OfferStands(ins, n, c, k, p);
    var all, qs := sources + [Source(k, c, |ins| - 1)], ps + [p];
    forall i | 0 <= i < |qs|
      ensures Backed(ins, n, all[i], qs[i])
    {
      if i < |ps| { assert Backed(ins, n, sources[i], ps[i]); }
    }
    forall i, j | 0 <= i < j < |qs|
      ensures InTurn(all[i], all[j])
    {
      if j < |ps| { assert InTurn(sources[i], sources[j]); }
    }
  }

  /** One slot through one clock. */
  lemma SlotTraced(ins: seq<R.Input>, n: nat, a: A.Arb, x: A.Input, sources: seq<Source>, after: seq<Source>, k: nat, c: nat,
                   slot: A.Slot)
    requires R.Inputs(ins, n) && ins != [] && x.offers == ins[|ins| - 1].offers && a.Valid(n) && k < n
    requires Held(ins[..|ins| - 1], n, sources, k, a.slots[k], c)
    requires slot.valid ==>
               if Captures(a, x, k) then x.offers[k] == A.Offer(true, slot.pair)
               else a.slots[k].valid && a.slots[k].pair == slot.pair && !A.GrantsCore(A.Select(a, x.ready), k)
    requires forall i :: 0 <= i < |sources| ==> sources[i].granted < |ins| - 1
    requires sources <= after
    requires forall i :: |sources| <= i < |after| ==>
               A.GrantsCore(A.Select(a, x.ready), after[i].core) && after[i].granted == |ins| - 1
    ensures Held(ins, n, after, k, slot, if Captures(a, x, k) then |ins| - 1 else c)
  {
    hide A.Select, Captures;
    var t := |ins| - 1;
    if slot.valid {
      var at := if Captures(a, x, k) then t else c;
      if !Captures(a, x, k) { OfferStands(ins, n, c, k, slot.pair); }
      assert OfferedAt(ins, n, at, k, slot.pair);
      forall i | 0 <= i < |after|
        ensures InTurn(after[i], Source(k, at, |ins|))
      {
        if i < |sources| {
          assert after[i] == sources[i];
          if !Captures(a, x, k) { assert InTurn(sources[i], Source(k, c, t)); }
        }
      }
    }
  }

  // ---------------------------------------------------------------- the composed miner

  /** What core k shows the arbiter on clock t. */
  function OfferOf(c: Core): A.Offer { A.Offer(c.success, A.Pair(c.nonceOut, c.hashOut)) }

  /** One Knots chip run in which item w is delivered at clock p, after which no other item
      completes for d clocks; see Chip.Delivered. */
  datatype Delivery = Delivery(run: seq<Front>, xs: seq<Line>, w: WorkCtx, h: Trace, bursts: seq<Burst>,
                               frame: seq<Line>, a: nat, p: nat, d: nat)
  {
    ghost predicate Done() { Delivered(Knots, run, xs, w, h, bursts, frame, a, p, d) }

    /** First clock on which the cores show a verdict on the item. */
    function FirstVerdict(): nat { p + 1 + Delay(Knots) + 99 }
  }

  /** The cores of the chip, with their registers on the arbiter's inputs, up to the last clock
      the delivery speaks of. */
  ghost predicate Wired(x: Delivery, seeds: seq<U64>, cores: seq<seq<Core>>, ins: seq<R.Input>)
    requires x.Done()
  {
    && |cores| == |seeds| && R.Inputs(ins, |seeds|) && |ins| + 98 <= x.FirstVerdict() + x.d + 1
    && (forall k :: 0 <= k < |seeds| ==> CoreRuns(Knots, seeds[k], cores[k], CoreInputs(Knots, x.run)))
    && (forall k :: 0 <= k < |seeds| ==> |cores[k]| >= |ins|)
    && forall t, k :: 0 <= t < |ins| && 0 <= k < |seeds| ==> ins[t].offers[k] == OfferOf(cores[k][t])
  }

  /** A candidate the work source confirms: the word reproduces and the 256-bit compare passes. */
  predicate Confirmed(w: WorkCtx, target: Bytes32, c: A.Pair) {
    && c.hash == ByteSwap(DigestWord(Knots, HeaderOf(w.ss4), c.nonce))
    && BE(CompareBytes(Knots, w.ss4, c.nonce)) <= BE(target)
  }

  /** c is what the core of its source showed on the capture clock; from the item's first verdict
      on it is confirmed. */
  ghost predicate Shown(x: Delivery, cores: seq<seq<Core>>, target: Bytes32, c: A.Pair, src: Source) {
    && src.core < |cores| && src.captured < |cores[src.core]|
    && OfferOf(cores[src.core][src.captured]) == A.Offer(true, c)
    && (src.captured >= x.FirstVerdict() ==> Confirmed(x.w, target, c))
  }

  /** The candidates from a count on, and the sources of the grants from j on. */
  ghost predicate AllShown(x: Delivery, cores: seq<seq<Core>>, target: Bytes32, candidates: seq<A.Pair>, from: nat,
                           sources: seq<Source>, j: nat) {
    && from <= |candidates| <= from + |sources| - j
    && forall i :: from <= i < |candidates| ==> Shown(x, cores, target, candidates[i], sources[j + i - from])
  }

  lemma VerdictConfirmed(x: Delivery, seed: U64, core: seq<Core>, t: nat, target: Bytes32)
    requires x.Done() && CoreRuns(Knots, seed, core, CoreInputs(Knots, x.run))
    requires x.w.targetTop64 as nat == BE(target) / TWO192
    requires x.FirstVerdict() <= t && t + 98 <= x.FirstVerdict() + x.d && t < |core| && core[t].success
    ensures Confirmed(x.w, target, A.Pair(core[t].nonceOut, core[t].hashOut))
  {
    hide Delivered, CoreRuns, CoreInputs, BE, CompareBytes, DigestWord, HeaderOf, ByteSwap;
    var k := t - x.FirstVerdict();
    DeliveredEarlier(x, k + 98);
    ReportIsConfirmed(Knots, seed, x.run, x.xs, core, x.w, x.h, x.bursts, x.frame, x.a, x.p, k, target);
  }

  lemma DeliveredEarlier(x: Delivery, e: nat)
    requires x.Done() && e <= x.d
    ensures x.(d := e).Done()
  {
    hide Sent, Consistent, FrontRuns;
  }

  lemma GrantShown(x: Delivery, seeds: seq<U64>, cores: seq<seq<Core>>, ins: seq<R.Input>, target: Bytes32, c: A.Pair,
                   src: Source)
    requires x.Done() && Wired(x, seeds, cores, ins) && R.Inputs(ins, |seeds|) && Backed(ins, |seeds|, src, c)
    requires x.w.targetTop64 as nat == BE(target) / TWO192
    ensures Shown(x, cores, target, c, src)
  {
    hide Delivered, CoreRuns, CoreInputs, BE, Confirmed;
    var t, k := src.captured, src.core;
    assert OfferOf(cores[k][t]) == A.Offer(true, c);
    if t >= x.FirstVerdict() { VerdictConfirmed(x, seeds[k], cores[k], t, target); }
  }

  // ---------------------------------------------------------------- at the host

  /** A start-up self-test: the item it sent, and what it read from the line. */
  datatype SelfTest = SelfTest(f: S.Compress, h: K.Header2, partial: seq<Byte>, ps: seq<A.Pair>, i: nat)
  {
    function Buffer(): seq<Byte> { partial + R.Frames(ps) }

    /** Frame i is the first window that reproduces, a settled report about the item sent. */
    ghost predicate Passes() {
      hide B.Window, B.Reports, B.Settled, R.Frames;
      && K.ModeZero(h) && i < |ps| && B.Reports(f, h, ps[i]) && B.Settled(ps[i])
      && forall u :: 0 <= u < |partial| + R.FRAME * i ==> u + R.FRAME <= |Buffer()| && B.Window(f, h, Buffer(), u) == None
    }
  }

  /** The correction the mining loop applies is the one the self-test found. */
  ghost predicate Calibrated(t: SelfTest, host: F.Host) {
    hide *;
    t.Passes() && Some(host.offset as nat) == B.Calibration(t.f, t.h, t.Buffer(), 0)
  }

  lemma NoCorrection(t: SelfTest, host: F.Host)
    requires Calibrated(t, host)
    ensures host.offset == 0
  {
    hide B.Window, B.Reports, B.Settled, R.Frames;
    B.CalibratesToZero(t.f, t.h, t.partial, t.ps, t.i);
  }

  /** From the cores to the host: for any number of cores holding one delivered item, any arbiter and
      line timing and a host in step from frame j on, candidate i it assembles is what one
      core showed, captured on one clock, and if that was from the item's first verdict on, the
      host's word check and its 256-bit compare confirm it. */
  lemma {:induction false} EveryCandidateIsConfirmed(
      x: Delivery, seeds: seq<U64>, cores: seq<seq<Core>>, s: R.Sys, ins: seq<R.Input>,
      asm: F.Asm, b: F.Asm, host: F.Host, j: nat, taken: nat, target: Bytes32)
    requires x.Done() && Wired(x, seeds, cores, ins) && R.Inputs(ins, |seeds|) && R.Reset(s, |seeds|)
    requires x.w.targetTop64 as nat == BE(target) / TWO192 && host.offset == 0
    requires L.InStep(asm, b, L.Whole(s, |seeds|, ins), j, taken, host)
    ensures asm.synced && AllShown(x, cores, target, asm.candidates, |b.candidates|, Sources(s, |seeds|, ins), j)
  {
    hide *;
    var n := |seeds|;
    AssembledGrants(s, n, ins, asm, b, host, j, taken);
    GrantsWereOffered(s, n, ins);
    var sources, grants := Sources(s, n, ins), R.Grants(s, n, ins);
    forall i | |b.candidates| <= i < |asm.candidates|
      ensures Shown(x, cores, target, asm.candidates[i], sources[j + i - |b.candidates|])
    {
      SourceBacks(ins, n, sources, grants, j + i - |b.candidates|);
      GrantShown(x, seeds, cores, ins, target, grants[j + i - |b.candidates|], sources[j + i - |b.candidates|]);
    }
    Collected(x, cores, target, asm.candidates, |b.candidates|, sources, j);
  }

  lemma Collected(x: Delivery, cores: seq<seq<Core>>, target: Bytes32, candidates: seq<A.Pair>, from: nat,
                  sources: seq<Source>, j: nat)
    requires from <= |candidates| <= from + |sources| - j
    requires forall i :: from <= i < |candidates| ==> Shown(x, cores, target, candidates[i], sources[j + i - from])
    ensures AllShown(x, cores, target, candidates, from, sources, j)
  {
    hide Shown;
  }

  lemma SourceBacks(ins: seq<R.Input>, n: nat, sources: seq<Source>, ps: seq<A.Pair>, i: nat)
    requires R.Inputs(ins, n) && Traced(ins, n, sources, ps) && i < |ps|
    ensures |sources| == |ps| && Backed(ins, n, sources[i], ps[i])
  {
    hide Backed, InTurn;
  }

  /** Uncorrected candidates are the granted pairs themselves. */
  lemma AssembledGrants(s: R.Sys, n: nat, ins: seq<R.Input>, asm: F.Asm, b: F.Asm, host: F.Host, j: nat, taken: nat)
    requires R.Reset(s, n) && R.Inputs(ins, n) && host.offset == 0 && L.InStep(asm, b, L.Whole(s, n, ins), j, taken, host)
    ensures var grants := R.Grants(s, n, ins);
            && |Sources(s, n, ins)| == |grants|
            && asm.synced && |b.candidates| <= |asm.candidates| <= |b.candidates| + |grants| - j
            && forall i :: |b.candidates| <= i < |asm.candidates| ==> asm.candidates[i] == grants[j + i - |b.candidates|]
  {
    hide R.Valid, R.Reset, F.FedAll, R.Frames, R.Grants, L.Whole, Sources, SlotsTraced, F.Failing, F.Candidates,
      Backed, InTurn;
    var grants := R.Grants(s, n, ins);
    GrantsWereOffered(s, n, ins);
    L.LineIsFrames(s, n, ins);
    L.InStepSynced(asm, b, grants, L.Whole(s, n, ins), j, taken, host);
    L.InStepMeans(asm, b, grants, L.Whole(s, n, ins), j, taken, host);
    Uncorrected(grants[j..taken / F.FRAME], host);
  }

  lemma Uncorrected(ps: seq<A.Pair>, host: F.Host)
    requires host.offset == 0
    ensures F.Candidates(ps, host) == ps
  {
  }

  /** At most one candidate of each core is stale: once a grant of that core falls in the time of
      the item's verdicts, the core's later candidates are confirmed. */
  lemma OneStaleEach(x: Delivery, seeds: seq<U64>, cores: seq<seq<Core>>, s: R.Sys, ins: seq<R.Input>, target: Bytes32,
                     i: nat, j: nat, c: A.Pair)
    requires R.Inputs(ins, |seeds|) && R.Reset(s, |seeds|) && i < j < |Sources(s, |seeds|, ins)|
    requires var sources := Sources(s, |seeds|, ins);
             && sources[i].core == sources[j].core && sources[i].granted >= x.FirstVerdict()
             && Shown(x, cores, target, c, sources[j])
    ensures Confirmed(x.w, target, c)
  {
    hide R.Valid, R.Reset, R.Grants, Sources, SlotsTraced, Backed, Confirmed;
    GrantsWereOffered(s, |seeds|, ins);
    assert InTurn(Sources(s, |seeds|, ins)[i], Sources(s, |seeds|, ins)[j]);
  }

  /** After power-up nothing stale comes but from the ninety-eight clocks between the arrival of the first
      item's target at the cores and the item's first verdict. */
  lemma FirstItemWindow(x: Delivery, seeds: seq<U64>, cores: seq<seq<Core>>, ins: seq<R.Input>, target: Bytes32, c: A.Pair,
                        src: Source)
    requires x.Done() && Wired(x, seeds, cores, ins) && R.Inputs(ins, |seeds|) && Backed(ins, |seeds|, src, c)
    requires x.run[0] == PowerUp(Knots) && forall v :: 0 <= v < x.p ==> !x.run[v].rx.newWork
    requires forall k :: 0 <= k < |seeds| ==> !cores[k][0].success
    ensures src.captured + 99 > x.FirstVerdict()
  {
    hide Sent, Consistent, CoreInputs, Receiver.Clocked, FrontClocked, PowerUp, Cores.Clocked;
    var t, k := src.captured, src.core;
    assert OfferOf(cores[k][t]) == A.Offer(true, c);
    if 0 < t && t + 99 <= x.FirstVerdict() { SilentUntilItem(Knots, seeds[k], x.run, x.xs, cores[k], x.p, t - 1); }
  }

  /** No result is assembled twice: different grants come from different captures. */
  lemma SourcesDiffer(s: R.Sys, n: nat, ins: seq<R.Input>, i: nat, j: nat)
    requires R.Inputs(ins, n) && R.Reset(s, n) && i < j < |Sources(s, n, ins)|
    ensures var sources := Sources(s, n, ins);
            sources[i].core == sources[j].core ==> sources[i].captured < sources[j].captured
  {
    hide R.Valid, R.Reset, R.Grants, Sources, SlotsTraced, OfferedAt;
    GrantsWereOffered(s, n, ins);
    var sources := Sources(s, n, ins);
    assert InTurn(sources[i], sources[j]);
    assert Backed(ins, n, sources[i], R.Grants(s, n, ins)[i]);
  }

  /** The mining loop at work, from out of step: a composed run whose cores hold one delivered item,
      and a host that listens to its line from any byte on, in state a. */
  datatype Listening = Listening(x: Delivery, seeds: seq<U64>, cores: seq<seq<Core>>, target: Bytes32, s: R.Sys,
                                 ins: seq<R.Input>, host: F.Host, polls: seq<F.Poll>, clocks: seq<nat>, taken: nat,
                                 a: F.Asm, budget: nat)
  {
    ghost predicate Runs() {
      && x.Done() && Wired(x, seeds, cores, ins) && R.Inputs(ins, |seeds|) && R.Reset(s, |seeds|)
      && x.w.targetTop64 as nat == BE(target) / TWO192
      && L.Heard(s, |seeds|, ins, polls, clocks, taken) && taken <= |L.Whole(s, |seeds|, ins)|
      && !a.synced && |a.frame| < F.FRAME
    }

    /** The first pass ends its collection at a gap or in silence, and the burst fits the buffer. */
    predicate FindsStep() {
      var c := F.Collect(polls, budget, [], 0, true);
      !c.Busy? && |c.Taken()| <= F.WANT
    }

    /** After that pass and k others the loop is in step, and all it has assembled is shown. */
    ghost predicate Confirms(k: nat) {
      && Runs()
      && var r := F.Passes(a, polls, budget, host, k + 1);
         && r.Ran? && r.asm.synced
         && AllShown(x, cores, target, r.asm.candidates, |a.candidates|, Sources(s, |seeds|, ins), L.NextFrame(taken))
    }
  }

  /** Every candidate the mining loop assembles, after any number of passes, is what a core showed,
      and confirmed if captured from the item's first verdict on. */
  lemma {:induction false} LoopConfirms(c: Listening, test: SelfTest, k: nat)
    requires c.Runs() && c.FindsStep() && Calibrated(test, c.host)
    ensures c.Confirms(k)
  {
    hide *;
    NoCorrection(test, c.host);
    LoopShows(c, k);
  }

  lemma {:induction false} LoopShows(c: Listening, k: nat)
    requires c.Runs() && c.FindsStep() && c.host.offset == 0
    ensures c.Confirms(k)
  {
    hide Wired, R.Inputs, R.Reset, L.Heard, L.Whole, F.Collect, F.Passes, Sources, AllShown, L.InStep, BE;
    var n, b := |c.seeds|, c.a.(frame := [], synced := true);
    var t := InStepAfter(c.s, n, c.ins, c.polls, c.clocks, c.taken, c.host, c.a, c.budget, k);
    EveryCandidateIsConfirmed(c.x, c.seeds, c.cores, c.s, c.ins, F.Passes(c.a, c.polls, c.budget, c.host, k + 1).asm, b,
                              c.host, L.NextFrame(c.taken), t, c.target);
  }

  lemma {:induction false} InStepAfter(s: R.Sys, n: nat, ins: seq<R.Input>, polls: seq<F.Poll>, clocks: seq<nat>,
                                       taken: nat, host: F.Host, a: F.Asm, budget: nat, k: nat) returns (t: nat)
    requires R.Reset(s, n) && R.Inputs(ins, n) && L.Heard(s, n, ins, polls, clocks, taken)
    requires taken <= |L.Whole(s, n, ins)| && !a.synced && |a.frame| < F.FRAME
    requires var c := F.Collect(polls, budget, [], 0, true); !c.Busy? && |c.Taken()| <= F.WANT
    ensures var r := F.Passes(a, polls, budget, host, k + 1);
            r.Ran? && L.InStep(r.asm, a.(frame := [], synced := true), L.Whole(s, n, ins), L.NextFrame(taken), t, host)
  {
    hide R.Reset, R.Valid, F.Collect, L.Heard, L.Whole, F.Passed, L.InStep, F.BytesIn, F.Passes;
    var b, j := a.(frame := [], synced := true), L.NextFrame(taken);
    var i := L.PassReachesStep(s, n, ins, polls, clocks, taken, host, a, budget);
    var r := F.Passed(a, polls, budget, host);
    t := taken + |F.BytesIn(polls[..i])|;
    L.HeardLengths(s, n, ins, polls, clocks, taken);
    var i' := L.LoopKeepsStep(s, n, ins, polls[i..], clocks[i..], t, b, j, host, r.asm, budget, k);
    F.PassesFirst(a, polls, budget, host, k);
    t := t + |F.BytesIn(polls[i..][..i'])|;
  }
}
