/** From the serial line to the cores: run control, the held work item, the broadcast registers
    and the cores behind them (src/OspreyBlake2bUartTop.vhd, src/OspreyBlake2bTop.vhd,
    src/sia/OspreySiaUartTop.vhd). */
module Chip {
  import opened Words
  import opened Blake2b
  import opened Pipeline
  import opened Cores
  import opened HostCheck
  import opened Nonces
  import opened Receiver
  import opened Serial
  import opened WorkItem

  /** Everything between the line and one core: the receiver, Enable, the two trunk registers
      and the core's own register. */
  datatype Front = Front(rx: Rx, enable: bool, launch: Input, capture: Input, own: Input)

  ghost predicate Sized(rule: Rule, r: Rx) {
    |r.work| == |r.held| == 8 * ItemLen(rule)
  }

  /** The wires sliced out of the held copy. */
  function Wires(rule: Rule, held: seq<bool>, enable: bool): Input
    requires |held| == 8 * ItemLen(rule)
  {
    Input(enable, MessageSlots(rule, held), TargetSlot(rule, held))
  }

  function FrontClocked(rule: Rule, f: Front, x: Line): (g: Front)
    requires Sized(rule, f.rx)
    ensures Sized(rule, g.rx)
  {
    Front(Receiver.Clocked(f.rx, ItemLen(rule), x), !f.rx.newWork,
          Wires(rule, f.rx.held, f.enable), f.launch, f.capture)
  }

  /** What the core itself gets. The Knots chip registers the wires three times and composes
      the stage-4 message; the Siacoin core is wired straight to the held copy. */
  function CoreInput(rule: Rule, f: Front): Input
    requires Sized(rule, f.rx)
  {
    if rule.Knots? then f.own.(header := Compose(f.own.header, Bypassed(f.own.header)))
    else Wires(rule, f.rx.held, f.enable)
  }

  function Delay(rule: Rule): nat { if rule.Knots? then 3 else 0 }

  /** State after reset. */
  function PowerUp(rule: Rule): Front {
    Front(Quiet(ItemLen(rule)), false, Nothing(), Nothing(), Nothing())
  }

  function Nothing(): Input { Input(false, seq(10, _ => 0), 0) }

  /** The clocked processes, written in place. */
  class WorkFront {
    const rule: Rule
    const uart: UartReceiver
    var enable: bool
    var launch: Input
    var capture: Input
    var own: Input

    ghost predicate Valid()
      reads this, uart
    {
      uart.n == ItemLen(rule) && |uart.work| == |uart.held| == 8 * uart.n
    }

    ghost function View(): Front
      reads this, uart
    {
      Front(uart.View(), enable, launch, capture, own)
    }

    constructor (rule: Rule)
      ensures Valid() && fresh(uart) && this.rule == rule
      ensures View() == PowerUp(rule)
    {
      this.rule := rule;
      uart := new UartReceiver(ItemLen(rule));
      enable := false;
      launch, capture, own := Nothing(), Nothing(), Nothing();
    }

    method Clock(x: Line)
      requires Valid()
      modifies this, uart
      ensures Valid() && View() == FrontClocked(rule, old(View()), x)
    {
      hide MessageSlots, TargetSlot;
      own := capture;
      capture := launch;
      launch := Input(enable, MessageSlots(rule, uart.held), TargetSlot(rule, uart.held));
      enable := !uart.newWork;
      uart.Clock(x);
    }
  }

  // ---------------------------------------------------------------- runs

  ghost predicate FrontRuns(rule: Rule, run: seq<Front>, xs: seq<Line>) {
    && |run| == |xs| + 1
    && (forall t :: 0 <= t < |run| ==> Sized(rule, run[t].rx))
    && forall t :: 0 <= t < |xs| ==> run[t + 1] == FrontClocked(rule, run[t], xs[t])
  }

  /** The inputs a core sees during a run. */
  function CoreInputs(rule: Rule, run: seq<Front>): (ins: seq<Input>)
    requires run != [] && forall t :: 0 <= t < |run| ==> Sized(rule, run[t].rx)
    ensures |ins| == |run| - 1
  {
    seq(|run| - 1, t requires 0 <= t < |run| - 1 => CoreInput(rule, run[t]))
  }

  /** What reaches the core was on the wires Delay clocks earlier, message, target and Enable
      together. */
  lemma Delayed(rule: Rule, run: seq<Front>, xs: seq<Line>, t: nat)
    requires FrontRuns(rule, run, xs) && t + Delay(rule) < |run|
    ensures var seen := CoreInput(rule, run[t + Delay(rule)]);
            var wires := Wires(rule, run[t].rx.held, run[t].enable);
            && seen.enable == wires.enable && seen.target == wires.target
            && forall w :: 0 <= w < 10 && w != NONCE_WORD ==> seen.header[w] == wires.header[w]
  {
    hide Receiver.Clocked, MessageSlots, TargetSlot;
    if rule.Knots? {
      assert run[t + 1] == FrontClocked(rule, run[t], xs[t]);
      assert run[t + 2] == FrontClocked(rule, run[t + 1], xs[t + 1]);
      assert run[t + 3] == FrontClocked(rule, run[t + 2], xs[t + 2]);
      assert run[t + 3].own == Wires(rule, run[t].rx.held, run[t].enable);
    }
  }

  /** Until the next NewWork the held copy stays as NewWork left it, and Enable is low for
      exactly the first clock the new copy is visible. */
  lemma {:induction false} HeldUntilNext(rule: Rule, run: seq<Front>, xs: seq<Line>, p: nat, u: nat)
    requires FrontRuns(rule, run, xs) && p < u < |run| && run[p].rx.newWork
    requires forall v :: p < v < u ==> !run[v].rx.newWork
    ensures run[u].rx.held == run[p].rx.work
    ensures run[u].enable <==> u != p + 1
    decreases u
  {
    hide MessageSlots, TargetSlot;
    assert run[u] == FrontClocked(rule, run[u - 1], xs[u - 1]);
    if u > p + 1 { HeldUntilNext(rule, run, xs, p, u - 1); }
  }

  /** The core sees the new item and the reload of its nonce counters on the same clock, then a
      steady item with Enable high until the next one. */
  lemma SwitchTogether(rule: Rule, run: seq<Front>, xs: seq<Line>, p: nat, d: nat, header: Header)
    requires FrontRuns(rule, run, xs) && p + 2 + Delay(rule) + d < |run| && run[p].rx.newWork
    requires forall v :: p < v < p + 1 + d ==> !run[v].rx.newWork
    requires header == MessageSlots(rule, run[p].rx.work)
    ensures var ins, r := CoreInputs(rule, run), p + 1 + Delay(rule);
            && !ins[r].enable && Stable(ins, r + 1, d, header)
            && forall v :: r <= v <= r + d ==> ins[v].target == TargetSlot(rule, run[p].rx.work)
  {
    hide MessageSlots, TargetSlot, FrontClocked, CoreInput;
    var ins, r := CoreInputs(rule, run), p + 1 + Delay(rule);
    forall v | r <= v <= r + d
      ensures ins[v].enable <==> v != r
      ensures ins[v].target == TargetSlot(rule, run[p].rx.work)
      ensures forall w :: 0 <= w < 10 && w != NONCE_WORD ==> ins[v].header[w] == header[w]
    {
      HeldUntilNext(rule, run, xs, p, v - Delay(rule));
      Delayed(rule, run, xs, v - Delay(rule));
    }
  }

  // ---------------------------------------------------------------- before the first item

  lemma {:induction false} NothingHeld(rule: Rule, run: seq<Front>, xs: seq<Line>, p: nat, u: nat)
    requires FrontRuns(rule, run, xs) && run[0].rx.held == Low(8 * ItemLen(rule)) && u <= p && u < |run|
    requires forall v :: 0 <= v < p && v < |run| ==> !run[v].rx.newWork
    ensures run[u].rx.held == Low(8 * ItemLen(rule))
    decreases u
  {
    hide MessageSlots, TargetSlot;
    if u > 0 {
      NothingHeld(rule, run, xs, p, u - 1);
      assert run[u] == FrontClocked(rule, run[u - 1], xs[u - 1]);
    }
  }

  lemma NoTarget(rule: Rule)
    ensures TargetSlot(rule, Low(8 * ItemLen(rule))) == 0
  {
    var i := if rule.Knots? then 20 else 10;
    assert Low(8 * ItemLen(rule))[64 * i..64 * i + 64] == Low(64);
    ValueOfLow(64);
  }

  lemma {:induction false} ValueOfLow(n: nat)
    ensures ValueOf(Low(n)) == 0
  {
    if n > 0 {
      assert Low(n)[1..] == Low(n - 1);
      ValueOfLow(n - 1);
    }
  }

  /** From reset until the target of the first item reaches it, a core reports nothing: it compares
      against a target of zero. The broadcast registers have no reset. Should they hold something
      else, the silence begins when that has passed through. */
  lemma SilentUntilItem(rule: Rule, seed: U64, run: seq<Front>, xs: seq<Line>, core: seq<Core>, p: nat, t: nat)
    requires FrontRuns(rule, run, xs) && CoreRuns(rule, seed, core, CoreInputs(rule, run))
    requires run[0] == PowerUp(rule) || (run[0].rx == PowerUp(rule).rx && t >= Delay(rule))
    requires forall v :: 0 <= v < p && v < |run| ==> !run[v].rx.newWork
    requires t <= p + Delay(rule) && t < |xs|
    ensures CoreInputs(rule, run)[t].target == 0 && !core[t + 1].success
  {
    hide MessageSlots, TargetSlot, CoreInput, FrontClocked;
    NoTarget(rule);
    if t >= Delay(rule) {
      NothingHeld(rule, run, xs, p, t - Delay(rule));
      Delayed(rule, run, xs, t - Delay(rule));
    } else {
      ThroughTheTrunk(rule, run, xs, t);
    }
    NoHit(rule, seed, core[t], CoreInputs(rule, run)[t]);
  }

  lemma ThroughTheTrunk(rule: Rule, run: seq<Front>, xs: seq<Line>, t: nat)
    requires FrontRuns(rule, run, xs) && run[0] == PowerUp(rule) && t < Delay(rule) && t < |run|
    ensures CoreInput(rule, run[t]).target == 0
  {
    hide Receiver.Clocked, MessageSlots, TargetSlot;
    if t >= 1 { assert run[1] == FrontClocked(rule, run[0], xs[0]); }
    if t >= 2 { assert run[2] == FrontClocked(rule, run[1], xs[1]); }
  }

  lemma NoHit(rule: Rule, seed: U64, s: Core, x: Input)
    requires x.target == 0
    ensures !Cores.Clocked(rule, seed, s, x).success
  {
    hide Tapped, Tick, Initial, MessageOf, TapA;
  }

  /** The receiver inside a run is the receiver of module Receiver. */
  lemma {:induction false} RxFollows(rule: Rule, run: seq<Front>, xs: seq<Line>, h: Trace, a: nat, t: nat)
    requires FrontRuns(rule, run, xs) && a <= t < |run|
    requires Consistent(h, ItemLen(rule)) && run[a].rx == h.rx
    ensures run[t].rx == After(h, ItemLen(rule), xs[a..t]).rx
    decreases t
  {
    hide Consistent, Receiver.Clocked, MessageSlots, TargetSlot;
    var n := ItemLen(rule);
    if t > a {
      RxFollows(rule, run, xs, h, a, t - 1);
      assert xs[a..t][..t - 1 - a] == xs[a..t - 1];
      assert run[t] == FrontClocked(rule, run[t - 1], xs[t - 1]);
    }
  }

  // ---------------------------------------------------------------- end to end

  /** The lines between clocks a and p carry the host's item, byte for byte, in any timing. */
  ghost predicate Sent(rule: Rule, w: WorkCtx, bursts: seq<Burst>, frame: seq<Line>, lines: seq<Line>) {
    var item := Item(rule, w);
    && Spells(bursts, item[..|item| - 1]) && Carries(frame, item[|item| - 1])
    && lines == Clocks(bursts) + frame
  }

  /** One chip run: the receiver idles on a byte boundary at clock a, the packed item comes in
      up to clock p, and no other item completes during the d clocks after it. */
  ghost predicate Delivered(rule: Rule, run: seq<Front>, xs: seq<Line>, w: WorkCtx,
                            h: Trace, bursts: seq<Burst>, frame: seq<Line>, a: nat, p: nat, d: nat)
  {
    && FrontRuns(rule, run, xs) && a <= p && p + 2 + Delay(rule) + d < |run|
    && Consistent(h, ItemLen(rule)) && run[a].rx == h.rx && !h.rx.shifting && h.rx.bytes == 0
    && Sent(rule, w, bursts, frame, xs[a..p])
    && forall v :: p < v < p + 1 + d ==> !run[v].rx.newWork
  }

  lemma DeliveredPulse(rule: Rule, run: seq<Front>, xs: seq<Line>, w: WorkCtx,
                       h: Trace, bursts: seq<Burst>, frame: seq<Line>, a: nat, p: nat, d: nat)
    requires Delivered(rule, run, xs, w, h, bursts, frame, a, p, d)
    ensures run[p].rx.newWork && run[p].rx.work == BitsOf(Item(rule, w))
  {
    hide Consistent, Spells, Carries, Clocks, After, BitsOf, FrontClocked, FrontRuns;
    RxFollows(rule, run, xs, h, a, p);
    ItemPulse(h, ItemLen(rule), bursts, frame, Item(rule, w));
  }

  /** An item sent by the host is what a core grinds: from the clock it reaches the core on,
      report r + 99 + k is the verdict on nonce seed + k of exactly that header, against
      exactly that target, for as long as no other item arrives. */
  lemma ItemIsGround(rule: Rule, seed: U64, run: seq<Front>, xs: seq<Line>, core: seq<Core>, w: WorkCtx,
                     h: Trace, bursts: seq<Burst>, frame: seq<Line>, a: nat, p: nat, k: nat)
    requires Delivered(rule, run, xs, w, h, bursts, frame, a, p, k + 98)
    requires CoreRuns(rule, seed, core, CoreInputs(rule, run))
    ensures var n := (seed + k) % TWO64;
            var word := DigestWord(rule, HeaderOf(w.ss4), n);
            var out := core[p + 1 + Delay(rule) + 99 + k];
            && (out.success <==> rule.Compared(word) < w.targetTop64)
            && (out.success ==> out.nonceOut == n && out.hashOut == ByteSwap(word))
  {
    hide Consistent, Sent, BitsOf, DigestWord, ByteSwap, CoreInput, CoreRuns, Stable, MessageSlots, TargetSlot,
      HeaderOf, FrontClocked, Item;
    var ins, r, d := CoreInputs(rule, run), p + 1 + Delay(rule), k + 98;
    DeliveredPulse(rule, run, xs, w, h, bursts, frame, a, p, d);
    RoundTrip(rule, w);
    SwitchTogether(rule, run, xs, p, d, HeaderOf(w.ss4));
    EveryNonceInTurn(rule, seed, core, ins, r, k, HeaderOf(w.ss4));
  }

  /** The host confirms every report about its own item: the word it recomputes for the
      reported nonce is the one reported, and the full 256-bit compare passes. */
  lemma ReportIsConfirmed(rule: Rule, seed: U64, run: seq<Front>, xs: seq<Line>, core: seq<Core>, w: WorkCtx,
                          h: Trace, bursts: seq<Burst>, frame: seq<Line>, a: nat, p: nat, k: nat, target: Bytes32)
    requires Delivered(rule, run, xs, w, h, bursts, frame, a, p, k + 98)
    requires CoreRuns(rule, seed, core, CoreInputs(rule, run))
    requires w.targetTop64 as nat == BE(target) / TWO192
    ensures var out := core[p + 1 + Delay(rule) + 99 + k];
            out.success ==>
              && out.hashOut == ByteSwap(DigestWord(rule, HeaderOf(w.ss4), out.nonceOut))
              && BE(CompareBytes(rule, w.ss4, out.nonceOut)) <= BE(target)
  {
    hide *;
    ItemIsGround(rule, seed, run, xs, core, w, h, bursts, frame, a, p, k);
    PrefilterExact(rule, w.ss4, (seed + k) % TWO64, target);
  }

  /** Different cores of one chip, given the same item, never report the same nonce while
      neither has used up its slice. */
  lemma NoNonceTwice(run: seq<Front>, xs: seq<Line>, w: WorkCtx, h: Trace, bursts: seq<Burst>, frame: seq<Line>,
                     a: nat, p: nat, cores: nat, m: nat, i: nat, j: nat, core: seq<Core>, other: seq<Core>,
                     k: nat, l: nat)
    requires AddressBits(m, cores) && m <= 64 && i < cores && j < cores && i != j
    requires k < Slice(m) && l < Slice(m)
    requires Delivered(Knots, run, xs, w, h, bursts, frame, a, p, k + 98)
    requires Delivered(Knots, run, xs, w, h, bursts, frame, a, p, l + 98)
    requires CoreRuns(Knots, Seed(i, m), core, CoreInputs(Knots, run))
    requires CoreRuns(Knots, Seed(j, m), other, CoreInputs(Knots, run))
    ensures core[p + 103 + k].success && other[p + 103 + l].success ==>
              core[p + 103 + k].nonceOut != other[p + 103 + l].nonceOut
  {
    hide Delivered, DigestWord, ByteSwap, Cores.Clocked, HeaderOf, CoreInputs, Seed, Slice, AddressBits;
    ItemIsGround(Knots, Seed(i, m), run, xs, core, w, h, bursts, frame, a, p, k);
    ItemIsGround(Knots, Seed(j, m), run, xs, other, w, h, bursts, frame, a, p, l);
    CoresDisjoint(cores, m, i, j, k, l);
  }

  // ---------------------------------------------------------------- such runs exist

  function FrontAfter(rule: Rule, f: Front, xs: seq<Line>): (g: Front)
    requires Sized(rule, f.rx)
    ensures Sized(rule, g.rx)
  {
    hide FrontClocked;
    if xs == [] then f else FrontClocked(rule, FrontAfter(rule, f, xs[..|xs| - 1]), xs[|xs| - 1])
  }

  /** The run the inputs determine. */
  function FrontRun(rule: Rule, f: Front, xs: seq<Line>): (run: seq<Front>)
    requires Sized(rule, f.rx)
    ensures |run| == |xs| + 1
  {
    hide FrontAfter;
    seq(|xs| + 1, t requires 0 <= t <= |xs| => FrontAfter(rule, f, xs[..t]))
  }

  lemma FrontRunRuns(rule: Rule, f: Front, xs: seq<Line>)
    requires Sized(rule, f.rx)
    ensures FrontRuns(rule, FrontRun(rule, f, xs), xs) && FrontRun(rule, f, xs)[0] == f
  {
    hide FrontClocked;
    var run := FrontRun(rule, f, xs);
    forall t | 0 <= t < |xs|
      ensures run[t + 1] == FrontClocked(rule, run[t], xs[t])
    {
      assert xs[..t + 1][..t] == xs[..t];
    }
  }

  function CoreAfter(rule: Rule, seed: U64, s: Core, ins: seq<Input>): Core {
    hide Cores.Clocked;
    if ins == [] then s else Cores.Clocked(rule, seed, CoreAfter(rule, seed, s, ins[..|ins| - 1]), ins[|ins| - 1])
  }

  /** A core's run exists for every input and every starting state. */
  lemma CoreRunExists(rule: Rule, seed: U64, s: Core, ins: seq<Input>)
    ensures exists run :: CoreRuns(rule, seed, run, ins) && run[0] == s
  {
    hide Cores.Clocked;
    var run := seq(|ins| + 1, t requires 0 <= t <= |ins| => CoreAfter(rule, seed, s, ins[..t]));
    forall t | 0 <= t < |ins|
      ensures run[t + 1] == Cores.Clocked(rule, seed, run[t], ins[t])
    {
      assert ins[..t + 1][..t] == ins[..t];
    }
    assert CoreRuns(rule, seed, run, ins);
  }

  /** Every item can be delivered from reset and followed by any number of quiet clocks. */
  lemma DeliveryPossible(rule: Rule, w: WorkCtx, f: Front, d: nat)
    requires f.rx == Quiet(ItemLen(rule))
    ensures var item := Item(rule, w);
            var bursts, frame := PlainBursts(item[..|item| - 1]), Plain(item[|item| - 1]);
            var sent := Clocks(bursts) + frame;
            var xs := sent + Idle(d + 10);
            Delivered(rule, FrontRun(rule, f, xs), xs, w, Receiver.Start(ItemLen(rule)), bursts, frame, 0, |sent|, d)
  {
    hide Item, Clocks, FrontRun, FrontClocked, Consistent, Spells, Carries, Plain, PlainBursts, After, AllQuiet;
    var item, n := Item(rule, w), ItemLen(rule);
    var bursts, frame := PlainBursts(item[..|item| - 1]), Plain(item[|item| - 1]);
    var sent := Clocks(bursts) + frame;
    var xs := sent + Idle(d + 10);
    var run, h, p := FrontRun(rule, f, xs), Receiver.Start(n), |sent|;
    StartConsistent(n);
    FrontRunRuns(rule, f, xs);
    PlainSpells(item[..|item| - 1]);
    PlainCarries(item[|item| - 1]);
    assert xs[0..p] == sent;
    ItemPulse(h, n, bursts, frame, item);
    forall v | p < v < p + 1 + d
      ensures !run[v].rx.newWork
    {
      RxFollows(rule, run, xs, h, 0, v);
      assert xs[0..v] == sent + Idle(v - p);
      AfterConcat(h, n, sent, Idle(v - p));
      QuietClocks(After(h, n, sent), n, Idle(v - p));
    }
  }
}
