/** The round-robin arbiter between N cores and the one transmitter
    (src/OspreyBlake2bTop.vhd, entity OspreyBlake2bResultArb). */
module Arbiter {
  import opened Words

  datatype Pair = Pair(nonce: U64, hash: U64)

  /** One core's capture slot and its saturating drop counter. */
  datatype Slot = Slot(valid: bool, pair: Pair, drop: nat)

  datatype Arb = Arb(slots: seq<Slot>, next: nat) {
    predicate Valid(n: nat) { n > 0 && |slots| == n && next < n && forall k :: 0 <= k < n ==> slots[k].drop <= DROP_MAX }
  }

  const DROP_MAX: nat := 0xFFFF

  /** One core's output on one clock. */
  datatype Offer = Offer(success: bool, pair: Pair)

  datatype Input = Input(offers: seq<Offer>, ready: bool)

  datatype Grant = NoGrant | Granted(core: nat, pair: Pair)

  // ---------------------------------------------------------------- one clock

  /** Core `steps` places after `from` on the ring. */
  function Ring(from: nat, steps: nat, n: nat): (k: nat)
    requires from < n && steps < n
    ensures k < n
  {
    if from + steps < n then from + steps else from + steps - n
  }

  function Successor(k: nat, n: nat): nat
    requires k < n
    ensures Successor(k, n) < n
  {
    if k + 1 < n then k + 1 else 0
  }

  /** Places from `from` round to `k`. */
  function Distance(from: nat, k: nat, n: nat): (d: nat)
    requires from < n && k < n
    ensures d < n && Ring(from, d, n) == k
  {
    if k >= from then k - from else k + n - from
  }

  /** Core k wins when its slot is full and every slot met before it is empty. */
  ghost predicate Wins(a: Arb, k: nat)
    requires a.next < |a.slots| && k < |a.slots|
  {
    && a.slots[k].valid
    && forall j :: 0 <= j < |a.slots| && Distance(a.next, j, |a.slots|) < Distance(a.next, k, |a.slots|) ==> !a.slots[j].valid
  }

  /** The search loop of Select_p from step d on. */
  function Search(a: Arb, d: nat): (g: Grant)
    requires a.next < |a.slots| && d <= |a.slots|
    requires forall j :: 0 <= j < |a.slots| && Distance(a.next, j, |a.slots|) < d ==> !a.slots[j].valid
    ensures g.Granted? ==> g.core < |a.slots| && Wins(a, g.core) && g.pair == a.slots[g.core].pair
    ensures g.NoGrant? ==> forall j :: 0 <= j < |a.slots| ==> !a.slots[j].valid
    decreases |a.slots| - d
  {
    if d == |a.slots| then
      assert forall j :: 0 <= j < |a.slots| ==> Distance(a.next, j, |a.slots|) < d;
      NoGrant
    else
      var k := Ring(a.next, d, |a.slots|);
      assert forall j :: 0 <= j < |a.slots| && Distance(a.next, j, |a.slots|) == d ==> j == k;
      if a.slots[k].valid then Granted(k, a.slots[k].pair) else Search(a, d + 1)
  }

  function Select(a: Arb, ready: bool): (g: Grant)
    requires a.next < |a.slots|
    ensures g.Granted? ==> ready && g.core < |a.slots| && Wins(a, g.core) && g.pair == a.slots[g.core].pair
    ensures g.NoGrant? ==> !ready || forall j :: 0 <= j < |a.slots| ==> !a.slots[j].valid
  {
    if ready then Search(a, 0) else NoGrant
  }

  /** What becomes of one slot: a success refills a slot that is empty or granted on this very
      clock, is counted as dropped otherwise, and a grant alone empties the slot. */
  function Captured(s: Slot, o: Offer, granted: bool): Slot {
    if o.success && (!s.valid || granted) then s.(valid := true, pair := o.pair)
    else if o.success then s.(drop := if s.drop != DROP_MAX then s.drop + 1 else s.drop)
    else if granted then s.(valid := false)
    else s
  }

  predicate GrantsCore(g: Grant, k: nat) { g.Granted? && g.core == k }

  function Clocked(a: Arb, x: Input): (b: Arb)
    requires a.Valid(|x.offers|)
    ensures b.Valid(|x.offers|)
  {
    var g := Select(a, x.ready);
    Arb(seq(|a.slots|, k requires 0 <= k < |a.slots| => Captured(a.slots[k], x.offers[k], GrantsCore(g, k))),
        if g.Granted? then Successor(g.core, |a.slots|) else a.next)
  }

  /** The arbiter entity: slot registers with their drop counters, and the ring pointer. */
  class ResultArb {
    const slots: array<Slot>
    var next: nat

    ghost predicate Ready()
      reads this, slots
    {
      View().Valid(slots.Length)
    }

    ghost function View(): Arb
      reads this, slots
    {
      Arb(slots[..], next)
    }

    /** State after reset: no slot full, no drop counted. */
    constructor (cores: nat)
      requires cores > 0
      ensures Ready() && slots.Length == cores && fresh(slots)
      ensures IsReset(View())
    {
      slots := new Slot[cores](_ => Slot(false, Pair(0, 0), 0));
      next := 0;
    }

    /** Select_p: walk outward from the pointer. */
    method Choose(ready: bool) returns (found: bool, idx: nat)
      requires Ready()
      ensures var g := Select(View(), ready);
              found == g.Granted? && idx < slots.Length && (found ==> idx == g.core)
    {
      var n := slots.Length;
      found, idx := false, 0;
      ghost var a := View();
      if ready {
        for d := 0 to n
          invariant !found ==> (forall j :: 0 <= j < n && Distance(next, j, n) < d ==> !a.slots[j].valid)
          invariant !found ==> Search(a, 0) == Search(a, d)
          invariant idx < n && (found ==> Search(a, 0).Granted? && Search(a, 0).core == idx)
        {
          if !found {
            var k := (next + d) % n;
            RingIsMod(next, d, n);
            assert forall j :: 0 <= j < n && Distance(next, j, n) == d ==> j == k;
            if slots[k].valid {
              idx, found := k, true;
            }
          }
        }
      }
    }

    /** One clock edge: Capture over all slots, then the pointer. */
    method Clock(x: Input) returns (g: Grant)
      requires Ready() && |x.offers| == slots.Length
      modifies this, slots
      ensures Ready() && g == Select(old(View()), x.ready) && View() == Clocked(old(View()), x)
    {
      hide Search, Select, Distance;
      var n := slots.Length;
      ghost var a := View();
      var found, idx := Choose(x.ready);
      g := if found then Granted(idx, slots[idx].pair) else NoGrant;
      for k := 0 to n
        modifies slots
        invariant forall j :: 0 <= j < k ==> slots[j] == Captured(a.slots[j], x.offers[j], GrantsCore(g, j))
        invariant forall j :: k <= j < n ==> slots[j] == a.slots[j]
      {
        var s, o, granted := slots[k], x.offers[k], found && idx == k;
        if o.success && (!s.valid || granted) {
          slots[k] := s.(valid := true, pair := o.pair);
        } else if o.success {
          if s.drop != DROP_MAX {
            slots[k] := s.(drop := s.drop + 1);
          }
        } else if granted {
          slots[k] := s.(valid := false);
        }
      }
      if found {
        ModOnce(idx + 1, n);
        next := (idx + 1) % n;
      }
      assert slots[..] == Clocked(a, x).slots;
    }
  }

  predicate IsReset(a: Arb) {
    a.next == 0 && forall k :: 0 <= k < |a.slots| ==> !a.slots[k].valid && a.slots[k].drop == 0
  }

  lemma RingIsMod(from: nat, steps: nat, n: nat)
    requires from < n && steps < n
    ensures (from + steps) % n == Ring(from, steps, n)
  {
    ModOnce(from + steps, n);
  }

  lemma ModOnce(x: nat, n: nat)
    requires n > 0 && x < 2 * n
    ensures x % n == if x < n then x else x - n
  {
    if x < n { QuotientUnique(x, n, 0, x); } else { QuotientUnique(x, n, 1, x - n); }
  }

  // ---------------------------------------------------------------- whole runs

  ghost predicate Inputs(ins: seq<Input>, n: nat) {
    forall t :: 0 <= t < |ins| ==> |ins[t].offers| == n
  }

  /** State after the inputs, from state a. */
  function After(a: Arb, ins: seq<Input>, n: nat): (b: Arb)
    requires a.Valid(n) && Inputs(ins, n)
    ensures b.Valid(n)
  {
    if ins == [] then a else Clocked(After(a, ins[..|ins| - 1], n), ins[|ins| - 1])
  }

  /** Grant made on the last clock of the inputs. */
  function LastGrant(a: Arb, ins: seq<Input>, n: nat): Grant
    requires a.Valid(n) && Inputs(ins, n) && ins != []
  {
    Select(After(a, ins[..|ins| - 1], n), ins[|ins| - 1].ready)
  }

  /** Pairs core k offered, in order. */
  function Offered(ins: seq<Input>, n: nat, k: nat): seq<Pair>
    requires Inputs(ins, n) && k < n
  {
    if ins == [] then []
    else
      var o := ins[|ins| - 1].offers[k];
      Offered(ins[..|ins| - 1], n, k) + if o.success then [o.pair] else []
  }

  /** Pairs of core k that were granted to the transmitter, in order. */
  function Delivered(a: Arb, ins: seq<Input>, n: nat, k: nat): seq<Pair>
    requires a.Valid(n) && Inputs(ins, n) && k < n
  {
    if ins == [] then []
    else
      var g := LastGrant(a, ins, n);
      Delivered(a, ins[..|ins| - 1], n, k) + if GrantsCore(g, k) then [g.pair] else []
  }

  /** An offer is lost when the slot is full and not being granted on that clock. */
  predicate Loses(a: Arb, x: Input, k: nat)
    requires a.Valid(|x.offers|) && k < |x.offers|
  {
    x.offers[k].success && a.slots[k].valid && !GrantsCore(Select(a, x.ready), k)
  }

  /** Pairs of core k that were lost, in order. */
  function Lost(a: Arb, ins: seq<Input>, n: nat, k: nat): seq<Pair>
    requires a.Valid(n) && Inputs(ins, n) && k < n
  {
    if ins == [] then []
    else
      var b, x := After(a, ins[..|ins| - 1], n), ins[|ins| - 1];
      Lost(a, ins[..|ins| - 1], n, k) + if Loses(b, x, k) then [x.offers[k].pair] else []
  }

  /** Pairs of core k that were captured, in order. */
  function Kept(a: Arb, ins: seq<Input>, n: nat, k: nat): seq<Pair>
    requires a.Valid(n) && Inputs(ins, n) && k < n
  {
    if ins == [] then []
    else
      var b, x := After(a, ins[..|ins| - 1], n), ins[|ins| - 1];
      var o := x.offers[k];
      Kept(a, ins[..|ins| - 1], n, k) + if o.success && !Loses(b, x, k) then [o.pair] else []
  }

  function Held(s: Slot): seq<Pair> { if s.valid then [s.pair] else [] }

  function Min(x: nat, y: nat): nat { if x < y then x else y }

  /** Conservation for any number of cores and any inputs. What core k got through is exactly
      what it captured, in capture order and each pair once, except for the one pair its slot
      may still hold; every offer is captured or lost; and the counter is the number lost,
      saturated. */
  lemma {:induction false} Conservation(a: Arb, ins: seq<Input>, n: nat, k: nat)
    requires a.Valid(n) && IsReset(a) && Inputs(ins, n) && k < n
    ensures var s := After(a, ins, n).slots[k];
            && Kept(a, ins, n, k) == Delivered(a, ins, n, k) + Held(s)
            && |Offered(ins, n, k)| == |Kept(a, ins, n, k)| + |Lost(a, ins, n, k)|
            && s.drop == Min(|Lost(a, ins, n, k)|, DROP_MAX)
  {
    hide Select, Search;
    if ins != [] {
      Conservation(a, ins[..|ins| - 1], n, k);
    }
  }

  /** The counting law: offers = deliveries + losses + the slot in use. */
  lemma OffersAccountedFor(a: Arb, ins: seq<Input>, n: nat, k: nat)
    requires a.Valid(n) && IsReset(a) && Inputs(ins, n) && k < n
    ensures var s := After(a, ins, n).slots[k];
            |Offered(ins, n, k)| == |Delivered(a, ins, n, k)| + |Lost(a, ins, n, k)| + if s.valid then 1 else 0
  {
    hide After, Offered, Delivered, Lost, Kept;
    Conservation(a, ins, n, k);
  }

  // ---------------------------------------------------------------- bounded waiting

  /** A clock on which another core is served brings core k strictly nearer the pointer. */
  lemma ServingAnotherBringsNearer(a: Arb, x: Input, k: nat)
    requires a.Valid(|x.offers|) && k < |x.offers| && a.slots[k].valid
    ensures var g := Select(a, x.ready);
            var b := Clocked(a, x);
            var n := |x.offers|;
            && (g.NoGrant? ==> !x.ready)
            && (!GrantsCore(g, k) ==> b.slots[k].valid && b.slots[k].pair == a.slots[k].pair)
            && (g.Granted? && g.core != k ==> Distance(b.next, k, n) < Distance(a.next, k, n))
            && (g.NoGrant? ==> b.next == a.next)
  {
    hide Search;
  }

  /** Grants to cores other than k. */
  function OthersServed(a: Arb, ins: seq<Input>, n: nat, k: nat): nat
    requires a.Valid(n) && Inputs(ins, n) && k < n
  {
    if ins == [] then 0
    else
      var g := LastGrant(a, ins, n);
      OthersServed(a, ins[..|ins| - 1], n, k) + if g.Granted? && g.core != k then 1 else 0
  }

  /** Bounded waiting: from any state in which core k's slot is full, as long as k is not
      served its pair stays put and at most (k - pointer) mod N <= N - 1 grants go elsewhere. */
  lemma {:induction false} BoundedWaiting(a: Arb, ins: seq<Input>, n: nat, k: nat)
    requires a.Valid(n) && Inputs(ins, n) && k < n && a.slots[k].valid
    requires Delivered(a, ins, n, k) == []
    ensures var b := After(a, ins, n);
            && b.slots[k].valid && b.slots[k].pair == a.slots[k].pair
            && OthersServed(a, ins, n, k) + Distance(b.next, k, n) <= Distance(a.next, k, n) <= n - 1
  {
    hide Select, Search, Clocked;
    if ins != [] {
      BoundedWaiting(a, ins[..|ins| - 1], n, k);
      ServingAnotherBringsNearer(After(a, ins[..|ins| - 1], n), ins[|ins| - 1], k);
    }
  }

  /** How often the transmitter was ready. */
  function ReadyClocks(ins: seq<Input>): nat {
    if ins == [] then 0 else ReadyClocks(ins[..|ins| - 1]) + if ins[|ins| - 1].ready then 1 else 0
  }

  /** No starvation: after N ready clocks a full slot has been served. */
  lemma ServedWithinNReadyClocks(a: Arb, ins: seq<Input>, n: nat, k: nat)
    requires a.Valid(n) && Inputs(ins, n) && k < n && a.slots[k].valid
    requires ReadyClocks(ins) >= n
    ensures Delivered(a, ins, n, k) != []
  {
    if Delivered(a, ins, n, k) == [] {
      BoundedWaiting(a, ins, n, k);
      EveryReadyClockServes(a, ins, n, k);
    }
  }

  lemma {:induction false} EveryReadyClockServes(a: Arb, ins: seq<Input>, n: nat, k: nat)
    requires a.Valid(n) && Inputs(ins, n) && k < n && a.slots[k].valid
    requires Delivered(a, ins, n, k) == []
    ensures OthersServed(a, ins, n, k) == ReadyClocks(ins)
  {
    hide Select, Search, Clocked;
    if ins != [] {
      var before := ins[..|ins| - 1];
      EveryReadyClockServes(a, before, n, k);
      BoundedWaiting(a, before, n, k);
      ServingAnotherBringsNearer(After(a, before, n), ins[|ins| - 1], k);
    }
  }
}
