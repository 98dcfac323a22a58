/** The receive side of the UART work interface and the held copy of the work item
    (src/OspreyBlake2bUartGetWork.vhd, src/OspreyBlake2bUartTop.vhd), one step per clock. The
    sampling clock is an input. */
module Receiver {
  import opened Words
  import opened Serial

  /** Receiver registers and the held copy, for items of n bytes. */
  datatype Rx = Rx(shifting: bool, bits: nat, bytes: nat, work: seq<bool>, newWork: bool, held: seq<bool>)

  /** The synchronised line, its delayed copy, and whether this clock samples. */
  datatype Line = Line(rx: bool, delayed: bool, sample: bool) {
    predicate StartEdge() { !rx && delayed }
  }

  function Clocked(r: Rx, n: nat, x: Line): Rx
    requires |r.work| == 8 * n && n > 0
    ensures |Clocked(r, n, x).work| == 8 * n
  {
    var s := r.(newWork := false, held := if r.newWork then r.work else r.held);
    if !r.shifting then s.(bits := 0, shifting := x.StartEdge())
    else if r.bits < 8 then
      if x.sample then s.(work := r.work[1..] + [x.rx], bits := r.bits + 1) else s
    else if r.bytes == n - 1 then s.(newWork := true, bytes := 0, shifting := false)
    else s.(bytes := r.bytes + 1, shifting := false)
  }

  /** The receiver and the HoldWork process. */
  class UartReceiver {
    const n: nat
    var shifting: bool
    var bits: nat
    var bytes: nat
    var work: seq<bool>
    var newWork: bool
    var held: seq<bool>

    ghost predicate Sized()
      reads this
    {
      n > 0 && |work| == 8 * n
    }

    ghost function View(): Rx
      reads this
    {
      Rx(shifting, bits, bytes, work, newWork, held)
    }

    constructor (n: nat)
      requires n > 0
      ensures Sized() && this.n == n && View() == Quiet(n)
    {
      this.n := n;
      shifting, bits, bytes, newWork := false, 0, 0, false;
      work, held := Low(8 * n), Low(8 * n);
    }

    method Clock(x: Line)
      requires Sized()
      modifies this
      ensures Sized() && View() == Clocked(old(View()), n, x)
    {
      if newWork { held := work; }
      newWork := false;
      if !shifting {
        bits := 0;
        if !x.rx && x.delayed { shifting := true; }
      } else if bits < 8 {
        if x.sample {
          work := work[1..] + [x.rx];
          bits := bits + 1;
        }
      } else {
        if bytes == n - 1 {
          newWork := true;
          bytes := 0;
        } else {
          bytes := bytes + 1;
        }
        shifting := false;
      }
    }
  }

  function Quiet(n: nat): Rx { Rx(false, 0, 0, Low(8 * n), false, Low(8 * n)) }

  // ---------------------------------------------------------------- what has been received

  /** The receiver together with everything it has shifted in since reset. */
  datatype Trace = Trace(rx: Rx, log: seq<bool>, windows: nat)

  function Tracked(h: Trace, n: nat, x: Line): Trace
    requires |h.rx.work| == 8 * n && n > 0
  {
    var r := h.rx;
    Trace(Clocked(r, n, x),
          if r.shifting && r.bits < 8 && x.sample then h.log + [x.rx] else h.log,
          if r.shifting && r.bits >= 8 && r.bytes == n - 1 then h.windows + 1 else h.windows)
  }

  /** Window j of the received bits; window 0 is the reset value. */
  function Window(log: seq<bool>, n: nat, j: nat): seq<bool>
    requires 8 * (n * j) <= |log|
  {
    if j == 0 then Low(8 * n)
    else
      MulMonotone(n, j - 1, j);
      log[8 * (n * (j - 1))..8 * (n * j)]
  }

  ghost predicate Consistent(h: Trace, n: nat) {
    var r := h.rx;
    && n > 0 && |r.work| == 8 * n && r.bytes < n && r.bits <= 8
    && |h.log| == 8 * (n * h.windows + r.bytes) + (if r.shifting then r.bits else 0)
    && r.work == (Low(8 * n) + h.log)[|h.log|..]
    && (r.newWork ==> h.windows > 0 && r.bytes == 0 && !r.shifting)
    && r.held == Window(h.log, n, if r.newWork then h.windows - 1 else h.windows)
  }

  function Start(n: nat): Trace { Trace(Quiet(n), [], 0) }

  lemma StartConsistent(n: nat)
    requires n > 0
    ensures Consistent(Start(n), n)
  {
    assert n * 0 == 0;
    assert (Low(8 * n) + [])[0..] == Low(8 * n);
  }

  lemma ShiftKeepsTail(pad: seq<bool>, log: seq<bool>, work: seq<bool>, b: bool)
    requires |pad| > 0 && work == (pad + log)[|log|..]
    ensures work[1..] + [b] == (pad + (log + [b]))[|log| + 1..]
  {
    assert pad + (log + [b]) == (pad + log) + [b];
  }

  /** Windows already closed do not change as more bits come in. */
  lemma WindowStable(log: seq<bool>, more: seq<bool>, n: nat, j: nat)
    requires 8 * (n * j) <= |log|
    ensures Window(log + more, n, j) == Window(log, n, j)
  {
    if j > 0 {
      MulMonotone(n, j - 1, j);
      assert (log + more)[..|log|] == log;
    }
  }

  /** The tail of the log at a window boundary is that window. */
  lemma WorkIsWindow(log: seq<bool>, n: nat, j: nat)
    requires j > 0 && |log| == 8 * (n * j)
    ensures (Low(8 * n) + log)[|log|..] == Window(log, n, j)
  {
    assert n * j == n * (j - 1) + n;
  }

  /** At every clock the held copy is all zeros or one complete receive window, never a mix. */
  lemma TrackedConsistent(h: Trace, n: nat, x: Line)
    requires Consistent(h, n)
    ensures Consistent(Tracked(h, n, x), n)
  {
    hide Window;
    var r := h.rx;
    if r.newWork { WorkIsWindow(h.log, n, h.windows); }
    if r.shifting && r.bits < 8 && x.sample {
      ShiftKeepsTail(Low(8 * n), h.log, r.work, x.rx);
      WindowStable(h.log, [x.rx], n, h.windows);
    }
    assert n * (h.windows + 1) == n * h.windows + n;
  }

  function After(h: Trace, n: nat, xs: seq<Line>): (r: Trace)
    requires Consistent(h, n)
    ensures Consistent(r, n)
  {
    if xs == [] then h
    else
      var before := After(h, n, xs[..|xs| - 1]);
      TrackedConsistent(before, n, xs[|xs| - 1]);
      Tracked(before, n, xs[|xs| - 1])
  }

  lemma {:induction false} AfterConcat(h: Trace, n: nat, a: seq<Line>, b: seq<Line>)
    requires Consistent(h, n)
    ensures After(h, n, a + b) == After(After(h, n, a), n, b)
  {
    hide Consistent, Tracked;
    if b == [] {
      assert a + b == a;
    } else {
      assert (a + b)[..|a| + |b| - 1] == a + b[..|b| - 1];
      AfterConcat(h, n, a, b[..|b| - 1]);
    }
  }

  // ---------------------------------------------------------------- a byte on the line

  /** The levels sampled during some clocks. */
  function Samples(xs: seq<Line>): seq<bool> {
    if xs == [] then []
    else Samples(xs[..|xs| - 1]) + if xs[|xs| - 1].sample then [xs[|xs| - 1].rx] else []
  }

  /** Clocks that carry byte b, at any baud rate: a start edge, then clocks with exactly eight
      samples showing b least significant bit first, the last of them sampling, then one more. */
  ghost predicate Carries(xs: seq<Line>, b: Byte) {
    && |xs| >= 3 && xs[0].StartEdge()
    && Samples(xs[1..|xs| - 1]) == Bits(b, 8)
    && xs[|xs| - 2].sample
  }

  ghost predicate AllQuiet(xs: seq<Line>) {
    forall i :: 0 <= i < |xs| ==> !xs[i].StartEdge()
  }

  lemma {:induction false} DataClocks(h: Trace, n: nat, xs: seq<Line>)
    requires Consistent(h, n) && h.rx.shifting && h.rx.bits == 0 && |Samples(xs)| <= 8
    requires xs != [] && |Samples(xs)| == 8 ==> xs[|xs| - 1].sample
    ensures var g := After(h, n, xs);
            && g.rx.shifting && g.rx.bits == |Samples(xs)| && g.rx.bytes == h.rx.bytes
            && g.log == h.log + Samples(xs) && g.windows == h.windows
  {
    hide Consistent;
    if xs != [] {
      var front := xs[..|xs| - 1];
      if |Samples(front)| == 8 {
        assert false;
      }
      DataClocks(h, n, front);
    } else {
      assert h.log + [] == h.log;
    }
  }

  /** One byte arrives: eight bits join the log, and the byte counter moves on, closing a
      window every n bytes. */
  lemma ByteArrives(h: Trace, n: nat, xs: seq<Line>, b: Byte)
    requires Consistent(h, n) && !h.rx.shifting && Carries(xs, b)
    ensures var g := After(h, n, xs);
            && !g.rx.shifting && g.log == h.log + Bits(b, 8)
            && g.rx.bytes == (if h.rx.bytes == n - 1 then 0 else h.rx.bytes + 1)
            && g.windows == (if h.rx.bytes == n - 1 then h.windows + 1 else h.windows)
            && (g.rx.newWork <==> h.rx.bytes == n - 1)
  {
    hide Consistent, Bits;
    var mid, last := xs[1..|xs| - 1], xs[|xs| - 1..];
    assert xs == xs[..1] + mid + last;
    AfterConcat(h, n, xs[..1] + mid, last);
    AfterConcat(h, n, xs[..1], mid);
    OneClock(h, n, xs[0]);
    var h1 := After(h, n, xs[..1]);
    assert xs[..1] == [xs[0]];
    DataClocks(h1, n, mid);
    OneClock(After(h1, n, mid), n, xs[|xs| - 1]);
    assert last == [xs[|xs| - 1]];
  }

  lemma OneClock(h: Trace, n: nat, x: Line)
    requires Consistent(h, n)
    ensures After(h, n, [x]) == Tracked(h, n, x)
  {
    hide Consistent, Tracked;
    assert [x][..0] == [];
    assert After(h, n, []) == h;
  }

  lemma {:induction false} QuietClocks(h: Trace, n: nat, xs: seq<Line>)
    requires Consistent(h, n) && !h.rx.shifting && AllQuiet(xs) && xs != []
    ensures var g := After(h, n, xs);
            && !g.rx.shifting && !g.rx.newWork && g.log == h.log && g.windows == h.windows && g.rx.bytes == h.rx.bytes
  {
    hide Consistent;
    var front := xs[..|xs| - 1];
    if front == [] {
      assert After(h, n, front) == h;
    } else {
      QuietClocks(h, n, front);
    }
    assert !xs[|xs| - 1].StartEdge();
  }

  /** One byte and the pause after it. */
  datatype Burst = Burst(frame: seq<Line>, pause: seq<Line>)

  function Clocks(bursts: seq<Burst>): seq<Line> {
    if bursts == [] then []
    else Clocks(bursts[..|bursts| - 1]) + bursts[|bursts| - 1].frame + bursts[|bursts| - 1].pause
  }

  /** The bursts spell the bytes; every byte is followed by at least one idle clock. */
  ghost predicate Spells(bursts: seq<Burst>, bytes: seq<Byte>) {
    && |bursts| == |bytes|
    && forall i :: 0 <= i < |bytes| ==>
         Carries(bursts[i].frame, bytes[i]) && AllQuiet(bursts[i].pause) && bursts[i].pause != []
  }

  lemma BurstArrives(h: Trace, n: nat, u: Burst, b: Byte)
    requires Consistent(h, n) && !h.rx.shifting
    requires Carries(u.frame, b) && AllQuiet(u.pause) && u.pause != []
    ensures var g := After(h, n, u.frame + u.pause);
            && !g.rx.shifting && !g.rx.newWork && g.log == h.log + Bits(b, 8)
            && g.rx.bytes == (if h.rx.bytes == n - 1 then 0 else h.rx.bytes + 1)
            && g.windows == (if h.rx.bytes == n - 1 then h.windows + 1 else h.windows)
  {
    hide Consistent, Bits, Carries, AllQuiet;
    AfterConcat(h, n, u.frame, u.pause);
    ByteArrives(h, n, u.frame, b);
    QuietClocks(After(h, n, u.frame), n, u.pause);
  }

  lemma NoClocks(h: Trace, n: nat, bursts: seq<Burst>, bytes: seq<Byte>)
    requires Consistent(h, n) && bytes == [] && Spells(bursts, bytes)
    ensures After(h, n, Clocks(bursts)) == h && BitsOf(bytes) == []
  {
    hide Consistent;
    assert Clocks(bursts) == [];
  }

  lemma LastBurst(bursts: seq<Burst>, bytes: seq<Byte>)
    requires bytes != [] && Spells(bursts, bytes)
    ensures var m := |bytes| - 1;
            && Spells(bursts[..m], bytes[..m])
            && Clocks(bursts) == Clocks(bursts[..m]) + (bursts[m].frame + bursts[m].pause)
            && BitsOf(bytes) == BitsOf(bytes[..m]) + Bits(bytes[m], 8)
            && Carries(bursts[m].frame, bytes[m]) && AllQuiet(bursts[m].pause) && bursts[m].pause != []
  {
    hide Carries, AllQuiet, Bits;
    var m := |bytes| - 1;
    assert bytes == bytes[..m] + [bytes[m]];
    BitsOfConcat(bytes[..m], [bytes[m]]);
    OneByteBits(bytes[m]);
  }

  /** Any string of bytes, sent in any timing, adds exactly its bits to the log, and the byte
      counter counts modulo n. */
  lemma {:induction false} BytesArrive(h: Trace, n: nat, bursts: seq<Burst>, bytes: seq<Byte>)
    requires Consistent(h, n) && !h.rx.shifting && Spells(bursts, bytes)
    ensures var g := After(h, n, Clocks(bursts));
            && !g.rx.shifting && (bytes != [] ==> !g.rx.newWork) && g.log == h.log + BitsOf(bytes)
            && n * g.windows + g.rx.bytes == n * h.windows + h.rx.bytes + |bytes|
    decreases |bytes|
  {
    hide After, Clocks, BitsOf, Bits, Consistent, Carries, AllQuiet;
    if bytes == [] {
      NoClocks(h, n, bursts, bytes);
      assert h.log + [] == h.log;
    } else {
      var m := |bytes| - 1;
      var u, b := bursts[m], bytes[m];
      LastBurst(bursts, bytes);
      BytesArrive(h, n, bursts[..m], bytes[..m]);
      var g := After(h, n, Clocks(bursts[..m]));
      AfterConcat(h, n, Clocks(bursts[..m]), u.frame + u.pause);
      BurstArrives(g, n, u, b);
      NextMultiple(n, g.windows);
    }
  }

  lemma NextMultiple(n: nat, w: nat)
    ensures n * (w + 1) == n * w + n
  {
  }

  lemma CounterBelow(g: Trace, n: nat)
    requires Consistent(g, n)
    ensures g.rx.bytes < n
  {
  }

  lemma OneByteBits(b: Byte)
    ensures BitsOf([b]) == Bits(b, 8)
  {
    assert [b][1..] == [];
    assert BitsOf([]) == [];
  }

  /** A byte at one clock a bit: the start edge, eight samples, one more clock. */
  function Plain(b: Byte): seq<Line> {
    [Line(false, true, false)] + Shown(Bits(b, 8)) + [Line(true, true, false)]
  }

  function Shown(bits: seq<bool>): (xs: seq<Line>)
    ensures |xs| == |bits|
  {
    seq(|bits|, i requires 0 <= i < |bits| => Line(bits[i], true, true))
  }

  function Idle(n: nat): (xs: seq<Line>)
    ensures |xs| == n && AllQuiet(xs)
  {
    seq(n, _ => Line(true, true, false))
  }

  lemma {:induction false} ShownSamples(bits: seq<bool>)
    ensures Samples(Shown(bits)) == bits
  {
    if bits != [] {
      var n := |bits| - 1;
      ShownSamples(bits[..n]);
      assert Shown(bits)[..n] == Shown(bits[..n]);
      assert bits == bits[..n] + [bits[n]];
    }
  }

  lemma PlainCarries(b: Byte)
    ensures Carries(Plain(b), b)
  {
    hide Bits, Samples;
    var xs := Plain(b);
    ShownSamples(Bits(b, 8));
    assert xs[1..|xs| - 1] == Shown(Bits(b, 8));
  }

  /** Any bytes can be sent this way, each followed by one idle clock. */
  function PlainBursts(bytes: seq<Byte>): seq<Burst> {
    seq(|bytes|, i requires 0 <= i < |bytes| => Burst(Plain(bytes[i]), Idle(1)))
  }

  lemma PlainSpells(bytes: seq<Byte>)
    ensures Spells(PlainBursts(bytes), bytes)
  {
    hide Carries, AllQuiet, Plain;
    forall i | 0 <= i < |bytes|
      ensures Carries(Plain(bytes[i]), bytes[i])
    {
      PlainCarries(bytes[i]);
    }
  }

  /** With the byte counter at zero, the last byte of an item raises NewWork, and at that clock
      the shift register holds exactly the item. */
  lemma ItemPulse(h: Trace, n: nat, bursts: seq<Burst>, frame: seq<Line>, item: seq<Byte>)
    requires Consistent(h, n) && !h.rx.shifting && h.rx.bytes == 0 && |item| == n
    requires Spells(bursts, item[..n - 1]) && Carries(frame, item[n - 1])
    ensures var g := After(h, n, Clocks(bursts) + frame);
            g.rx.newWork && !g.rx.shifting && g.rx.work == BitsOf(item)
  {
    hide *;
    CounterBelow(h, n);
    var front := Clocks(bursts);
    var g := After(h, n, front);
    BytesArrive(h, n, bursts, item[..n - 1]);
    CounterBelow(g, n);
    SameQuotient(n, h.windows, n - 1, h.windows);
    CountedModulo(n, h.windows, g.windows, g.rx.bytes, n - 1);
    QuotientUnique(n - 1, n, 0, n - 1);
    AfterConcat(h, n, front, frame);
    ByteArrives(g, n, frame, item[n - 1]);
    assert item == item[..n - 1] + [item[n - 1]];
    BitsOfConcat(item[..n - 1], [item[n - 1]]);
    OneByteBits(item[n - 1]);
    WorkIsTail(h.log, BitsOf(item), After(h, n, front + frame), n);
  }

  lemma WorkIsTail(before: seq<bool>, bits: seq<bool>, g: Trace, n: nat)
    requires Consistent(g, n) && g.log == before + bits && |bits| == 8 * n
    ensures g.rx.work == bits
  {
    hide Window;
  }

  /** An item sent when the byte counter is at zero is latched exactly as sent. */
  lemma ItemLatched(h: Trace, n: nat, bursts: seq<Burst>, item: seq<Byte>)
    requires Consistent(h, n) && !h.rx.shifting && h.rx.bytes == 0
    requires |item| == n && Spells(bursts, item)
    ensures After(h, n, Clocks(bursts)).rx.held == BitsOf(item)
    ensures After(h, n, Clocks(bursts)).rx.bytes == 0
  {
    hide *;
    BytesArrive(h, n, bursts, item);
    var g := After(h, n, Clocks(bursts));
    CounterBelow(g, n);
    NextMultiple(n, h.windows);
    SameQuotient(n, g.windows, g.rx.bytes, h.windows + 1);
    HeldIsLastWindow(h, g, n, BitsOf(item));
  }

  lemma HeldIsLastWindow(h: Trace, g: Trace, n: nat, bits: seq<bool>)
    requires Consistent(h, n) && !h.rx.shifting && h.rx.bytes == 0 && |bits| == 8 * n
    requires Consistent(g, n) && !g.rx.newWork && g.log == h.log + bits && g.windows == h.windows + 1
    ensures g.rx.held == bits
  {
    NextMultiple(n, h.windows);
  }

  lemma SameQuotient(n: nat, w: nat, b: nat, j: nat)
    requires n > 0 && b < n
    ensures n * w + b == n * j ==> w == j && b == 0
  {
    if n * w + b == n * j {
      if w < j { MulMonotone(n, w + 1, j); }
      if j < w { MulMonotone(n, j, w); MulMonotone(n, j + 1, w); }
    }
  }

  // ---------------------------------------------------------------- the phase search

  /** Byte counter after `sent` more bytes. */
  function Counter(start: nat, sent: nat, n: nat): nat
    requires n > 0
  {
    (start + sent) % n
  }

  /** Stepping by n + 1 bytes a phase, the counter stands at zero in exactly one of n
      consecutive phases, wherever it started: the phase that makes up what was missing. */
  lemma PhaseSearch(n: nat, start: nat, phase: nat)
    requires n > 0 && start < n && phase < n
    ensures Counter(start, (n + 1) * phase, n) == 0 <==> phase == (if start == 0 then 0 else n - start)
  {
    assert start + (n + 1) * phase == n * phase + (start + phase);
    var t := start + phase;
    if t < n {
      QuotientUnique(n * phase + t, n, phase, t);
    } else {
      assert n * phase + t == n * (phase + 1) + (t - n);
      QuotientUnique(n * phase + t, n, phase + 1, t - n);
    }
  }

  lemma CountedModulo(n: nat, w0: nat, w1: nat, b: nat, total: nat)
    requires n > 0 && b < n && n * w1 + b == n * w0 + total
    ensures b == total % n
  {
    if w1 < w0 { MulMonotone(n, w1 + 1, w0); NextMultiple(n, w1); }
    var k := w1 - w0;
    assert n * w1 == n * w0 + n * k;
    QuotientUnique(total, n, k, b);
  }

  /** The counter of PhaseSearch is the receiver's. */
  lemma CounterIsReceivers(h: Trace, n: nat, bursts: seq<Burst>, bytes: seq<Byte>)
    requires Consistent(h, n) && !h.rx.shifting && Spells(bursts, bytes)
    ensures After(h, n, Clocks(bursts)).rx.bytes == Counter(h.rx.bytes, |bytes|, n)
  {
    hide After, Clocks, BitsOf, Spells, Consistent;
    BytesArrive(h, n, bursts, bytes);
    var g := After(h, n, Clocks(bursts));
    CounterBelow(g, n);
    CountedModulo(n, h.windows, g.windows, g.rx.bytes, h.rx.bytes + |bytes|);
  }
}
