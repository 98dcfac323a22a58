/** Finding and keeping frame boundaries on the host (miner/miner.c). The serial input is the
    sequence of polls the loop makes; each finds the receive buffer empty or takes one byte. */
module FrameSync {
  import opened Words
  import A = Arbiter
  import R = ResultPath

  const FRAME: nat := R.FRAME
  const NSYNC: nat := 512
  const WANT: nat := 8 * FRAME

  /** Empty polls of 200 us that make up the 3000 us gap. */
  const QUIET: nat := 15

  datatype Poll = Empty | Got(b: Byte)

  /** Bytes one poll takes. */
  function Length(p: Poll): nat { if p.Got? then 1 else 0 }

  /** Bytes a stretch of polls takes in. */
  function BytesIn(line: seq<Poll>): seq<Byte> {
    if line == [] then []
    else (if line[0].Got? then [line[0].b] else []) + BytesIn(line[1..])
  }

  lemma BytesInFirst(line: seq<Poll>)
    requires line != []
    ensures BytesIn(line) == if line[0].Got? then [line[0].b] + BytesIn(line[1..]) else BytesIn(line[1..])
  {
  }

  lemma {:induction false} BytesInSplit(line: seq<Poll>, i: nat)
    requires i <= |line|
    ensures BytesIn(line) == BytesIn(line[..i]) + BytesIn(line[i..])
  {
    if i > 0 {
      assert line[1..][..i - 1] == line[..i][1..] && line[1..][i - 1..] == line[i..];
      BytesInSplit(line[1..], i - 1);
    }
  }

  // ---------------------------------------------------------------- collecting

  /** How the collection loop ends: on a gap, on a silent line, or with neither. */
  datatype Collected = Gap(bytes: seq<Byte>, rest: seq<Poll>) | Silent(rest: seq<Poll>) | Busy(bytes: seq<Byte>, rest: seq<Poll>)
  {
    function Taken(): seq<Byte> { if Silent? then [] else bytes }
  }

  /** The loop from a state with bytes already read and idle empty polls behind it; budget is
      the number of polls before the deadline. */
  function Collect(line: seq<Poll>, budget: nat, got: seq<Byte>, idle: nat, quietOk: bool): Collected
    requires |got| < NSYNC
    decreases |line|
  {
    if budget == 0 || line == [] then Busy(got, line)
    else if line[0].Got? then
      var more := got + [line[0].b];
      if |more| == NSYNC then Busy(more, line[1..]) else Collect(line[1..], budget - 1, more, 0, quietOk)
    else if idle + 1 >= QUIET && got != [] then Gap(got, line[1..])
    else if idle + 1 >= QUIET && quietOk then Silent(line[1..])
    else Collect(line[1..], budget - 1, got, idle + 1, quietOk)
  }

  /** No byte is lost: those handed over and those still unread are those that came in. */
  lemma {:induction false} CollectConserves(line: seq<Poll>, budget: nat, got: seq<Byte>, idle: nat, quietOk: bool)
    requires |got| < NSYNC
    ensures var c := Collect(line, budget, got, idle, quietOk);
            && c.Taken() + BytesIn(c.rest) == got + BytesIn(line)
            && got <= c.Taken()
    decreases |line|
  {
    if budget == 0 || line == [] {
    } else if line[0].Got? {
      var more := got + [line[0].b];
      if |more| < NSYNC {
        CollectConserves(line[1..], budget - 1, more, 0, quietOk);
      }
      assert got + ([line[0].b] + BytesIn(line[1..])) == more + BytesIn(line[1..]);
    } else {
      assert [] + BytesIn(line[1..]) == BytesIn(line[1..]);
      if idle + 1 >= QUIET && (got != [] || quietOk) {
      } else {
        CollectConserves(line[1..], budget - 1, got, idle + 1, quietOk);
      }
    }
  }

  /** A stretch without a gap, after idle empty polls: its last byte is followed by fewer than
      QUIET empty polls, and so is every other. */
  predicate Dense(line: seq<Poll>, idle: nat) {
    line == [] || if line[0].Got? then Dense(line[1..], 0) else idle + 1 < QUIET && Dense(line[1..], idle + 1)
  }

  /** Empty polls at the end of a stretch. */
  function Trailing(line: seq<Poll>, idle: nat): nat {
    if line == [] then idle else Trailing(line[1..], if line[0].Got? then 0 else idle + 1)
  }

  /** A dense stretch is read through. */
  lemma {:induction false} CollectDense(x: seq<Poll>, y: seq<Poll>, budget: nat, got: seq<Byte>, idle: nat, quietOk: bool)
    requires Dense(x, idle) && |got| + |BytesIn(x)| < NSYNC && |x| <= budget
    ensures Collect(x + y, budget, got, idle, quietOk)
         == Collect(y, budget - |x|, got + BytesIn(x), Trailing(x, idle), quietOk)
    decreases |x|
  {
    if x == [] {
      assert x + y == y && got + [] == got;
    } else {
      assert (x + y)[1..] == x[1..] + y;
      if x[0].Got? {
        var more := got + [x[0].b];
        CollectDense(x[1..], y, budget - 1, more, 0, quietOk);
        assert more + BytesIn(x[1..]) == got + BytesIn(x);
      } else {
        assert BytesIn(x) == BytesIn(x[1..]);
        CollectDense(x[1..], y, budget - 1, got, idle + 1, quietOk);
      }
    }
  }

  function Pause(n: nat): seq<Poll> { seq(n, _ => Empty) }

  lemma {:induction false} CollectPause(n: nat, y: seq<Poll>, budget: nat, got: seq<Byte>, idle: nat, quietOk: bool)
    requires 0 < |got| < NSYNC && idle + n == QUIET && n > 0 && n <= budget
    ensures Collect(Pause(n) + y, budget, got, idle, quietOk) == Gap(got, y)
    decreases n
  {
    assert (Pause(n) + y)[1..] == Pause(n - 1) + y;
    assert (Pause(n) + y)[0] == Empty;
    if n > 1 {
      CollectPause(n - 1, y, budget - 1, got, idle + 1, quietOk);
    } else {
      assert Pause(0) + y == y;
    }
  }

  /** The silent exit reads nothing at all. */
  lemma {:induction false} SilentReadsNothing(line: seq<Poll>, budget: nat, idle: nat)
    requires Collect(line, budget, [], idle, true).Silent?
    ensures BytesIn(Collect(line, budget, [], idle, true).rest) == BytesIn(line)
  {
    CollectConserves(line, budget, [], idle, true);
    var rest := Collect(line, budget, [], idle, true).rest;
    assert [] + BytesIn(rest) == BytesIn(rest);
    assert [] + BytesIn(line) == BytesIn(line);
  }

  lemma {:induction false} PauseIsEmpty(n: nat)
    ensures BytesIn(Pause(n)) == []
  {
    if n > 0 {
      assert Pause(n)[1..] == Pause(n - 1);
      PauseIsEmpty(n - 1);
    }
  }

  /** The silent exit is taken on nothing but empty polls. */
  lemma {:induction false} SilentMeans(line: seq<Poll>, budget: nat, idle: nat)
    requires idle < QUIET && Collect(line, budget, [], idle, true).Silent?
    ensures var m := QUIET - idle;
            m <= |line| && line[..m] == Pause(m) && Collect(line, budget, [], idle, true).rest == line[m..]
    decreases line
  {
    if line[0].Got? {
      assert [] + [line[0].b] == [line[0].b];
      NeverSilent(line[1..], budget - 1, [line[0].b], 0);
    } else if idle + 1 == QUIET {
      assert line[..1] == Pause(1);
    } else {
      SilentMeans(line[1..], budget - 1, idle + 1);
      var m := QUIET - idle;
      assert line[..m] == [line[0]] + line[1..][..m - 1] == Pause(m);
      assert line[1..][m - 1..] == line[m..];
    }
  }

  lemma {:induction false} NeverSilent(line: seq<Poll>, budget: nat, got: seq<Byte>, idle: nat)
    requires 0 < |got| < NSYNC
    ensures !Collect(line, budget, got, idle, true).Silent?
    decreases line
  {
    if budget == 0 || line == [] {
    } else if line[0].Got? {
      if |got| + 1 < NSYNC { NeverSilent(line[1..], budget - 1, got + [line[0].b], 0); }
    } else if idle + 1 < QUIET {
      NeverSilent(line[1..], budget - 1, got, idle + 1);
    }
  }

  // ---------------------------------------------------------------- the flag histogram

  /** Flag bytes at positions congruent to res modulo the frame length. */
  function Count(b: seq<Byte>, res: nat): nat {
    if b == [] then 0
    else Count(b[..|b| - 1], res) + if (|b| - 1) % FRAME == res && b[|b| - 1] == R.FLAG then 1 else 0
  }

  /** The first of the largest among the first n residues. */
  function Best(b: seq<Byte>, n: nat): (best: nat)
    requires n > 0
    ensures best < n
  {
    if n == 1 then 0
    else
      var before := Best(b, n - 1);
      if Count(b, n - 1) > Count(b, before) then n - 1 else before
  }

  ghost predicate FirstMaximum(b: seq<Byte>, n: nat, r: nat) {
    && r < n
    && (forall i :: 0 <= i < r ==> Count(b, i) < Count(b, r))
    && forall i :: r < i < n ==> Count(b, i) <= Count(b, r)
  }

  lemma {:induction false} BestIsFirstMaximum(b: seq<Byte>, n: nat)
    requires n > 0
    ensures FirstMaximum(b, n, Best(b, n))
  {
    hide Count;
    if n > 1 { BestIsFirstMaximum(b, n - 1); }
  }

  lemma OneFirstMaximum(b: seq<Byte>, n: nat, r: nat, s: nat)
    requires FirstMaximum(b, n, r) && FirstMaximum(b, n, s)
    ensures r == s
  {
    hide Count;
    var x, y := Count(b, r), Count(b, s);
    assert r < s ==> y <= x;
    assert s < r ==> x <= y;
  }

  /** Take up to k bytes. */
  function Take(line: seq<Poll>, k: nat): (r: (seq<Byte>, seq<Poll>))
    ensures |r.0| <= k
  {
    if k == 0 || line == [] then ([], line)
    else if line[0].Got? then
      var t := Take(line[1..], k - 1);
      ([line[0].b] + t.0, t.1)
    else Take(line[1..], k)
  }

  lemma {:induction false} TakeIsPrefix(line: seq<Poll>, k: nat)
    ensures var t := Take(line, k);
            && BytesIn(line) == t.0 + BytesIn(t.1)
            && (k <= |BytesIn(line)| ==> |t.0| == k)
  {
    if k == 0 || line == [] {
    } else if line[0].Got? {
      TakeIsPrefix(line[1..], k - 1);
    } else {
      TakeIsPrefix(line[1..], k);
      assert [] + BytesIn(line[1..]) == BytesIn(line[1..]);
    }
  }

  // ---------------------------------------------------------------- frame_sync

  /** Overrun: the collection handed back is longer than the caller's buffer. The C code copies
      it without a test, so there the outcome is undefined. */
  datatype Outcome = Failed(rest: seq<Poll>) | Synced(bytes: seq<Byte>, rest: seq<Poll>) | Overrun(rest: seq<Poll>)

  /** Bytes to discard so that the next one stands at the given residue. */
  function Skip(residue: nat, got: nat): nat
    requires residue < FRAME
  {
    (residue - got % FRAME + FRAME) % FRAME
  }

  /** The dense path, for what was collected and what is still to come. */
  function Lock(bytes: seq<Byte>, rest: seq<Poll>): Outcome {
    if |bytes| < 4 * FRAME then Failed(rest)
    else
      var best := Best(bytes, FRAME);
      if 2 * Count(bytes, best) < |bytes| / FRAME then Failed(rest)
      else
        var skipped := Take(rest, Skip(best, |bytes|));
        if |skipped.0| < Skip(best, |bytes|) then Failed(skipped.1)
        else
          var frames := Take(skipped.1, WANT);
          Synced(frames.0, frames.1)
  }

  /** frame_sync with a caller's buffer of capacity bytes. */
  function Sync(line: seq<Poll>, budget: nat, quietOk: bool, capacity: nat): Outcome {
    match Collect(line, budget, [], 0, quietOk)
    case Gap(bytes, rest) => if |bytes| <= capacity then Synced(bytes, rest) else Overrun(rest)
    case Silent(rest) => Synced([], rest)
    case Busy(bytes, rest) => Lock(bytes, rest)
  }

  /** The skip loop and the read loop: poll until k bytes have come or no poll is left. */
  method ReadUpTo(line: seq<Poll>, k: nat) returns (out: seq<Byte>, rest: seq<Poll>)
    ensures (out, rest) == Take(line, k)
  {
    ghost var answer := Take(line, k);
    out, rest := [], line;
    assert [] + answer.0 == answer.0;
    while |out| < k && rest != []
      invariant |out| <= k
      invariant var t := Take(rest, k - |out|); answer == (out + t.0, t.1)
      decreases |rest|
    {
      if rest[0].Got? {
        ghost var t := Take(rest[1..], k - |out| - 1);
        assert out + ([rest[0].b] + t.0) == out + [rest[0].b] + t.0;
        out := out + [rest[0].b];
      }
      rest := rest[1..];
    }
    assert out + [] == out;
  }

  /** The flag histogram and its first largest bucket. */
  method Dominant(buf: seq<Byte>) returns (best: nat, count: nat)
    ensures best == Best(buf, FRAME) && count == Count(buf, best)
  {
    var bucket := new nat[FRAME](_ => 0);
    for i := 0 to |buf|
      invariant forall r :: 0 <= r < FRAME ==> bucket[r] == Count(buf[..i], r)
    {
      assert buf[..i + 1][..i] == buf[..i];
      if buf[i] == R.FLAG {
        bucket[i % FRAME] := bucket[i % FRAME] + 1;
      }
    }
    assert buf[..|buf|] == buf;
    best := 0;
    for i := 1 to FRAME
      invariant best == Best(buf, i)
    {
      if bucket[i] > bucket[best] { best := i; }
    }
    count := bucket[best];
  }

  /** frame_sync, handing its bytes back in the caller's buffer, which both callers make long
      enough for the eight frames of the dense path. */
  method FrameSyncOn(line: seq<Poll>, budget: nat, quietOk: bool, out: array<Byte>) returns (r: Outcome)
    requires out.Length >= WANT
    modifies out
    ensures r == Sync(line, budget, quietOk, out.Length)
    ensures r.Synced? ==> |r.bytes| <= out.Length && out[..|r.bytes|] == r.bytes
  {
    hide Best, Count, Take;
    var buf := new Byte[NSYNC];
    var got: nat, idle: nat := 0, 0;
    var rest, left: nat := line, budget;
    while left > 0 && rest != [] && got < NSYNC
      invariant got <= NSYNC && left <= budget
      invariant got < NSYNC ==>
        Collect(line, budget, [], 0, quietOk) == Collect(rest, left, buf[..got], idle, quietOk)
      invariant got == NSYNC ==> Collect(line, budget, [], 0, quietOk) == Busy(buf[..got], rest)
      decreases left
      modifies buf, out
    {
      left := left - 1;
      if rest[0].Got? {
        idle := 0;
        ghost var before := buf[..got];
        buf[got] := rest[0].b;
        assert buf[..got + 1] == before + [rest[0].b];
        got := got + 1;
        rest := rest[1..];
      } else {
        rest := rest[1..];
        idle := idle + 1;
        if idle >= QUIET && got > 0 {
          if got > out.Length {
            return Overrun(rest);
          }
          HandOver(buf[..got], out);
          return Synced(buf[..got], rest);
        }
        if idle >= QUIET && got == 0 && quietOk {
          return Synced([], rest);
        }
      }
    }
    assert Collect(line, budget, [], 0, quietOk) == Busy(buf[..got], rest);
    if got < 4 * FRAME {
      return Failed(rest);
    }
    var best, count := Dominant(buf[..got]);
    if count * 2 < got / FRAME {
      return Failed(rest);
    }
    var skip := (best - got % FRAME + FRAME) % FRAME;
    var skipped, after := ReadUpTo(rest, skip);
    if |skipped| < skip {
      return Failed(after);
    }
    var frames, end := ReadUpTo(after, WANT);
    HandOver(frames, out);
    r := Synced(frames, end);
  }

  method HandOver(bytes: seq<Byte>, out: array<Byte>)
    requires |bytes| <= out.Length
    modifies out
    ensures out[..|bytes|] == bytes
  {
    for i := 0 to |bytes|
      invariant out[..i] == bytes[..i]
    {
      out[i] := bytes[i];
    }
  }

  // ---------------------------------------------------------------- the caller's buffer

  lemma {:induction false} GapFits(line: seq<Poll>, budget: nat, got: seq<Byte>, idle: nat, quietOk: bool)
    requires |got| < NSYNC
    ensures var c := Collect(line, budget, got, idle, quietOk);
            c.Gap? ==> 0 < |c.bytes| < NSYNC
    decreases |line|
  {
    if budget == 0 || line == [] {
    } else if line[0].Got? {
      if |got| + 1 < NSYNC { GapFits(line[1..], budget - 1, got + [line[0].b], 0, quietOk); }
    } else if idle + 1 < QUIET || (got == [] && !quietOk) {
      GapFits(line[1..], budget - 1, got, idle + 1, quietOk);
    }
  }

  // ---------------------------------------------------------------- the gap path

  /** A burst that stops on a byte and is followed by the gap: everything in it is handed over
      and nothing behind it is touched, if and only if it fits the caller's buffer. */
  lemma GapPath(burst: seq<Poll>, more: seq<Poll>, budget: nat, quietOk: bool, capacity: nat)
    requires Dense(burst, 0) && burst != [] && burst[|burst| - 1].Got? && |BytesIn(burst)| < NSYNC
    requires |burst| + QUIET <= budget
    ensures Sync(burst + Pause(QUIET) + more, budget, quietOk, capacity)
         == if |BytesIn(burst)| <= capacity then Synced(BytesIn(burst), more) else Overrun(more)
  {
    hide Collect, BytesIn, Dense;
    CollectBurst(burst, more, budget, quietOk);
  }

  lemma CollectBurst(burst: seq<Poll>, more: seq<Poll>, budget: nat, quietOk: bool)
    requires Dense(burst, 0) && burst != [] && burst[|burst| - 1].Got? && |BytesIn(burst)| < NSYNC
    requires |burst| + QUIET <= budget
    ensures Collect(burst + Pause(QUIET) + more, budget, [], 0, quietOk) == Gap(BytesIn(burst), more)
  {
    hide Collect, BytesIn, Dense;
    var y := Pause(QUIET) + more;
    assert burst + Pause(QUIET) + more == burst + y;
    CollectDense(burst, y, budget, [], 0, quietOk);
    EndsOnByte(burst, 0);
    assert [] + BytesIn(burst) == BytesIn(burst);
    CollectPause(QUIET, more, budget - |burst|, BytesIn(burst), 0, quietOk);
  }

  /** Polls k to n are a burst: it ends on a byte, has no gap inside, and the gap follows in time.
      Empty polls in front of it are skipped when silence does not count, else they belong to it. */
  predicate BurstThenGap(line: seq<Poll>, budget: nat, quietOk: bool, k: nat, n: nat) {
    && k < n && n + QUIET <= |line| && n + QUIET <= budget
    && line[n - 1].Got? && Dense(line[k..n], 0) && line[n..n + QUIET] == Pause(QUIET)
    && |BytesIn(line[k..n])| < NSYNC
    && (if quietOk then k == 0 else line[..k] == Pause(k) && line[k].Got?)
  }

  /** The gap path is taken exactly on a burst of fewer than 512 bytes followed by the gap. */
  lemma GapIffBurst(line: seq<Poll>, budget: nat, quietOk: bool)
    ensures Collect(line, budget, [], 0, quietOk).Gap?
       <==> exists k: nat, n: nat :: BurstThenGap(line, budget, quietOk, k, n)
    ensures forall k: nat, n: nat :: BurstThenGap(line, budget, quietOk, k, n) ==>
              Collect(line, budget, [], 0, quietOk) == Gap(BytesIn(line[k..n]), line[n + QUIET..])
  {
    hide Collect, BytesIn, Dense, Pause, Finishes;
    forall k: nat, n: nat | BurstThenGap(line, budget, quietOk, k, n)
      ensures Collect(line, budget, [], 0, quietOk) == Gap(BytesIn(line[k..n]), line[n + QUIET..])
    {
      if !quietOk { SkipsLead(line, k, budget); }
      assert line[k..] == line[k..n] + line[n..n + QUIET] + line[n + QUIET..];
      CollectBurst(line[k..n], line[n + QUIET..], budget - k, quietOk);
    }
    if Collect(line, budget, [], 0, quietOk).Gap? {
      if quietOk {
        var n := BurstBefore(line, budget, [], 0, true);
        BurstAtOnce(line, budget, true, n);
      } else {
        var k, n := LeadBefore(line, budget, 0);
        assert BurstThenGap(line, budget, quietOk, k, n);
      }
    }
  }

  /** Where silence does not count, empty polls before the first byte change nothing. */
  lemma SkipsLead(line: seq<Poll>, k: nat, budget: nat)
    requires k < |line| && k < budget && line[..k] == Pause(k) && line[k].Got?
    ensures Collect(line, budget, [], 0, false) == Collect(line[k..], budget - k, [], 0, false)
  {
    SkipsEmpty(line, k, budget, 0);
  }

  lemma {:induction false} SkipsEmpty(line: seq<Poll>, k: nat, budget: nat, idle: nat)
    requires k <= |line| && k <= budget && line[..k] == Pause(k)
    ensures Collect(line, budget, [], idle, false) == Collect(line[k..], budget - k, [], idle + k, false)
    decreases k
  {
    if k == 0 {
      assert line[0..] == line;
    } else {
      assert line[..k][0] == Empty;
      assert line[1..][..k - 1] == line[..k][1..] == Pause(k - 1);
      assert line[1..][k - 1..] == line[k..];
      SkipsEmpty(line[1..], k - 1, budget - 1, idle + 1);
    }
  }

  /** The same from a state with some bytes read and idle empty polls behind: the polls up to n are
      dense and end on a byte, and what the gap still needs follows. */
  predicate Finishes(line: seq<Poll>, budget: nat, used: nat, idle: nat, n: nat)
    requires idle < QUIET
  {
    var m := if n == 0 then QUIET - idle else QUIET;
    && n + m <= |line| && n + m <= budget && line[n..n + m] == Pause(m)
    && (n > 0 ==> line[n - 1].Got?) && Dense(line[..n], idle) && used + |BytesIn(line[..n])| < NSYNC
  }

  lemma TailSlice(line: seq<Poll>, i: nat, j: nat)
    requires i <= j < |line|
    ensures line[i + 1..j + 1] == line[1..][i..j]
  {
    var x, y := line[i + 1..j + 1], line[1..][i..j];
    forall e | 0 <= e < j - i
      ensures x[e] == y[e]
    {
    }
    assert x == y;
  }

  lemma FinishesByte(line: seq<Poll>, budget: nat, used: nat, idle: nat, n: nat)
    requires idle < QUIET && line != [] && line[0].Got? && budget > 0
    requires Finishes(line[1..], budget - 1, used + 1, 0, n)
    ensures Finishes(line, budget, used, idle, n + 1)
  {
    hide Pause;
    assert line[..n + 1][1..] == line[1..][..n];
    TailSlice(line, n, n + QUIET);
  }

  lemma FinishesEmpty(line: seq<Poll>, budget: nat, used: nat, idle: nat, n: nat)
    requires idle + 1 < QUIET && line != [] && line[0].Empty? && budget > 0
    requires Finishes(line[1..], budget - 1, used, idle + 1, n)
    ensures Finishes(line, budget, used, idle, if n == 0 then 0 else n + 1)
  {
    if n == 0 {
      var m := QUIET - idle;
      assert line[0..m] == [line[0]] + line[1..][0..m - 1] == Pause(m);
      assert line[..0] == [];
    } else {
      assert line[..n + 1][1..] == line[1..][..n];
      TailSlice(line, n, n + QUIET);
    }
  }

  lemma GapNow(line: seq<Poll>, budget: nat, used: nat)
    requires line != [] && line[0].Empty? && budget > 0 && used < NSYNC
    ensures Finishes(line, budget, used, QUIET - 1, 0)
  {
    assert line[0..1] == Pause(1);
    assert line[..0] == [];
  }

  /** Any gap collection comes from a burst. */
  lemma {:induction false} BurstBefore(line: seq<Poll>, budget: nat, got: seq<Byte>, idle: nat, quietOk: bool)
      returns (n: nat)
    requires |got| < NSYNC && idle < QUIET && (got != [] || quietOk)
    requires Collect(line, budget, got, idle, quietOk).Gap?
    ensures Finishes(line, budget, |got|, idle, n) && (n == 0 ==> got != [])
    decreases |line|
  {
    hide Finishes;
    if line[0].Got? {
      n := BurstBefore(line[1..], budget - 1, got + [line[0].b], 0, quietOk);
      FinishesByte(line, budget, |got|, idle, n);
      n := n + 1;
    } else if idle + 1 == QUIET {
      n := 0;
      GapNow(line, budget, |got|);
    } else {
      n := BurstBefore(line[1..], budget - 1, got, idle + 1, quietOk);
      FinishesEmpty(line, budget, |got|, idle, n);
      n := if n == 0 then 0 else n + 1;
    }
  }

  lemma BurstAtOnce(line: seq<Poll>, budget: nat, quietOk: bool, n: nat)
    requires Finishes(line, budget, 0, 0, n) && n > 0 && (quietOk || line[0].Got?)
    ensures BurstThenGap(line, budget, quietOk, 0, n)
  {
    hide Dense, BytesIn;
    assert line[0..n] == line[..n];
    assert line[..0] == Pause(0);
  }

  lemma {:induction false} LeadBefore(line: seq<Poll>, budget: nat, idle: nat) returns (k: nat, n: nat)
    requires Collect(line, budget, [], idle, false).Gap?
    ensures BurstThenGap(line, budget, false, k, n)
    decreases |line|
  {
    hide BurstThenGap, Finishes;
    if line[0].Got? {
      assert [] + [line[0].b] == [line[0].b];
      n := BurstBefore(line[1..], budget - 1, [line[0].b], 0, false);
      FinishesByte(line, budget, 0, 0, n);
      k, n := 0, n + 1;
      BurstAtOnce(line, budget, false, n);
    } else {
      k, n := LeadBefore(line[1..], budget - 1, idle + 1);
      BurstLater(line, budget, k, n);
      k, n := k + 1, n + 1;
    }
  }

  lemma BurstLater(line: seq<Poll>, budget: nat, k: nat, n: nat)
    requires line != [] && line[0].Empty? && budget > 0 && BurstThenGap(line[1..], budget - 1, false, k, n)
    ensures BurstThenGap(line, budget, false, k + 1, n + 1)
  {
    hide Dense, BytesIn;
    assert line[..k + 1] == [line[0]] + line[1..][..k] == Pause(k + 1);
    TailSlice(line, k, n);
    TailSlice(line, n, n + QUIET);
  }

  /** A burst the caller's buffer cannot hold. */
  predicate LongBurst(line: seq<Poll>, budget: nat, quietOk: bool, capacity: nat, k: nat, n: nat) {
    BurstThenGap(line, budget, quietOk, k, n) && |BytesIn(line[k..n])| > capacity
  }

  /** Exactly when the buffer is overrun: on a burst longer than it, up to 511 bytes, followed by the
      gap. With room for 511 bytes, as in the self-test, that cannot happen. */
  lemma OverrunIff(line: seq<Poll>, budget: nat, quietOk: bool, capacity: nat)
    ensures Sync(line, budget, quietOk, capacity).Overrun?
       <==> exists k: nat, n: nat :: LongBurst(line, budget, quietOk, capacity, k, n)
    ensures capacity >= NSYNC - 1 ==> !Sync(line, budget, quietOk, capacity).Overrun?
  {
    hide Collect, Count, Best, Take, Skip, BytesIn, BurstThenGap;
    GapFits(line, budget, [], 0, quietOk);
    GapIffBurst(line, budget, quietOk);
    if Sync(line, budget, quietOk, capacity).Overrun? {
      var k: nat, n: nat :| BurstThenGap(line, budget, quietOk, k, n);
      InOrder(line, budget, quietOk, k, n);
      assert LongBurst(line, budget, quietOk, capacity, k, n);
    }
  }

  lemma InOrder(line: seq<Poll>, budget: nat, quietOk: bool, k: nat, n: nat)
    requires BurstThenGap(line, budget, quietOk, k, n)
    ensures k < n < n + QUIET <= |line|
  {
  }

  /** Bytes back to back. */
  function Polls(b: seq<Byte>): (x: seq<Poll>)
    ensures |x| == |b|
  {
    if b == [] then [] else [Got(b[0])] + Polls(b[1..])
  }

  lemma {:induction false} PollsAreDense(b: seq<Byte>)
    ensures Dense(Polls(b), 0) && BytesIn(Polls(b)) == b
    ensures b != [] ==> Polls(b)[|b| - 1].Got?
  {
    if b != [] {
      PollsAreDense(b[1..]);
      assert Polls(b)[1..] == Polls(b[1..]);
    }
  }

  /** The mining loop's buffer holds eight frames. Twelve of them back to back, and a gap,
      overrun it. */
  lemma TwelveFramesOverrun(ps: seq<A.Pair>, more: seq<Poll>, budget: nat)
    requires |ps| == 12 && budget >= 12 * FRAME + QUIET
    ensures Sync(Polls(R.Frames(ps)) + Pause(QUIET) + more, budget, true, WANT) == Overrun(more)
  {
    hide Dense, BytesIn, Sync, Polls, R.Frames;
    var b := R.Frames(ps);
    PollsAreDense(b);
    GapPath(Polls(b), more, budget, true, WANT);
  }

  lemma {:induction false} EndsOnByte(x: seq<Poll>, idle: nat)
    requires x != [] && x[|x| - 1].Got?
    ensures Trailing(x, idle) == 0 && BytesIn(x) != []
  {
    if |x| > 1 {
      EndsOnByte(x[1..], if x[0].Got? then 0 else idle + 1);
    } else {
      assert x[1..] == [];
      assert Trailing([], 0) == 0;
    }
  }

  // ---------------------------------------------------------------- the dense path

  /** Every position congruent to r carries the flag: what a framed stream looks like when its
      first boundary is at r. */
  predicate Flagged(b: seq<Byte>, r: nat) {
    forall i :: 0 <= i < |b| && i % FRAME == r ==> b[i] == R.FLAG
  }

  /** Positions below n congruent to r. */
  lemma {:induction false} FlagsCounted(b: seq<Byte>, r: nat)
    requires r < FRAME && Flagged(b, r)
    ensures Count(b, r) == (|b| + FRAME - 1 - r) / FRAME
  {
    if b != [] {
      var n := |b| - 1;
      FlagsCounted(b[..n], r);
      NextPosition(n, r);
      assert n % FRAME == r ==> b[n] == R.FLAG;
    }
  }

  lemma NextPosition(n: nat, r: nat)
    requires r < FRAME
    ensures (n + FRAME - r) / FRAME == (n + FRAME - 1 - r) / FRAME + if n % FRAME == r then 1 else 0
  {
  }

  /** A framed stream never fails the dominance test. */
  lemma FramedDominates(b: seq<Byte>, r: nat)
    requires r < FRAME && Flagged(b, r)
    ensures 2 * Count(b, Best(b, FRAME)) >= |b| / FRAME
  {
    hide Count, Best, Flagged;
    FlagsCounted(b, r);
    BestIsFirstMaximum(b, FRAME);
  }

  lemma SkipLands(residue: nat, got: nat, r: nat)
    requires residue < FRAME && r < FRAME
    ensures (got + Skip(residue, got)) % FRAME == residue
  {
  }

  /** A whole stream on the wire: the tail of a frame already under way, then frames. */
  function Stream(partial: seq<Byte>, ps: seq<A.Pair>): seq<Byte> {
    partial + R.Frames(ps)
  }

  lemma StreamFlagged(partial: seq<Byte>, ps: seq<A.Pair>, b: seq<Byte>)
    requires |partial| < FRAME && b <= Stream(partial, ps)
    ensures Flagged(b, |partial|)
  {
    hide R.Frames, R.FrameBytes;
    forall i | 0 <= i < |b| && i % FRAME == |partial|
      ensures b[i] == R.FLAG
    {
      var q := i / FRAME;
      R.FrameAt(ps, q);
      var at := FRAME * q;
      assert b[i] == Stream(partial, ps)[i] == R.Frames(ps)[at];
      assert R.Frames(ps)[at] == R.Frames(ps)[at..at + FRAME][0];
      FrameStarts(ps[q]);
    }
  }

  lemma FrameStarts(p: A.Pair)
    ensures R.FrameBytes(p)[0] == R.FLAG
  {
  }

  /** Where the bytes handed back by the dense path sit in the stream. */
  function LockAt(b: seq<Byte>): nat { |b| + Skip(Best(b, FRAME), |b|) }

  /** The dense path on a framed stream: it never gives up, loses no byte after the skip, and
      lands on a frame boundary if and only if the true residue is the first of the most
      flagged ones. */
  lemma DensePath(b: seq<Byte>, rest: seq<Poll>, partial: seq<Byte>, ps: seq<A.Pair>)
    requires |partial| < FRAME && b + BytesIn(rest) == Stream(partial, ps)
    requires |b| >= 4 * FRAME && LockAt(b) + WANT <= |Stream(partial, ps)|
    ensures var o := Lock(b, rest);
            && o.Synced? && o.bytes == Stream(partial, ps)[LockAt(b)..LockAt(b) + WANT]
            && BytesIn(o.rest) == Stream(partial, ps)[LockAt(b) + WANT..]
    ensures LockAt(b) % FRAME == |partial| <==> FirstMaximum(b, FRAME, |partial|)
  {
    hide Count, Best, BytesIn, Take, Stream, Flagged, FirstMaximum;
    var s := Stream(partial, ps);
    StreamFlagged(partial, ps, b);
    FramedDominates(b, |partial|);
    var best := Best(b, FRAME);
    var k := Skip(best, |b|);
    TakeIsPrefix(rest, k);
    var t := Take(rest, k);
    TakeIsPrefix(t.1, WANT);
    assert s == b + t.0 + BytesIn(t.1);
    SkipLands(best, |b|, |partial|);
    BestIsFirstMaximum(b, FRAME);
    if FirstMaximum(b, FRAME, |partial|) { OneFirstMaximum(b, FRAME, |partial|, best); }
  }

  /** On a boundary, the eight frames handed back are eight of the frames sent. */
  lemma WholeFrames(partial: seq<Byte>, ps: seq<A.Pair>, at: nat)
    requires |partial| < FRAME && at % FRAME == |partial| && at + WANT <= |Stream(partial, ps)|
    ensures var q := at / FRAME;
            && q + 8 <= |ps|
            && Stream(partial, ps)[at..at + WANT] == R.Frames(ps[q..q + 8])
            && Stream(partial, ps)[at + WANT..] == R.Frames(ps[q + 8..])
  {
    hide R.Frames;
    var q := at / FRAME;
    var f := R.Frames(ps);
    assert ps == ps[..q] + ps[q..];
    assert ps[q..] == ps[q..q + 8] + ps[q + 8..];
    FramesConcat(ps[..q], ps[q..]);
    FramesConcat(ps[q..q + 8], ps[q + 8..]);
  }

  lemma {:induction false} FramesConcat(x: seq<A.Pair>, y: seq<A.Pair>)
    ensures R.Frames(x + y) == R.Frames(x) + R.Frames(y)
  {
    hide R.FrameBytes;
    if y == [] {
      assert x + y == x;
    } else {
      assert (x + y)[..|x| + |y| - 1] == x + y[..|y| - 1];
      FramesConcat(x, y[..|y| - 1]);
    }
  }

  // ---------------------------------------------------------------- the assembler

  /** The mining loop's framing state: the bytes of the frame being put together, the alignment
      flag, the run of unparseable frames, and the candidates handed to the work source. */
  datatype Asm = Asm(frame: seq<Byte>, synced: bool, badRun: nat, ok: nat, bad: nat, verified: nat,
                     candidates: seq<A.Pair>)

  /** What the loop takes from outside: the correction of reported nonces for pipeline latency,
      and whether the work source finds that a candidate's word reproduces. */
  datatype Host = Host(offset: U64, reproduces: A.Pair -> bool)

  /** One byte. A frame whose candidate does not reproduce counts as bad too, but not towards
      the run that gives up alignment. */
  function Fed(a: Asm, x: Byte, host: Host): Asm
    requires |a.frame| < FRAME
  {
    var f := a.frame + [x];
    if |f| < FRAME then a.(frame := f) else Judged(a, f, host)
  }

  /** A whole frame. */
  function Judged(a: Asm, f: seq<Byte>, host: Host): Asm
    requires |f| == FRAME
  {
    match R.Parse(f)
    case Rejected(_, _) =>
      if a.badRun + 1 >= 3 then a.(frame := [], synced := false, badRun := 0, bad := a.bad + 1)
      else a.(frame := [], badRun := a.badRun + 1, bad := a.bad + 1)
    case Accepted(nonce, hash) =>
      var c := A.Pair(Add(nonce, host.offset), hash);
      a.(frame := [], badRun := 0, ok := a.ok + 1,
         bad := if host.reproduces(c) then a.bad else a.bad + 1,
         verified := if host.reproduces(c) then a.verified + 1 else a.verified,
         candidates := a.candidates + [c])
  }

  /** Bytes until they run out or alignment is given up. */
  function FedAll(a: Asm, s: seq<Byte>, host: Host): (r: Asm)
    requires |a.frame| < FRAME
    ensures |r.frame| < FRAME
    decreases |s|
  {
    if !a.synced || s == [] then a else FedAll(Fed(a, s[0], host), s[1..], host)
  }

  /** The drain loop: the bytes frame_sync handed back first, then the line until a poll comes
      up empty. What is left of the handed-back bytes when alignment is lost is dropped. */
  function Drained(a: Asm, pending: seq<Byte>, line: seq<Poll>, host: Host): (r: (Asm, seq<Poll>))
    requires |a.frame| < FRAME
    ensures |r.0.frame| < FRAME
    decreases |pending| + |line|
  {
    if !a.synced then (a, line)
    else if pending != [] then Drained(Fed(a, pending[0], host), pending[1..], line, host)
    else if line == [] then (a, line)
    else if line[0].Empty? then (a, line[1..])
    else Drained(Fed(a, line[0].b, host), [], line[1..], host)
  }

  /** Replay starts here: only whole frames, counted back from the end. */
  function ReplayFrom(n: nat): (p: nat)
    ensures p <= n && p < FRAME && (n - p) % FRAME == 0
  {
    n % FRAME
  }

  /** A pass ran, or it overran its replay buffer. */
  datatype Passing = Ran(asm: Asm, rest: seq<Poll>) | Overran

  /** One pass of the mining loop over the serial input. */
  function Passed(a: Asm, line: seq<Poll>, budget: nat, host: Host): (r: Passing)
    requires |a.frame| < FRAME
    ensures r.Ran? ==> |r.asm.frame| < FRAME
  {
    if a.synced then Run(a, [], line, host)
    else
      match Sync(line, budget, true, WANT)
      case Failed(rest) => Run(a.(frame := []), [], rest, host)
      case Overrun(_) => Overran
      case Synced(bytes, rest) => Run(a.(frame := [], synced := true), bytes[ReplayFrom(|bytes|)..], rest, host)
  }

  function Run(a: Asm, pending: seq<Byte>, line: seq<Poll>, host: Host): (r: Passing)
    requires |a.frame| < FRAME
    ensures r.Ran? && |r.asm.frame| < FRAME
  {
    var (asm, rest) := Drained(a, pending, line, host);
    Ran(asm, rest)
  }

  class MiningLoop {
    const host: Host
    const buf: array<Byte>
    var got: nat
    var synced: bool
    var badRun: nat
    var ok: nat
    var bad: nat
    var verified: nat
    var candidates: seq<A.Pair>

    ghost predicate Valid()
      reads this
    {
      buf.Length == FRAME && got < FRAME
    }

    ghost function View(): Asm
      reads this, buf
      requires Valid()
    {
      Asm(buf[..got], synced, badRun, ok, bad, verified, candidates)
    }

    constructor (host: Host)
      ensures Valid() && fresh(buf) && this.host == host
      ensures View() == Asm([], false, 0, 0, 0, 0, [])
    {
      this.host := host;
      buf := new Byte[FRAME];
      got, synced, badRun, ok, bad, verified, candidates := 0, false, 0, 0, 0, 0, [];
    }

    method Feed(x: Byte)
      requires Valid()
      modifies this, buf
      ensures Valid() && View() == Fed(old(View()), x, host)
    {
      hide Judged;
      ghost var was := View();
      buf[got] := x;
      assert buf[..got + 1] == was.frame + [x];
      got := got + 1;
      if got == FRAME {
        got := 0;
        assert buf[..] == was.frame + [x];
        Judge(was);
      }
    }

    /** parse_result on the full buffer, and the verdict. */
    method Judge(ghost was: Asm)
      requires Valid() && got == 0 && View().(frame := was.frame) == was
      modifies this
      ensures Valid() && View() == Judged(was, old(buf[..]), host)
    {
      hide R.Parse, Add;
      var r := R.ParseResult(buf[..]);
      if r.Rejected? {
        bad := bad + 1;
        badRun := badRun + 1;
        if badRun >= 3 { synced, badRun, got := false, 0, 0; }
      } else {
        badRun := 0;
        ok := ok + 1;
        var c := A.Pair(Add(r.nonce, host.offset), r.hash);
        candidates := candidates + [c];
        if host.reproduces(c) { verified := verified + 1; } else { bad := bad + 1; }
      }
    }

    /** Re-synchronise if needed, replay, drain. The replay buffer has eight frames; ran is false
        where the C code would have written past it. */
    method Pass(line: seq<Poll>, budget: nat) returns (ran: bool, rest: seq<Poll>)
      requires Valid()
      modifies this, buf
      ensures Valid()
      ensures ran <==> Passed(old(View()), line, budget, host).Ran?
      ensures ran ==> Ran(View(), rest) == Passed(old(View()), line, budget, host)
    {
      hide Fed, Sync, Drained, ReplayFrom;
      ran := true;
      if synced {
        rest := Drain([], line);
      } else {
        got := 0;
        var syncbuf := new Byte[WANT];
        var r := FrameSyncOn(line, budget, true, syncbuf);
        rest := r.rest;
        if r.Overrun? {
          return false, rest;
        }
        if r.Synced? {
          synced := true;
          var synclen := |r.bytes|;
          var syncpos := synclen - synclen / FRAME * FRAME;
          ReplayOffset(synclen);
          assert syncbuf[syncpos..synclen] == r.bytes[syncpos..];
          rest := Drain(syncbuf[syncpos..synclen], rest);
        } else {
          rest := Drain([], rest);
        }
      }
    }

    /** The assembly loop: handed-back bytes first, then the line until it is empty. */
    method Drain(pending: seq<Byte>, line: seq<Poll>) returns (rest: seq<Poll>)
      requires Valid()
      modifies this, buf
      ensures Valid() && (View(), rest) == Drained(old(View()), pending, line, host)
    {
      hide Fed;
      ghost var answer := Drained(View(), pending, line, host);
      var left := pending;
      rest := line;
      while synced && (left != [] || rest != [])
        invariant Valid() && answer == Drained(View(), left, rest, host)
        decreases |left| + |rest|
      {
        if left != [] {
          Feed(left[0]);
          left := left[1..];
        } else if rest[0].Empty? {
          rest := rest[1..];
          return;
        } else {
          Feed(rest[0].b);
          rest := rest[1..];
        }
      }
    }
  }

  lemma ReplayOffset(n: nat)
    ensures n - n / FRAME * FRAME == ReplayFrom(n)
  {
  }

  lemma {:induction false} FedAllConcat(a: Asm, s: seq<Byte>, t: seq<Byte>, host: Host)
    requires |a.frame| < FRAME
    ensures FedAll(a, s + t, host) == FedAll(FedAll(a, s, host), t, host)
    decreases |s|
  {
    hide Fed;
    if s == [] {
      assert s + t == t;
    } else if a.synced {
      assert (s + t)[1..] == s[1..] + t;
      FedIsShort(a, s[0], host);
      FedAllConcat(Fed(a, s[0], host), s[1..], t, host);
    }
  }

  lemma FedIsShort(a: Asm, x: Byte, host: Host)
    requires |a.frame| < FRAME
    ensures |Fed(a, x, host).frame| < FRAME
  {
  }

  lemma {:induction false} Fills(a: Asm, s: seq<Byte>, host: Host)
    requires a.synced && |a.frame| + |s| < FRAME
    ensures FedAll(a, s, host) == a.(frame := a.frame + s)
    decreases |s|
  {
    hide R.Parse;
    if s != [] {
      Fills(a.(frame := a.frame + [s[0]]), s[1..], host);
      assert a.frame + [s[0]] + s[1..] == a.frame + s;
    } else {
      assert a.frame + s == a.frame;
    }
  }

  /** Seventeen bytes from a boundary are one call of parse_result. */
  lemma OneFrame(a: Asm, f: seq<Byte>, host: Host)
    requires a.synced && a.frame == [] && |f| == FRAME
    ensures FedAll(a, f, host) == Fed(a.(frame := f[..FRAME - 1]), f[FRAME - 1], host)
  {
    hide Fed;
    var front, last := f[..FRAME - 1], f[FRAME - 1..];
    assert f == front + last;
    FedAllConcat(a, front, last, host);
    Fills(a, front, host);
    assert [] + front == front;
    var b := a.(frame := front);
    assert last == [f[FRAME - 1]] && last[1..] == [];
    FedIsShort(b, f[FRAME - 1], host);
    assert FedAll(Fed(b, f[FRAME - 1], host), [], host) == Fed(b, f[FRAME - 1], host);
  }

  /** The candidates a string of frames stands for. */
  function Candidates(ps: seq<A.Pair>, host: Host): seq<A.Pair> {
    seq(|ps|, i requires 0 <= i < |ps| => Candidate(ps[i], host))
  }

  function Candidate(p: A.Pair, host: Host): A.Pair { A.Pair(Add(p.nonce, host.offset), p.hash) }

  /** How many of them do not reproduce. */
  function Failing(ps: seq<A.Pair>, host: Host): (n: nat)
    ensures n <= |ps|
  {
    if ps == [] then 0
    else Failing(ps[..|ps| - 1], host) + if host.reproduces(Candidate(ps[|ps| - 1], host)) then 0 else 1
  }

  /** The state after the frames of ps, from a boundary. */
  function Assembled(a: Asm, ps: seq<A.Pair>, host: Host): Asm {
    a.(badRun := if ps == [] then a.badRun else 0, ok := a.ok + |ps|, bad := a.bad + Failing(ps, host),
       verified := a.verified + |ps| - Failing(ps, host), candidates := a.candidates + Candidates(ps, host))
  }

  lemma CandidatesAppend(ps: seq<A.Pair>, host: Host)
    requires ps != []
    ensures Candidates(ps, host) == Candidates(ps[..|ps| - 1], host)
         + [Candidate(ps[|ps| - 1], host)]
  {
    hide Add;
  }

  /** From a boundary, any string of frames yields exactly its candidates, in order, and ends
      on a boundary with alignment kept. */
  lemma {:induction false} FramesAssemble(a: Asm, ps: seq<A.Pair>, host: Host)
    requires a.synced && a.frame == []
    ensures FedAll(a, R.Frames(ps), host) == Assembled(a, ps, host)
    decreases |ps|
  {
    hide R.FrameBytes, R.Parse, Add, FedAll, Candidates;
    if ps == [] {
      NoFrames(a, host);
      assert a.candidates + [] == a.candidates;
    } else {
      var front, p := ps[..|ps| - 1], ps[|ps| - 1];
      FramesAssemble(a, front, host);
      FedAllConcat(a, R.Frames(front), R.FrameBytes(p), host);
      var b := FedAll(a, R.Frames(front), host);
      OneFrame(b, R.FrameBytes(p), host);
      R.ParseOfFrame(p);
      var f := R.FrameBytes(p);
      assert f[..FRAME - 1] + [f[FRAME - 1]] == f;
      CandidatesAppend(ps, host);
    }
  }

  lemma NoFrames(a: Asm, host: Host)
    requires |a.frame| < FRAME
    ensures FedAll(a, [], host) == a && Candidates([], host) == []
  {
  }

  /** Three windows in a row without the flag, and the loop gives up its alignment having
      accepted nothing from them. */
  lemma MisalignedGivesUp(a: Asm, s: seq<Byte>, host: Host)
    requires a.synced && a.frame == [] && a.badRun == 0 && |s| == 3 * FRAME
    requires s[0] != R.FLAG && s[FRAME] != R.FLAG && s[2 * FRAME] != R.FLAG
    ensures var r := FedAll(a, s, host);
            !r.synced && r.candidates == a.candidates && r.bad == a.bad + 3 && r.frame == []
  {
    hide FedAll;
    var x, y, z := s[..FRAME], s[FRAME..2 * FRAME], s[2 * FRAME..];
    assert s == x + (y + z);
    FedAllConcat(a, x, y + z, host);
    BadFrame(a, x, host);
    var b := FedAll(a, x, host);
    FedAllConcat(b, y, z, host);
    BadFrame(b, y, host);
    BadFrame(FedAll(b, y, host), z, host);
  }

  lemma BadFrame(a: Asm, f: seq<Byte>, host: Host)
    requires a.synced && a.frame == [] && |f| == FRAME && f[0] != R.FLAG
    ensures var r := FedAll(a, f, host);
            && r.candidates == a.candidates && r.bad == a.bad + 1 && r.frame == []
            && (if a.badRun >= 2 then !r.synced else r.synced && r.badRun == a.badRun + 1)
  {
    hide FedAll, Load64;
    OneFrame(a, f, host);
    assert f[..FRAME - 1] + [f[FRAME - 1]] == f;
  }

  // ---------------------------------------------------------------- a whole pass

  lemma {:induction false} DrainReplays(a: Asm, pending: seq<Byte>, line: seq<Poll>, host: Host)
    requires |a.frame| < FRAME && FedAll(a, pending, host).synced
    ensures Drained(a, pending, line, host) == Drained(FedAll(a, pending, host), [], line, host)
    decreases |pending|
  {
    hide Fed;
    if pending != [] && a.synced {
      FedIsShort(a, pending[0], host);
      DrainReplays(Fed(a, pending[0], host), pending[1..], line, host);
    }
  }

  /** What waits before the first empty poll. */
  function Waiting(line: seq<Poll>): (b: seq<Byte>)
    ensures |b| <= |line|
  {
    if line == [] || line[0].Empty? then [] else [line[0].b] + Waiting(line[1..])
  }

  /** Polls a drain in step uses up: those that find a byte, and the empty one that ends it. */
  function DrainLength(line: seq<Poll>): (k: nat)
    ensures k <= |line|
  {
    if line == [] then 0 else if line[0].Empty? then 1 else 1 + DrainLength(line[1..])
  }

  /** While alignment is kept, draining is feeding what waits. */
  lemma {:induction false} DrainFeeds(a: Asm, line: seq<Poll>, host: Host)
    requires |a.frame| < FRAME && FedAll(a, Waiting(line), host).synced
    ensures Drained(a, [], line, host) == (FedAll(a, Waiting(line), host), line[DrainLength(line)..])
    ensures BytesIn(line[..DrainLength(line)]) == Waiting(line)
    decreases line
  {
    hide Fed;
    if line == [] {
    } else if line[0].Empty? {
      assert line[..1] == [Empty] && [Empty][1..] == [];
    } else {
      FedIsShort(a, line[0].b, host);
      DrainFeeds(Fed(a, line[0].b, host), line[1..], host);
      var k := DrainLength(line);
      assert line[1..][k - 1..] == line[k..] && line[..k][1..] == line[1..][..k - 1];
      assert Waiting(line)[1..] == Waiting(line[1..]);
    }
  }

  lemma {:induction false} WaitingIsPrefix(line: seq<Poll>)
    ensures Waiting(line) <= BytesIn(line)
  {
    if line != [] && line[0].Got? { WaitingIsPrefix(line[1..]); }
  }

  /** k passes one after the other; each goes on with the polls the last has left. */
  function Passes(a: Asm, line: seq<Poll>, budget: nat, host: Host, k: nat): (r: Passing)
    requires |a.frame| < FRAME
    ensures r.Ran? ==> |r.asm.frame| < FRAME
  {
    hide Passed;
    if k == 0 then Ran(a, line)
    else
      match Passes(a, line, budget, host, k - 1)
      case Overran => Overran
      case Ran(b, rest) => Passed(b, rest, budget, host)
  }

  lemma {:induction false} PassesFirst(a: Asm, line: seq<Poll>, budget: nat, host: Host, k: nat)
    requires |a.frame| < FRAME && Passed(a, line, budget, host).Ran?
    ensures var r := Passed(a, line, budget, host);
            Passes(a, line, budget, host, k + 1) == Passes(r.asm, r.rest, budget, host, k)
  {
    hide Passed;
    if k == 0 {
      assert Passes(a, line, budget, host, 0) == Ran(a, line);
    } else {
      PassesFirst(a, line, budget, host, k - 1);
    }
  }

  /** Gap path, end to end: a pass that starts out of step, on a burst holding the tail of a
      frame followed by whole frames and then the gap, hands the work source exactly those
      frames, in order, and drains what follows in step, provided the burst fits the replay
      buffer of eight frames. A longer one overruns it. */
  lemma GapPassDelivers(a: Asm, burst: seq<Poll>, more: seq<Poll>, budget: nat, host: Host,
                        partial: seq<Byte>, ps: seq<A.Pair>)
    requires !a.synced && |a.frame| < FRAME
    requires Dense(burst, 0) && burst != [] && burst[|burst| - 1].Got? && |burst| + QUIET <= budget
    requires BytesIn(burst) == Stream(partial, ps) && |partial| < FRAME && |Stream(partial, ps)| < NSYNC
    ensures Passed(a, burst + Pause(QUIET) + more, budget, host)
         == if |Stream(partial, ps)| <= WANT then Run(Assembled(a.(frame := [], synced := true), ps, host), [], more, host)
            else Overran
  {
    hide Sync, Dense, BytesIn, FedAll, R.Frames, Candidates, Fed, Drained;
    GapPath(burst, more, budget, true, WANT);
    var bytes := Stream(partial, ps);
    if |bytes| <= WANT {
      assert ReplayFrom(|bytes|) == |partial|;
      assert bytes[|partial|..] == R.Frames(ps);
      var b := a.(frame := [], synced := true);
      FramesAssemble(b, ps, host);
      DrainReplays(b, R.Frames(ps), more, host);
    }
  }

  /** Dense path, end to end: when the collected bytes single out the true residue, the same
      holds of the eight frames that follow the skip, and the line stays on a boundary. */
  lemma DensePassDelivers(a: Asm, line: seq<Poll>, budget: nat, host: Host, partial: seq<Byte>, ps: seq<A.Pair>)
    requires !a.synced && |a.frame| < FRAME && |partial| < FRAME && BytesIn(line) == Stream(partial, ps)
    requires var c := Collect(line, budget, [], 0, true);
             && c.Busy? && |c.bytes| >= 4 * FRAME && FirstMaximum(c.bytes, FRAME, |partial|)
             && LockAt(c.bytes) + WANT <= |Stream(partial, ps)|
    ensures var c := Collect(line, budget, [], 0, true);
            var q := LockAt(c.bytes) / FRAME;
            var o := Lock(c.bytes, c.rest);
            var b := a.(frame := [], synced := true);
            && q + 8 <= |ps| && BytesIn(o.rest) == R.Frames(ps[q + 8..])
            && Passed(a, line, budget, host) == Run(Assembled(b, ps[q..q + 8], host), [], o.rest, host)
  {
    hide Collect, BytesIn, FedAll, R.Frames, Candidates, Fed, Count, Best, Lock, FirstMaximum, Drained, LockAt;
    var c := Collect(line, budget, [], 0, true);
    CollectConserves(line, budget, [], 0, true);
    assert [] + BytesIn(line) == BytesIn(line);
    DensePath(c.bytes, c.rest, partial, ps);
    WholeFrames(partial, ps, LockAt(c.bytes));
    var q := LockAt(c.bytes) / FRAME;
    var o := Lock(c.bytes, c.rest);
    var b := a.(frame := [], synced := true);
    assert o.bytes[0..] == o.bytes;
    FramesAssemble(b, ps[q..q + 8], host);
    DrainReplays(b, o.bytes, o.rest, host);
  }
}
