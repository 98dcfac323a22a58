/** The host listening to the composed reply line (src/OspreyBlake2bUartTop.vhd, miner/miner.c):
    polls against clocks, and how the mining loop comes into step and stays there. */
module Link {
  import opened Words
  import A = Arbiter
  import F = FrameSync
  import R = ResultPath

  // ---------------------------------------------------------------- polls and clocks

  /** The host's polls at the given clocks, with taken bytes of the line already read: a poll takes
      the next byte if one has arrived, and finds nothing otherwise. After an empty poll the loop
      sleeps 200 us, so a bit cell passes before the next one. No byte is lost to the receive
      buffer. */
  ghost predicate Heard(s: R.Sys, n: nat, ins: seq<R.Input>, polls: seq<F.Poll>, clocks: seq<nat>, taken: nat)
    requires R.Valid(s, n) && R.Inputs(ins, n)
    decreases polls
  {
    && |clocks| == |polls|
    && (polls != [] ==>
          && clocks[0] <= |ins| && PollAt(R.LineAt(s, n, ins, clocks[0]), polls[0], taken)
          && (|polls| > 1 ==> NextPoll(ins, polls[0], clocks[0], clocks[1]))
          && Heard(s, n, ins, polls[1..], clocks[1..], taken + F.Length(polls[0])))
  }

  predicate PollAt(line: seq<Byte>, p: F.Poll, taken: nat) {
    if p.Empty? then taken == |line| else taken < |line| && p.b == line[taken]
  }

  predicate NextPoll(ins: seq<R.Input>, p: F.Poll, t: nat, u: nat) {
    t <= u <= |ins| && (p.Empty? ==> R.Ticks(ins[t..u]) >= 1)
  }

  /** All bytes of the run. */
  function Whole(s: R.Sys, n: nat, ins: seq<R.Input>): seq<Byte>
    requires R.Valid(s, n) && R.Inputs(ins, n)
  {
    R.LineAt(s, n, ins, |ins|)
  }

  /** What is heard is the line, from where reading stood. */
  lemma {:induction false} HeardIsLine(s: R.Sys, n: nat, ins: seq<R.Input>, polls: seq<F.Poll>, clocks: seq<nat>, taken: nat)
    requires R.Valid(s, n) && R.Inputs(ins, n) && Heard(s, n, ins, polls, clocks, taken)
    requires taken <= |Whole(s, n, ins)|
    ensures var m := |F.BytesIn(polls)|;
            taken + m <= |Whole(s, n, ins)| && F.BytesIn(polls) == Whole(s, n, ins)[taken..taken + m]
    decreases polls
  {
    hide R.LineAt, R.Valid, PollAt, NextPoll;
    if polls != [] {
      R.LineGrows(s, n, ins, clocks[0], |ins|);
      PollReads(R.LineAt(s, n, ins, clocks[0]), Whole(s, n, ins), polls[0], taken);
      HeardIsLine(s, n, ins, polls[1..], clocks[1..], taken + F.Length(polls[0]));
      BytesAfter(Whole(s, n, ins), polls, taken);
    }
  }

  lemma PollReads(line: seq<Byte>, w: seq<Byte>, p: F.Poll, taken: nat)
    requires line <= w && PollAt(line, p, taken)
    ensures p.Got? ==> taken < |w| && p.b == w[taken]
  {
  }

  lemma BytesAfter(w: seq<Byte>, polls: seq<F.Poll>, taken: nat)
    requires polls != [] && taken <= |w| && (polls[0].Got? ==> taken < |w| && polls[0].b == w[taken])
    requires var t, m := taken + F.Length(polls[0]), |F.BytesIn(polls[1..])|;
             t + m <= |w| && F.BytesIn(polls[1..]) == w[t..t + m]
    ensures var m := |F.BytesIn(polls)|;
            taken + m <= |w| && F.BytesIn(polls) == w[taken..taken + m]
  {
    hide F.BytesIn;
    F.BytesInFirst(polls);
    if polls[0].Got? { FirstThenRest(w, taken, |F.BytesIn(polls[1..])|); }
  }

  lemma FirstThenRest(w: seq<Byte>, i: nat, m: nat)
    requires i + 1 + m <= |w|
    ensures [w[i]] + w[i + 1..i + 1 + m] == w[i..i + 1 + m]
  {
  }

  /** The polls from the i-th on are heard too. */
  lemma {:induction false} HeardOn(s: R.Sys, n: nat, ins: seq<R.Input>, polls: seq<F.Poll>, clocks: seq<nat>,
                                   taken: nat, i: nat)
    requires R.Valid(s, n) && R.Inputs(ins, n) && Heard(s, n, ins, polls, clocks, taken) && i <= |polls|
    ensures Heard(s, n, ins, polls[i..], clocks[i..], taken + |F.BytesIn(polls[..i])|)
    decreases i
  {
    hide R.LineAt, R.Valid;
    if i == 0 {
      assert polls[0..] == polls && clocks[0..] == clocks && polls[..0] == [];
    } else {
      HeardOn(s, n, ins, polls[1..], clocks[1..], taken + F.Length(polls[0]), i - 1);
      assert polls[1..][i - 1..] == polls[i..] && clocks[1..][i - 1..] == clocks[i..];
      assert polls[..i][1..] == polls[1..][..i - 1];
    }
  }

  /** Over m empty polls nothing has come out of the line, while at least m - 1 cells have passed. */
  lemma {:induction false} EmptyPolls(s: R.Sys, n: nat, ins: seq<R.Input>, polls: seq<F.Poll>, clocks: seq<nat>,
                                      taken: nat, m: nat)
    requires R.Valid(s, n) && R.Inputs(ins, n) && Heard(s, n, ins, polls, clocks, taken)
    requires 0 < m <= |polls| && forall i :: 0 <= i < m ==> polls[i].Empty?
    ensures clocks[0] <= clocks[m - 1] <= |ins|
    ensures |R.LineAt(s, n, ins, clocks[m - 1])| <= taken && R.Ticks(ins[clocks[0]..clocks[m - 1]]) >= m - 1
    decreases m
  {
    hide R.LineAt, R.Valid, R.Ticks;
    assert polls[0].Empty?;
    if m > 1 {
      forall i | 0 <= i < m - 1
        ensures polls[1..][i].Empty?
      {
        assert polls[i + 1].Empty?;
      }
      EmptyPolls(s, n, ins, polls[1..], clocks[1..], taken, m - 1);
      assert clocks[1..][m - 2] == clocks[m - 1];
      TicksAdd(ins, clocks[0], clocks[1], clocks[m - 1]);
    }
  }

  lemma {:induction false} TicksAdd(ins: seq<R.Input>, a: nat, b: nat, c: nat)
    requires a <= b <= c <= |ins|
    ensures R.Ticks(ins[a..c]) == R.Ticks(ins[a..b]) + R.Ticks(ins[b..c])
    decreases c
  {
    if b == c {
      assert ins[b..c] == [];
    } else {
      TicksAdd(ins, a, b, c - 1);
      assert ins[a..c][..c - 1 - a] == ins[a..c - 1] && ins[b..c][..c - 1 - b] == ins[b..c - 1];
    }
  }

  /** The gap of fifteen empty polls cannot fall inside a frame. */
  lemma GapIsBoundary(s: R.Sys, n: nat, ins: seq<R.Input>, polls: seq<F.Poll>, clocks: seq<nat>, taken: nat)
    requires R.Reset(s, n) && R.Inputs(ins, n) && Heard(s, n, ins, polls, clocks, taken)
    requires F.QUIET <= |polls| && polls[..F.QUIET] == F.Pause(F.QUIET)
    ensures taken % F.FRAME == 0
  {
    hide R.LineAt, R.Reset, R.Ticks;
    forall i | 0 <= i < F.QUIET
      ensures polls[i].Empty?
    {
      assert polls[..F.QUIET][i] == polls[i];
    }
    EmptyPolls(s, n, ins, polls, clocks, taken, F.QUIET);
    assert polls[0].Empty?;
    var t, u := clocks[0], clocks[F.QUIET - 1];
    R.LineGrows(s, n, ins, t, u);
    R.GapBetweenFrames(s, n, ins, t, u);
  }

  // ---------------------------------------------------------------- in step

  /** The loop came into step at frame j of the line with state b, and has read taken bytes. */
  ghost predicate InStep(asm: F.Asm, b: F.Asm, w: seq<Byte>, j: nat, taken: nat, host: F.Host) {
    && b.synced && b.frame == [] && F.FRAME * j <= taken <= |w|
    && asm == F.FedAll(b, w[F.FRAME * j..taken], host)
  }

  /** In step, what has been assembled are exactly the frames from j on that are through, all
      accepted, and what is begun is the beginning of the next. */
  lemma InStepMeans(asm: F.Asm, b: F.Asm, grants: seq<A.Pair>, w: seq<Byte>, j: nat, taken: nat, host: F.Host)
    requires w <= R.Frames(grants) && InStep(asm, b, w, j, taken, host)
    ensures var q := taken / F.FRAME;
            && j <= q <= |grants| && F.FRAME * q <= taken
            && asm == F.Assembled(b, grants[j..q], host).(frame := w[F.FRAME * q..taken])
  {
    hide R.Frames, F.Fed, F.FedAll, F.Assembled, R.FrameBytes;
    var q := taken / F.FRAME;
    FramesThenRest(grants, w, j, q, taken);
    FeedsFrames(b, grants[j..q], w[F.FRAME * q..taken], host);
  }

  lemma FeedsFrames(b: F.Asm, whole: seq<A.Pair>, rest: seq<Byte>, host: F.Host)
    requires b.synced && b.frame == [] && |rest| < F.FRAME
    ensures F.FedAll(b, R.Frames(whole) + rest, host) == F.Assembled(b, whole, host).(frame := rest)
  {
    hide R.Frames, F.Fed, F.FedAll, F.Candidates, F.Failing, R.FrameBytes;
    F.FedAllConcat(b, R.Frames(whole), rest, host);
    F.FramesAssemble(b, whole, host);
    F.Fills(F.FedAll(b, R.Frames(whole), host), rest, host);
    assert [] + rest == rest;
  }

  lemma FramesThenRest(grants: seq<A.Pair>, w: seq<Byte>, j: nat, q: nat, taken: nat)
    requires w <= R.Frames(grants) && F.FRAME * j <= taken <= |w| && q == taken / F.FRAME
    ensures j <= q <= |grants| && F.FRAME * q <= taken
    ensures w[F.FRAME * j..taken] == R.Frames(grants[j..q]) + w[F.FRAME * q..taken]
  {
    hide R.Frames;
    FrameLength(grants);
    WholeOnes(j, q, taken, |grants|);
    SliceOfFrames(grants, w, j, q, taken);
  }

  lemma WholeOnes(j: nat, q: nat, taken: nat, g: nat)
    requires F.FRAME * j <= taken <= F.FRAME * g && q == taken / F.FRAME
    ensures j <= q <= g && F.FRAME * q <= taken
  {
  }

  lemma SliceOfFrames(grants: seq<A.Pair>, w: seq<Byte>, j: nat, q: nat, taken: nat)
    requires w <= R.Frames(grants) && j <= q <= |grants| && F.FRAME * q <= taken <= |w|
    ensures w[F.FRAME * j..taken] == R.Frames(grants[j..q]) + w[F.FRAME * q..taken]
  {
    hide R.Frames;
    InThree(grants, j, q);
    SliceOfParts(w, grants[..j], grants[j..q], grants[q..], taken);
  }

  lemma SliceOfParts(w: seq<Byte>, a: seq<A.Pair>, b: seq<A.Pair>, c: seq<A.Pair>, taken: nat)
    requires w <= R.Frames(a + (b + c)) && F.FRAME * (|a| + |b|) <= taken <= |w|
    ensures w[F.FRAME * |a|..taken] == R.Frames(b) + w[F.FRAME * (|a| + |b|)..taken]
  {
    hide R.Frames;
    FramesThree(a, b, c);
    FrameLength(a);
    FrameLength(b);
    CutAt(w, R.Frames(a), R.Frames(b), R.Frames(c), taken);
  }

  lemma FrameLength(ps: seq<A.Pair>)
    ensures |R.Frames(ps)| == F.FRAME * |ps|
  {
    hide R.Frames;
  }

  lemma InThree(grants: seq<A.Pair>, j: nat, q: nat)
    requires j <= q <= |grants|
    ensures grants == grants[..j] + (grants[j..q] + grants[q..])
  {
  }

  lemma FramesThree(a: seq<A.Pair>, b: seq<A.Pair>, c: seq<A.Pair>)
    ensures R.Frames(a + (b + c)) == R.Frames(a) + (R.Frames(b) + R.Frames(c))
  {
    hide R.Frames;
    F.FramesConcat(a, b + c);
    F.FramesConcat(b, c);
  }

  lemma CutAt(w: seq<Byte>, x: seq<Byte>, y: seq<Byte>, z: seq<Byte>, taken: nat)
    requires w <= x + (y + z) && |x| + |y| <= taken <= |w|
    ensures w[|x|..taken] == y + w[|x| + |y|..taken]
  {
    var v := w[..taken];
    Cut(v, x, y, z);
    assert v[|x|..] == w[|x|..taken] && v[|x| + |y|..] == w[|x| + |y|..taken];
  }

  lemma Cut(bytes: seq<Byte>, x: seq<Byte>, y: seq<Byte>, z: seq<Byte>)
    requires bytes <= x + (y + z) && |x| + |y| <= |bytes|
    ensures bytes[|x|..] == y + bytes[|x| + |y|..]
  {
    assert bytes == (x + (y + z))[..|bytes|];
  }

  /** Reading on keeps the step. */
  lemma StepOn(asm: F.Asm, b: F.Asm, w: seq<Byte>, j: nat, taken: nat, m: nat, host: F.Host)
    requires InStep(asm, b, w, j, taken, host) && taken + m <= |w|
    ensures |asm.frame| < F.FRAME && InStep(F.FedAll(asm, w[taken..taken + m], host), b, w, j, taken + m, host)
  {
    hide F.FedAll;
    F.FedAllConcat(b, w[F.FRAME * j..taken], w[taken..taken + m], host);
    assert w[F.FRAME * j..taken] + w[taken..taken + m] == w[F.FRAME * j..taken + m];
  }

  // ---------------------------------------------------------------- passes of the mining loop

  lemma LineIsFrames(s: R.Sys, n: nat, ins: seq<R.Input>)
    requires R.Reset(s, n) && R.Inputs(ins, n)
    ensures Whole(s, n, ins) <= R.Frames(R.Grants(s, n, ins))
  {
    hide R.After, R.Grants, R.Frames, R.U.Pending, R.Reset;
    R.LineConserves(s, n, ins);
    assert ins[..|ins|] == ins;
  }

  /** Where the host stands after i of its polls: in step, with the rest still to be heard. */
  ghost predicate At(s: R.Sys, n: nat, ins: seq<R.Input>, polls: seq<F.Poll>, clocks: seq<nat>, taken: nat,
                     b: F.Asm, j: nat, host: F.Host, r: F.Passing, i: nat)
    requires R.Valid(s, n) && R.Inputs(ins, n) && |clocks| == |polls|
  {
    && r.Ran? && i <= |polls| && r.rest == polls[i..]
    && InStep(r.asm, b, Whole(s, n, ins), j, taken + |F.BytesIn(polls[..i])|, host)
    && Heard(s, n, ins, polls[i..], clocks[i..], taken + |F.BytesIn(polls[..i])|)
  }

  /** Draining the polls from the i-th on keeps the step. */
  lemma DrainKeepsStep(s: R.Sys, n: nat, ins: seq<R.Input>, polls: seq<F.Poll>, clocks: seq<nat>, taken: nat,
                       b: F.Asm, j: nat, host: F.Host, a: F.Asm, i: nat)
    requires R.Reset(s, n) && R.Inputs(ins, n) && Heard(s, n, ins, polls, clocks, taken)
    requires |clocks| == |polls| && i <= |polls|
    requires At(s, n, ins, polls, clocks, taken, b, j, host, F.Ran(a, polls[i..]), i)
    ensures a.synced && |a.frame| < F.FRAME
    ensures At(s, n, ins, polls, clocks, taken, b, j, host, F.Run(a, [], polls[i..], host), i + F.DrainLength(polls[i..]))
  {
    hide R.Reset, R.Valid, R.Frames, R.Grants, F.FedAll, F.Drained, F.Assembled, F.BytesIn, Whole, Heard, F.Waiting,
      F.DrainLength;
    var w, grants := Whole(s, n, ins), R.Grants(s, n, ins);
    LineIsFrames(s, n, ins);
    var t, k := taken + |F.BytesIn(polls[..i])|, F.DrainLength(polls[i..]);
    var x := F.Waiting(polls[i..]);
    InStepSynced(a, b, grants, w, j, t, host);
    HeardIsLine(s, n, ins, polls[i..], clocks[i..], t);
    F.WaitingIsPrefix(polls[i..]);
    assert x == w[t..t + |x|] by { PrefixAt(w, x, F.BytesIn(polls[i..]), t); }
    StepOn(a, b, w, j, t, |x|, host);
    InStepSynced(F.FedAll(a, x, host), b, grants, w, j, t + |x|, host);
    F.DrainFeeds(a, polls[i..], host);
    HeardOn(s, n, ins, polls, clocks, taken, i + k);
    F.BytesInSplit(polls[..i + k], i);
    assert polls[..i + k][..i] == polls[..i] && polls[..i + k][i..] == polls[i..][..k];
    assert polls[i..][k..] == polls[i + k..];
  }

  lemma PrefixAt(w: seq<Byte>, x: seq<Byte>, y: seq<Byte>, t: nat)
    requires x <= y && t + |y| <= |w| && y == w[t..t + |y|]
    ensures t + |x| <= |w| && x == w[t..t + |x|]
  {
    assert x == y[..|x|];
  }

  lemma HeardLengths(s: R.Sys, n: nat, ins: seq<R.Input>, polls: seq<F.Poll>, clocks: seq<nat>, taken: nat)
    requires R.Valid(s, n) && R.Inputs(ins, n) && Heard(s, n, ins, polls, clocks, taken)
    ensures |clocks| == |polls|
  {
    hide R.Valid, R.LineAt;
  }

  lemma InStepSynced(asm: F.Asm, b: F.Asm, grants: seq<A.Pair>, w: seq<Byte>, j: nat, taken: nat, host: F.Host)
    requires w <= R.Frames(grants) && InStep(asm, b, w, j, taken, host)
    ensures asm.synced && |asm.frame| < F.FRAME
  {
    hide R.Frames, F.FedAll, F.Candidates, F.Failing;
    InStepMeans(asm, b, grants, w, j, taken, host);
  }

  /** In step a pass drains and stays in step. */
  lemma PassKeepsStep(s: R.Sys, n: nat, ins: seq<R.Input>, polls: seq<F.Poll>, clocks: seq<nat>, taken: nat,
                      b: F.Asm, j: nat, host: F.Host, a: F.Asm, i: nat, budget: nat)
    requires R.Reset(s, n) && R.Inputs(ins, n) && Heard(s, n, ins, polls, clocks, taken)
    requires |clocks| == |polls| && i <= |polls|
    requires At(s, n, ins, polls, clocks, taken, b, j, host, F.Ran(a, polls[i..]), i)
    ensures |a.frame| < F.FRAME
    ensures At(s, n, ins, polls, clocks, taken, b, j, host, F.Passed(a, polls[i..], budget, host),
               i + F.DrainLength(polls[i..]))
  {
    hide R.Reset, R.Valid, F.Sync, At, Heard, F.Run;
    DrainKeepsStep(s, n, ins, polls, clocks, taken, b, j, host, a, i);
  }

  /** Once in step, in step for ever: after any number of passes. */
  lemma {:induction false} LoopKeepsStep(s: R.Sys, n: nat, ins: seq<R.Input>, polls: seq<F.Poll>, clocks: seq<nat>,
                                         taken: nat, b: F.Asm, j: nat, host: F.Host, a: F.Asm, budget: nat, k: nat)
      returns (i: nat)
    requires R.Reset(s, n) && R.Inputs(ins, n) && Heard(s, n, ins, polls, clocks, taken)
    requires InStep(a, b, Whole(s, n, ins), j, taken, host)
    ensures |a.frame| < F.FRAME
    ensures At(s, n, ins, polls, clocks, taken, b, j, host, F.Passes(a, polls, budget, host, k), i)
  {
    hide R.Reset, R.Valid, F.Passed, At, Heard, Whole, InStep;
    HeardLengths(s, n, ins, polls, clocks, taken);
    HeardFromStart(s, n, ins, polls, clocks, taken, b, j, host, a);
    PassKeepsStep(s, n, ins, polls, clocks, taken, b, j, host, a, 0, budget);
    i := 0;
    if k > 0 {
      i := LoopKeepsStep(s, n, ins, polls, clocks, taken, b, j, host, a, budget, k - 1);
      var r := F.Passes(a, polls, budget, host, k - 1);
      AtRan(s, n, ins, polls, clocks, taken, b, j, host, r, i);
      PassKeepsStep(s, n, ins, polls, clocks, taken, b, j, host, r.asm, i, budget);
      i := i + F.DrainLength(polls[i..]);
    }
  }

  lemma AtRan(s: R.Sys, n: nat, ins: seq<R.Input>, polls: seq<F.Poll>, clocks: seq<nat>, taken: nat,
              b: F.Asm, j: nat, host: F.Host, r: F.Passing, i: nat)
    requires R.Valid(s, n) && R.Inputs(ins, n) && |clocks| == |polls|
    requires At(s, n, ins, polls, clocks, taken, b, j, host, r, i)
    ensures r.Ran? && i <= |polls| && r == F.Ran(r.asm, polls[i..])
  {
    hide R.Valid;
  }

  lemma HeardFromStart(s: R.Sys, n: nat, ins: seq<R.Input>, polls: seq<F.Poll>, clocks: seq<nat>, taken: nat,
                       b: F.Asm, j: nat, host: F.Host, a: F.Asm)
    requires R.Valid(s, n) && R.Inputs(ins, n) && Heard(s, n, ins, polls, clocks, taken)
    requires InStep(a, b, Whole(s, n, ins), j, taken, host)
    ensures polls[0..] == polls && At(s, n, ins, polls, clocks, taken, b, j, host, F.Ran(a, polls), 0)
  {
    hide R.Valid, InStep, Whole;
    assert polls[..0] == [];
    HeardOn(s, n, ins, polls, clocks, taken, 0);
  }

  /** The first frame boundary at or after a byte. */
  function NextFrame(taken: nat): (j: nat)
    ensures F.FRAME * j < taken + F.FRAME && taken <= F.FRAME * j
  {
    (taken + F.FRAME - 1) / F.FRAME
  }

  /** How a pass that is out of step comes into step, wherever in a frame it began to listen: when
      the gap or a silence ends the collection, the line stands between frames, every frame begun
      after listening started is assembled, and the loop goes on in step; unless the burst was
      longer than the replay buffer. */
  lemma PassReachesStep(s: R.Sys, n: nat, ins: seq<R.Input>, polls: seq<F.Poll>, clocks: seq<nat>, taken: nat,
                        host: F.Host, a: F.Asm, budget: nat) returns (i: nat)
    requires R.Reset(s, n) && R.Inputs(ins, n) && Heard(s, n, ins, polls, clocks, taken)
    requires taken <= |Whole(s, n, ins)| && !a.synced && |a.frame| < F.FRAME
    requires !F.Collect(polls, budget, [], 0, true).Busy?
    ensures if |F.Collect(polls, budget, [], 0, true).Taken()| > F.WANT then F.Passed(a, polls, budget, host) == F.Overran
            else At(s, n, ins, polls, clocks, taken, a.(frame := [], synced := true), NextFrame(taken), host,
                    F.Passed(a, polls, budget, host), i)
  {
    hide R.Reset, R.Valid, F.Collect, At, Heard, Whole, F.Sync, F.Run, F.BytesIn, F.BurstThenGap;
    i := 0;
    var c := F.Collect(polls, budget, [], 0, true);
    if c.Silent? {
      i := SilenceReachesStep(s, n, ins, polls, clocks, taken, host, a, budget);
    } else {
      F.GapIffBurst(polls, budget, true);
      var k: nat, m: nat :| F.BurstThenGap(polls, budget, true, k, m);
      i := BurstReachesStep(s, n, ins, polls, clocks, taken, host, a, budget, k, m);
    }
  }

  lemma SilenceReachesStep(s: R.Sys, n: nat, ins: seq<R.Input>, polls: seq<F.Poll>, clocks: seq<nat>, taken: nat,
                           host: F.Host, a: F.Asm, budget: nat) returns (i: nat)
    requires R.Reset(s, n) && R.Inputs(ins, n) && Heard(s, n, ins, polls, clocks, taken)
    requires taken <= |Whole(s, n, ins)| && !a.synced && |a.frame| < F.FRAME
    requires F.Collect(polls, budget, [], 0, true).Silent?
    ensures At(s, n, ins, polls, clocks, taken, a.(frame := [], synced := true), NextFrame(taken), host,
               F.Passed(a, polls, budget, host), i)
  {
    hide R.Reset, R.Valid, F.Collect, Heard, Whole, F.Run, F.BytesIn;
    var b, q := a.(frame := [], synced := true), F.QUIET;
    F.SilentMeans(polls, budget, 0);
    GapIsBoundary(s, n, ins, polls, clocks, taken);
    BoundaryBetween(taken, taken);
    HeardLengths(s, n, ins, polls, clocks, taken);
    HeardOn(s, n, ins, polls, clocks, taken, q);
    F.PauseIsEmpty(q);
    F.NoFrames(b, host);
    assert Whole(s, n, ins)[taken..taken] == [];
    i := q + F.DrainLength(polls[q..]);
    DrainKeepsStep(s, n, ins, polls, clocks, taken, b, NextFrame(taken), host, b, q);
    var none: seq<Byte> := [];
    assert none[F.ReplayFrom(0)..] == none;
  }

  lemma BurstReachesStep(s: R.Sys, n: nat, ins: seq<R.Input>, polls: seq<F.Poll>, clocks: seq<nat>, taken: nat,
                         host: F.Host, a: F.Asm, budget: nat, k: nat, m: nat) returns (i: nat)
    requires R.Reset(s, n) && R.Inputs(ins, n) && Heard(s, n, ins, polls, clocks, taken)
    requires taken <= |Whole(s, n, ins)| && !a.synced && |a.frame| < F.FRAME
    requires F.BurstThenGap(polls, budget, true, k, m)
    ensures k < m <= |polls| && F.Collect(polls, budget, [], 0, true).Gap?
    ensures if |F.Collect(polls, budget, [], 0, true).bytes| > F.WANT then F.Passed(a, polls, budget, host) == F.Overran
            else At(s, n, ins, polls, clocks, taken, a.(frame := [], synced := true), NextFrame(taken), host,
                    F.Passed(a, polls, budget, host), i)
  {
    hide R.Reset, R.Valid, F.Collect, Heard, Whole, F.Run, F.BytesIn, F.Passed, R.Grants, R.Frames, F.Dense,
      F.FedAll, F.Assembled;
    var b, q := a.(frame := [], synced := true), F.QUIET;
    var w, grants, j := Whole(s, n, ins), R.Grants(s, n, ins), NextFrame(taken);
    F.GapIffBurst(polls, budget, true);
    var burst, more := polls[..m], polls[m + q..];
    assert polls[k..m] == burst;
    HeardLengths(s, n, ins, polls, clocks, taken);
    HeardOn(s, n, ins, polls, clocks, taken, m);
    HeardIsLine(s, n, ins, polls, clocks, taken);
    F.BytesInSplit(polls, m);
    var t := taken + |F.BytesIn(burst)|;
    assert polls[m..][..q] == polls[m..m + q];
    GapIsBoundary(s, n, ins, polls[m..], clocks[m..], t);
    LineIsFrames(s, n, ins);
    HeardBurst(w, F.BytesIn(burst), F.BytesIn(polls[m..]), taken);
    BoundaryBetween(taken, t);
    FramesThenRest(grants, w, j, t / F.FRAME, t);
    var partial, ps := w[taken..F.FRAME * j], grants[j..t / F.FRAME];
    assert w[taken..t] == partial + w[F.FRAME * j..t];
    assert w[F.FRAME * (t / F.FRAME)..t] == [];
    assert w[F.FRAME * j..t] == R.Frames(ps);
    assert polls == burst + F.Pause(q) + more;
    F.GapPassDelivers(a, burst, more, budget, host, partial, ps);
    i := 0;
    if |F.BytesIn(burst)| <= F.WANT {
      var asm := F.Assembled(b, ps, host);
      F.FramesAssemble(b, ps, host);
      HeardOn(s, n, ins, polls, clocks, taken, m + q);
      F.BytesInSplit(polls[..m + q], m);
      assert polls[..m + q][..m] == burst && polls[..m + q][m..] == F.Pause(q);
      F.PauseIsEmpty(q);
      DrainKeepsStep(s, n, ins, polls, clocks, taken, b, j, host, asm, m + q);
      i := m + q + F.DrainLength(more);
    }
  }

  lemma HeardBurst(w: seq<Byte>, x: seq<Byte>, y: seq<Byte>, taken: nat)
    requires taken + |x + y| <= |w| && x + y == w[taken..taken + |x + y|]
    ensures x == w[taken..taken + |x|]
  {
    assert x == (x + y)[..|x|];
  }

  lemma BoundaryBetween(taken: nat, t: nat)
    requires taken <= t && t % F.FRAME == 0
    ensures F.FRAME * NextFrame(taken) <= t && F.FRAME * (t / F.FRAME) == t
  {
  }
}
