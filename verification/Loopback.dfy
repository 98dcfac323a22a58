/** The start-up loopback test: how the host finds the correction of reported nonces for pipeline
    latency (miner/miner.c). */
module Loopback {
  import opened Words
  import opened Blake2b
  import opened Cores
  import opened HostCheck
  import opened KnotsHeader
  import A = Arbiter
  import R = ResultPath
  import S = Sha256

  const OFFSETS: nat := 512
  const NONCE_GUARD: nat := 256

  /** expected_hash_top64: the word the chip reports for a header, and zero for one it cannot mine. */
  function Expected(f: S.Compress, h: Header2): U64 {
    hide Hash, StageMessage4, BE;
    if !ModeZero(h) then 0
    else
      var b := Hash(StageMessage4(f, h), 32)[24..32];
      BEBound(b);
      Pow256Values();
      BE(b)
  }

  method ExpectedHashTop64(f: S.Compress, h: Header2) returns (v: U64)
    ensures v == Expected(f, h)
  {
    hide Message3, StageMessage4, Hash, BE;
    var stages := StageInputs(f, h);
    if stages.None? {
      return 0;
    }
    var hb := Blake2bNoKey(stages.value.1, 32);
    v := FoldBig(hb, 24);
  }

  /** It is the word a core reports for that nonce of the item made from the header. */
  lemma ExpectedOfCandidate(f: S.Compress, h: Header2, n: U64)
    requires ModeZero(h)
    ensures Expected(f, WithCandidate(h, n)) == ByteSwap(DigestWord(Knots, HeaderOf(StageMessage4(f, h)), n))
  {
    hide F, Start, ToLE, MessageOf, HeaderOf, WithNonce, BE, StageMessage4, Hash;
    var ss4 := WithNonce(StageMessage4(f, h), n);
    CandidateIsNonce(f, h, n);
    StageFourDigest(ss4);
    NonceIsWord4(StageMessage4(f, h), n);
    var chain := F(Start(32), MessageOf(HeaderOf(ss4)), GRIND_LEN, true);
    assert Hash(ss4, 32)[24..32] == ToLE(chain[3], 8);
  }

  // ---------------------------------------------------------------- loopback_verify

  /** The least correction from off on at which a report reproduces. */
  function OffsetFrom(f: S.Compress, h: Header2, p: A.Pair, off: nat): (r: Option<nat>)
    requires off <= OFFSETS
    ensures r.Some? ==> off <= r.value < OFFSETS
    decreases OFFSETS - off
  {
    hide Expected;
    if off == OFFSETS then None
    else if Expected(f, WithCandidate(h, Add(p.nonce, off))) == p.hash then Some(off)
    else OffsetFrom(f, h, p, off + 1)
  }

  /** Reports this close to the seed come from a stage 3 that has not settled. */
  predicate Settled(p: A.Pair) { Sub(0, p.nonce) >= NONCE_GUARD }

  /** What a window of the buffer says about the correction. */
  function Window(f: S.Compress, h: Header2, buf: seq<Byte>, w: nat): (r: Option<nat>)
    requires w + R.FRAME <= |buf|
    ensures r.Some? ==> r.value < OFFSETS
  {
    hide R.Parse, OffsetFrom;
    match R.Parse(buf[w..w + R.FRAME])
    case Rejected(_, _) => None
    case Accepted(nonce, hash) =>
      var p := A.Pair(nonce, hash);
      if Settled(p) then OffsetFrom(f, h, p, 0) else None
  }

  /** The first answer of any window from w on. */
  function Calibration(f: S.Compress, h: Header2, buf: seq<Byte>, w: nat): (r: Option<nat>)
    ensures r.Some? ==> r.value < OFFSETS
    decreases |buf| - w
  {
    hide Window;
    if w + R.FRAME > |buf| then None
    else if Window(f, h, buf, w).Some? then Window(f, h, buf, w)
    else Calibration(f, h, buf, w + 1)
  }

  /** loopback_verify: the correction found, if any. */
  method LoopbackVerify(f: S.Compress, hp: Header2, buf: seq<Byte>) returns (r: Option<nat>)
    ensures r == Calibration(f, hp, buf, 0)
  {
    hide Expected, R.Parse, WithCandidate;
    var w := 0;
    while w + R.FRAME <= |buf|
      invariant Calibration(f, hp, buf, 0) == Calibration(f, hp, buf, w)
      decreases |buf| - w
    {
      if buf[w] == R.FLAG {
        var report := R.ParseResult(buf[w..w + R.FRAME]);
        FlagAccepts(buf[w..w + R.FRAME]);
        var p := A.Pair(report.nonce, report.hash);
        if Sub(0, p.nonce) >= NONCE_GUARD {
          for off := 0 to OFFSETS
            invariant OffsetFrom(f, hp, p, 0) == OffsetFrom(f, hp, p, off)
          {
            var expected := ExpectedHashTop64(f, WithCandidate(hp, Add(p.nonce, off)));
            if expected == p.hash {
              return Some(off);
            }
          }
        }
      } else {
        FlagAccepts(buf[w..w + R.FRAME]);
      }
      w := w + 1;
    }
    r := None;
  }

  lemma FlagAccepts(b: seq<Byte>)
    requires |b| == R.FRAME
    ensures R.Parse(b).Accepted? <==> b[0] == R.FLAG
  {
  }

  /** The answer is that of the first window with one. */
  lemma {:induction false} FirstAnswer(f: S.Compress, h: Header2, buf: seq<Byte>, w: nat, v: nat, off: nat)
    requires w <= v && v + R.FRAME <= |buf| && Window(f, h, buf, v) == Some(off)
    requires forall u :: w <= u < v ==> Window(f, h, buf, u) == None
    ensures Calibration(f, h, buf, w) == Some(off)
    decreases v - w
  {
    hide Window;
    if w < v { FirstAnswer(f, h, buf, w + 1, v, off); }
  }

  /** A report about the item of h. */
  predicate Reports(f: S.Compress, h: Header2, p: A.Pair) {
    p.hash == ByteSwap(DigestWord(Knots, HeaderOf(StageMessage4(f, h)), p.nonce))
  }

  /** A core's report reproduces with no correction at all, the first the host tries. */
  lemma ReportNeedsNone(f: S.Compress, h: Header2, p: A.Pair)
    requires ModeZero(h) && Reports(f, h, p)
    ensures OffsetFrom(f, h, p, 0) == Some(0)
  {
    hide Expected, DigestWord, HeaderOf, StageMessage4, ByteSwap, WithCandidate;
    ExpectedOfCandidate(f, h, p.nonce);
    assert Add(p.nonce, 0) == p.nonce;
  }

  /** In what frame_sync hands back, a settled report about the item that no window before it
      contradicts makes the correction zero: the part compensates exactly. */
  lemma CalibratesToZero(f: S.Compress, h: Header2, partial: seq<Byte>, ps: seq<A.Pair>, i: nat)
    requires ModeZero(h) && i < |ps| && Reports(f, h, ps[i]) && Settled(ps[i])
    requires forall u :: 0 <= u < |partial| + R.FRAME * i ==>
               u + R.FRAME <= |partial + R.Frames(ps)| && Window(f, h, partial + R.Frames(ps), u) == None
    ensures Calibration(f, h, partial + R.Frames(ps), 0) == Some(0)
  {
    hide Window, Reports, R.Frames, R.FrameBytes, OffsetFrom, Settled;
    var buf, at := partial + R.Frames(ps), |partial| + R.FRAME * i;
    R.FrameAt(ps, i);
    assert buf[at..at + R.FRAME] == R.FrameBytes(ps[i]) by { SliceBehind(partial, R.Frames(ps), R.FRAME * i, R.FRAME); }
    WindowOfFrame(f, h, buf, at, ps[i]);
    ReportNeedsNone(f, h, ps[i]);
    FirstAnswer(f, h, buf, 0, at, 0);
  }

  lemma WindowOfFrame(f: S.Compress, h: Header2, buf: seq<Byte>, w: nat, p: A.Pair)
    requires w + R.FRAME <= |buf| && buf[w..w + R.FRAME] == R.FrameBytes(p) && Settled(p)
    ensures Window(f, h, buf, w) == OffsetFrom(f, h, p, 0)
  {
    hide R.Parse, R.FrameBytes, OffsetFrom, Settled;
    R.ParseOfFrame(p);
  }

  lemma SliceBehind(x: seq<Byte>, y: seq<Byte>, i: nat, n: nat)
    requires i + n <= |y|
    ensures (x + y)[|x| + i..|x| + i + n] == y[i..i + n]
  {
  }
}
