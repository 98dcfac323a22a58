/** From a pool job to a work item and back to the pool: assembling the stage messages
    (miner/sia_stratum.c), the work source around them (miner/worksrc_stratum.c), and the
    header the pool rebuilds from a share (zynq/sia_reference.py, zynq/stratum_test_server.py). */
module Stratum {
  import opened Words
  import opened Blake2b
  import opened Pipeline
  import opened Cores
  import opened HostCheck
  import opened Notify
  import opened Serial
  import opened WorkItem
  import Targets

  const MAX_EN1: nat := 32

  type Extranonce1 = b: seq<Byte> | |b| <= MAX_EN1 witness []

  /** What the pool has told this session; en2Size 0 means it was never told. */
  datatype Session = Session(en1: Extranonce1, en2Size: nat, job: Job, jobSeq: nat, dscaled: U64) {
    predicate Valid() { en2Size <= MAX_EN2 }
    function En2Len(): nat { if en2Size == 0 then 8 else en2Size }
  }

  // ---------------------------------------------------------------- what the pool computes

  function ArbitraryTx(job: Job, en1: seq<Byte>, en2: seq<Byte>): (tx: seq<Byte>)
    ensures |tx| == |job.coinb1| + |en1| + |en2| + |job.coinb2|
  {
    job.coinb1 + en1 + en2 + job.coinb2
  }

  function Leaf(arbtx: seq<Byte>): Bytes32
    requires |arbtx| + 1 < TWO64
  {
    Hash([0] + arbtx, 32)
  }

  /** Fold of the branch: the accumulator is always the right child. */
  function Root(branches: seq<Bytes32>, leaf: Bytes32): Bytes32 {
    if branches == [] then leaf
    else Hash([1] + branches[|branches| - 1] + Root(branches[..|branches| - 1], leaf), 32)
  }

  /** Root of a job with the miner's extranonce2 in it. */
  function JobRoot(job: Job, en1: seq<Byte>, en2: seq<Byte>): Bytes32
    requires |en1| + |en2| <= 2 * MAX_CB
  {
    hide Hash;
    Root(job.branches, Leaf(ArbitraryTx(job, en1, en2)))
  }

  function RebuiltHeader(job: Job, en1: seq<Byte>, en2: seq<Byte>, ntime: Bytes8, nonce: Bytes8): Ss4
    requires |en1| + |en2| <= 2 * MAX_CB
  {
    hide JobRoot;
    job.prevhash + nonce + ntime + JobRoot(job, en1, en2)
  }

  /** The pool's compare value: the digest read as a number, least significant byte first for
      Knots and most significant first for Siacoin. */
  function PoolValue(rule: Rule, header: Ss4): nat {
    var d := Hash(header, 32);
    if rule.Knots? then LE(d) else BE(d)
  }

  // ---------------------------------------------------------------- what the host does

  /** sia_arbtx, into a buffer of maxlen bytes. */
  method ArbTx(job: Job, en1: seq<Byte>, en2: seq<Byte>, maxlen: nat) returns (out: Option<seq<Byte>>)
    ensures out == if |ArbitraryTx(job, en1, en2)| > maxlen then None else Some(ArbitraryTx(job, en1, en2))
  {
    var need := |job.coinb1| + |en1| + |en2| + |job.coinb2|;
    if need > maxlen {
      return None;
    }
    var buf := new Byte[need](_ => 0);
    var o := 0;
    Copy(buf, o, job.coinb1);
    o := o + |job.coinb1|;
    assert buf[..o] == job.coinb1;
    Copy(buf, o, en1);
    o := o + |en1|;
    assert buf[..o] == job.coinb1 + en1;
    Copy(buf, o, en2);
    o := o + |en2|;
    assert buf[..o] == job.coinb1 + en1 + en2;
    Copy(buf, o, job.coinb2);
    assert buf[..] == ArbitraryTx(job, en1, en2);
    out := Some(buf[..]);
  }

  /** sia_merkle_root */
  method MerkleRoot(branches: Branches, leaf: Bytes32) returns (root: Bytes32)
    ensures root == Root(branches, leaf)
  {
    hide Hash;
    var acc := leaf;
    for i := 0 to |branches|
      invariant acc == Root(branches[..i], leaf)
    {
      assert branches[..i + 1][..i] == branches[..i];
      var step := [1] + branches[i] + acc;
      acc := Blake2bNoKey(step, 32);
    }
    assert branches[..|branches|] == branches;
    root := acc;
  }

  /** The 80 bytes both chains hash, nonce slot zero. */
  function Message4(job: Job, root: Bytes32): Ss4 {
    job.prevhash + Zeros(8) + job.ntime + root
  }

  /** memset and three memcpy of sia_build_stages and sia_build_header. */
  method FillMessage(job: Job, root: Bytes32) returns (ss4: Ss4)
    ensures ss4 == Message4(job, root)
  {
    var buf := new Byte[80](_ => 0);
    assert buf[..] == Zeros(80);
    Copy(buf, 0, job.prevhash);
    ghost var first := buf[..];
    assert first == job.prevhash + Zeros(48);
    assert first[..40] == job.prevhash + Zeros(8) && first[48..] == Zeros(32);
    Copy(buf, 40, job.ntime);
    assert buf[..] == job.prevhash + Zeros(8) + job.ntime + Zeros(32);
    Copy(buf, 48, root);
    ss4 := buf[..];
  }

  /** ss3, ss4 and the root; None stands for the error return. */
  function Stages(job: Job, en1: seq<Byte>, en2: seq<Byte>): Option<(Ss3, Ss4)>
    requires |en1| + |en2| <= 2 * MAX_CB
  {
    hide JobRoot, Message4;
    var arbtx := ArbitraryTx(job, en1, en2);
    if |arbtx| + 1 != STAGE3_LEN then None
    else Some(([0] + arbtx, Message4(job, JobRoot(job, en1, en2))))
  }

  /** sia_build_stages: only an arbitrary transaction of 51 bytes fits the chip. */
  method BuildStages(job: Job, en1: seq<Byte>, en2: seq<Byte>) returns (r: Option<(Ss3, Ss4)>)
    requires |en1| + |en2| <= 2 * MAX_CB
    ensures r == Stages(job, en1, en2)
  {
    hide Hash, Root, Message4;
    var arbtx := ArbTx(job, en1, en2, 4 * MAX_CB);
    if arbtx.None? {
      return None;
    }
    if |arbtx.value| + 1 != STAGE3_LEN {
      return None;
    }
    var ss3: Ss3 := [0] + arbtx.value;
    var leaf := Blake2bNoKey([0] + arbtx.value, 32);
    var root := MerkleRoot(job.branches, leaf);
    var ss4 := FillMessage(job, root);
    r := Some((ss3, ss4));
  }

  /** sia_build_header: any length will do. */
  method BuildHeader(job: Job, en1: seq<Byte>, en2: seq<Byte>) returns (header: Ss4)
    requires |en1| + |en2| <= 2 * MAX_CB
    ensures header == Message4(job, JobRoot(job, en1, en2))
  {
    hide Hash, Root, Message4;
    var arbtx := ArbTx(job, en1, en2, 4 * MAX_CB);
    var leaf := Blake2bNoKey([0] + arbtx.value, 32);
    var root := MerkleRoot(job.branches, leaf);
    header := FillMessage(job, root);
  }

  // ---------------------------------------------------------------- the work source

  /** g_cur: what the item last built was built from. */
  datatype Current = Current(jobId: string, en2: seq<Byte>, ntime: Bytes8, target: Bytes32, jobSeq: nat)

  /** The answer about a candidate: the word does not reproduce, or it does, and this is what was
      written to the pool. It is a solution when the line went out. */
  datatype Verdict = Bad | Reproduced(solution: bool, share: Option<Share>)

  /** The extranonce2 of counter value c: big-endian in the low bytes, zero above. */
  function En2Of(c: U64, len: nat): (b: seq<Byte>)
    ensures |b| == len
  {
    ToBE(c, len)
  }

  /** The jobs a chip can take: the Knots chip hashes exactly 52 bytes in stage 3 and folds no
      branch, the Siacoin chip takes any. */
  predicate Fits(rule: Rule, s: Session) {
    rule.Knots? ==> s.job.branches == [] && |s.job.coinb1| + |s.en1| + s.En2Len() + |s.job.coinb2| == 51
  }

  /** Everything build_from decides, for the counter value it has just reached. */
  function Built(rule: Rule, s: Session, c: U64): Option<(Ss3, Ss4)>
    requires s.Valid()
  {
    var en2 := En2Of(c, s.En2Len());
    if rule.Sia? then Some((Zeros(STAGE3_LEN), Message4(s.job, JobRoot(s.job, s.en1, en2))))
    else if s.job.branches != [] then None
    else Stages(s.job, s.en1, en2)
  }

  /** The record of a build. */
  predicate Records(s: Session, c: U64, cur: Current)
    requires s.Valid()
  {
    && cur.jobId == s.job.id && cur.en2 == En2Of(c, s.En2Len()) && cur.ntime == s.job.ntime && cur.jobSeq == s.jobSeq
    && BE(cur.target) == Targets.HostTarget(s.dscaled)
  }

  /** A candidate that meets the recorded target. */
  predicate Solves(rule: Rule, ss4: Ss4, cur: Current, nonce: U64) {
    BE(CompareBytes(rule, ss4, nonce)) <= BE(cur.target)
  }

  /** The share written for it. */
  function ShareFor(cur: Current, id: nat, worker: string, nonce: U64): Share {
    Share(id, worker, cur.jobId, cur.en2, cur.ntime, ToLE(nonce, 8))
  }

  class StratumSource {
    const rule: Rule
    var counter: U64
    var cur: Option<Current>
    var lastId: nat

    constructor (rule: Rule)
      ensures this.rule == rule && counter == 0 && cur == None && lastId == 0
    {
      this.rule := rule;
      counter, cur, lastId := 0, None, 0;
    }

    /** build_from */
    method BuildFrom(s: Session) returns (w: Option<WorkCtx>)
      requires s.Valid()
      modifies this`counter, this`cur
      ensures counter == Add(old(counter), 1)
      ensures match Built(rule, s, counter)
              case None => w == None && cur == old(cur)
              case Some(stages) =>
                && w.Some? && w.value.ss3 == stages.0 && w.value.ss4 == stages.1
                && w.value.targetTop64 as nat == Targets.HostTarget(s.dscaled) / TWO192
                && cur.Some? && Records(s, counter, cur.value)
    {
      hide Root, Leaf, Message4, BE;
      counter := Add(counter, 1);
      var en2Len := if s.en2Size != 0 then s.en2Size else 8;
      var en2 := RollEn2(counter, en2Len);
      var ss3: Ss3, ss4: Ss4 := Zeros(STAGE3_LEN), Zeros(80);
      if rule.Sia? {
        ss4 := BuildHeader(s.job, s.en1, en2);
      } else {
        var stages := BuildStages(s.job, s.en1, en2);
        if stages.None? {
          return None;
        }
        ss3, ss4 := stages.value.0, stages.value.1;
        if |s.job.branches| != 0 {
          return None;
        }
      }
      var top := Targets.TargetTop64(s.dscaled);
      var target := Targets.TargetFull(s.dscaled);
      w := Some(WorkCtx(ss3, ss4, top));
      cur := Some(Current(s.job.id, en2, s.job.ntime, target, s.jobSeq));
    }

    /** st_on_candidate, with the latest state of the session the item was built for. connected
        says whether that session has a socket, delivered whether writing to it succeeds. */
    method OnCandidate(w: WorkCtx, nonce: U64, hashTop64: U64, latest: Session, worker: string,
                       connected: bool, delivered: bool)
      returns (v: Verdict)
      requires cur.Some? ==> |cur.value.en2| <= MAX_EN2
      modifies this`lastId
      ensures v.Bad? <==> hashTop64 != ByteSwap(DigestWord(rule, HeaderOf(w.ss4), nonce))
      ensures v.Reproduced? && v.share.Some? <==>
                && hashTop64 == ByteSwap(DigestWord(rule, HeaderOf(w.ss4), nonce))
                && cur.Some? && Solves(rule, w.ss4, cur.value, nonce)
                && (cur.value.jobSeq == latest.jobSeq || !latest.job.clean) && connected
      ensures v.Reproduced? && v.share.Some? ==>
                v.share.value == ShareFor(cur.value, old(lastId) + 1, worker, nonce)
      ensures v.Reproduced? ==> (v.solution <==> v.share.Some? && delivered)
      ensures lastId == old(lastId) + if v.Reproduced? && v.share.Some? then 1 else 0
    {
      hide DigestWord, CompareBytes, BE, ByteSwap, HeaderOf, ToLE;
      var expected := ExpectedTop64(rule, w.ss4, nonce);
      if expected != hashTop64 {
        return Bad;
      }
      if cur.None? {
        return Reproduced(false, None);
      }
      var pow := PowCompare(rule, w.ss4, nonce);
      var meets := HashMeetsTarget(pow, cur.value.target);
      if !meets {
        return Reproduced(false, None);
      }
      if cur.value.jobSeq != latest.jobSeq && latest.job.clean {
        return Reproduced(false, None);
      }
      var nb := NonceBytes(nonce);
      if !connected {
        return Reproduced(false, None);
      }
      lastId := lastId + 1;
      v := Reproduced(delivered, Some(Share(lastId, worker, cur.value.jobId, cur.value.en2, cur.value.ntime, nb)));
    }
  }

  /** The loop that stores the counter big-endian at the end of the extranonce2. */
  method RollEn2(c: U64, len: nat) returns (en2: seq<Byte>)
    ensures en2 == En2Of(c, len)
  {
    hide ToBE, Pow2;
    var a := new Byte[len](_ => 0);
    var i := 0;
    while i < 8 && i < len
      invariant i <= 8 && i <= len
      invariant forall k :: 0 <= k < len ==> a[k] == if k < len - i then 0 else ToBE(c, len)[k]
    {
      CounterByte(c, len, i);
      a[len - 1 - i] := c / Pow2(8 * i) % 256;
      i := i + 1;
    }
    forall k | 0 <= k < len - i
      ensures ToBE(c, len)[k] == 0
    {
      HighByteZero(c, len, len - 1 - k);
    }
    assert a[..] == ToBE(c, len);
    en2 := a[..];
  }

  lemma CounterByte(c: U64, len: nat, i: nat)
    requires i < len
    ensures c / Pow2(8 * i) % 256 == ToBE(c, len)[len - 1 - i]
  {
    hide ToBE;
    BEAt(c, len, i);
    Pow256IsPow2(i);
  }

  lemma HighByteZero(c: U64, len: nat, j: nat)
    requires 8 <= j < len
    ensures ToBE(c, len)[len - 1 - j] == 0
  {
    hide ToBE, Pow256;
    BEAt(c, len, j);
    Pow256Values();
    Pow256Monotone(8, j);
    QuotientUnique(c, Pow256(j), 0, c);
  }

  method NonceBytes(nonce: U64) returns (nb: Bytes8)
    ensures nb == ToLE(nonce, 8)
  {
    hide ToLE;
    var a := new Byte[8];
    for i := 0 to 8
      invariant forall k :: 0 <= k < i ==> a[k] == ToLE(nonce, 8)[k]
    {
      ShiftByte(nonce, i);
      a[i] := nonce / Pow2(8 * i) % 256;
    }
    assert a[..] == ToLE(nonce, 8);
    nb := a[..];
  }

  // ---------------------------------------------------------------- agreement

  /** An item is built exactly for the jobs that fit, whatever the counter. */
  lemma BuiltIffFits(rule: Rule, s: Session, c: U64)
    requires s.Valid()
    ensures Built(rule, s, c).Some? <==> Fits(rule, s)
  {
    hide JobRoot, Message4;
  }

  /** Filling in the nonce slot completes the pool's header. */
  lemma NonceCompletes(job: Job, root: Bytes32, nonce: U64)
    ensures WithNonce(Message4(job, root), nonce) == job.prevhash + ToLE(nonce, 8) + job.ntime + root
  {
    hide ToLE;
  }

  /** Host and pool hash the same 80 bytes: the header rebuilt from the job, the extranonces,
      the time and the nonce of a share is the one the host graded. */
  lemma HeaderAgreement(rule: Rule, s: Session, c: U64, nonce: U64)
    requires s.Valid() && Fits(rule, s)
    ensures Built(rule, s, c).Some?
    ensures RebuiltHeader(s.job, s.en1, En2Of(c, s.En2Len()), s.job.ntime, ToLE(nonce, 8))
         == WithNonce(Built(rule, s, c).value.1, nonce)
  {
    hide ToLE, JobRoot, WithNonce, Message4, ArbitraryTx;
    BuiltIffFits(rule, s, c);
    NonceCompletes(s.job, JobRoot(s.job, s.en1, En2Of(c, s.En2Len())), nonce);
  }

  /** and compute the same 256-bit value from it. */
  lemma ValueAgreement(rule: Rule, ss4: Ss4, nonce: U64)
    ensures PoolValue(rule, WithNonce(ss4, nonce)) == BE(CompareBytes(rule, ss4, nonce))
  {
    hide Hash, LE, BE, WithNonce;
    BEReverse(Hash(WithNonce(ss4, nonce), 32));
  }

  /** A job accepted for the Knots chip carries no branch, and its stage-4 message holds the
      BLAKE2b digest of its stage-3 message. */
  lemma KnotsRootIsStage3(s: Session, c: U64)
    requires s.Valid() && Fits(Knots, s)
    ensures Built(Knots, s, c).Some?
    ensures var (ss3, ss4) := Built(Knots, s, c).value;
            ss4[48..] == Hash(ss3, 32) && ss3[0] == 0
  {
    hide Hash;
    BuiltIffFits(Knots, s, c);
  }

  /** So for every such job the chip without stage 3 feeds its core the message the chip with
      stage 3 would, and either hashes the header the host put together. */
  lemma KnotsJobMayBypass(s: Session, c: U64, target: U64, run: seq<Stage3>, ins: seq<Header>, t: nat, n: U64)
    requires s.Valid() && Built(Knots, s, c).Some?
    requires var w := WorkCtx(Built(Knots, s, c).value.0, Built(Knots, s, c).value.1, target);
             && Stage3Runs(run, ins) && t + 97 <= |ins|
             && forall u :: t <= u < t + 97 ==> ins[u] == Stage3In(BitsOf(Item(Knots, w)))
    ensures var w := WorkCtx(Built(Knots, s, c).value.0, Built(Knots, s, c).value.1, target);
            var slots := MessageSlots(Knots, BitsOf(Item(Knots, w)));
            && Compose(slots, OnChip(run[t + 97])) == Compose(slots, Bypassed(slots))
            && Compose(slots, OnChip(run[t + 97]))[NONCE_WORD := n] == HeaderOf(WithNonce(w.ss4, n))
  {
    hide Built, MessageSlots, Stage3In, Stage3Runs, OnChip, Compose, Item, Bypassed, Hash, HeaderOf, WithNonce;
    BuiltIffFits(Knots, s, c);
    KnotsRootIsStage3(s, c);
    var w := WorkCtx(Built(Knots, s, c).value.0, Built(Knots, s, c).value.1, target);
    BypassEquivalent(w, run, ins, t, n);
    NonceIsWord4(w.ss4, n);
  }

  /** A member of an object by key; the last one counts when a key is repeated. */
  function Field(members: Json.Members, key: string): Option<Json.Value> {
    match members
    case NoMember => None
    case Member(_, k, _, _, v, _, rest) =>
      match Field(rest, key)
      case Some(w) => Some(w)
      case None => if k == key then Some(v) else None
  }

  /** The text of string element i of an array. */
  function RawAt(v: Json.Value, i: nat): Option<string> {
    if v.Array? && i < Json.Length(v.items) && Json.Nth(v.items, i).Text? then Some(Json.Nth(v.items, i).raw) else None
  }

  /** String element i as the hex of n bytes. */
  function HexAt(v: Json.Value, i: nat, n: nat): (r: Option<seq<Byte>>)
    ensures r.Some? ==> |r.value| == n
  {
    match RawAt(v, i)
    case None => None
    case Some(t) => if |t| == 2 * n then HexBytes(t) else None
  }

  /** The share as the pool reads it off the value of the line: job id, extranonce2, time and
      nonce, each of the width it demands. */
  function ReadShare(v: Json.Value, en2Len: nat): Option<(string, seq<Byte>, Bytes8, Bytes8)> {
    if !v.Object? || Field(v.members, "params").None? then None
    else
      var params := Field(v.members, "params").value;
      var id, en2, ntime, nonce := RawAt(params, 1), HexAt(params, 2, en2Len), HexAt(params, 3, 8), HexAt(params, 4, 8);
      if id.None? || en2.None? || ntime.None? || nonce.None? then None
      else Some((id.value, en2.value, ntime.value, nonce.value))
  }

  lemma {:induction false} FieldStrips(members: Json.Members, key: string)
    ensures var f, g := Field(members, key), Field(Json.StripMembers(members), key);
            f.None? == g.None? && (f.Some? ==> g.value == Json.Strip(f.value))
  {
    hide Json.Strip;
    match members
    case NoMember =>
    case Member(_, k, _, _, v, _, rest) => FieldStrips(rest, key);
  }

  lemma {:induction false} NthStrips(items: Json.Items, i: nat)
    ensures Json.Length(Json.StripItems(items)) == Json.Length(items)
    ensures i < Json.Length(items) ==> Json.Nth(Json.StripItems(items), i) == Json.Strip(Json.Nth(items, i))
  {
    hide Json.Strip;
    match items
    case NoItem =>
    case Item(_, v, _, rest) => NthStrips(rest, if i > 0 then i - 1 else 0);
  }

  lemma RawStrips(v: Json.Value, i: nat)
    ensures RawAt(Json.Strip(v), i) == RawAt(v, i)
  {
    hide Json.Nth, Json.Length, Json.StripItems;
    if v.Array? { NthStrips(v.items, i); }
  }

  /** White space makes no difference to the reading. */
  lemma ReadShareStrips(v: Json.Value, en2Len: nat)
    ensures ReadShare(Json.Strip(v), en2Len) == ReadShare(v, en2Len)
  {
    hide RawAt, Json.Strip, Json.StripMembers, HexBytes, Field;
    StripKinds(v);
    if v.Object? {
      FieldStrips(v.members, "params");
      if Field(v.members, "params").Some? {
        var params := Field(v.members, "params").value;
        RawStrips(params, 1);
        RawStrips(params, 2);
        RawStrips(params, 3);
        RawStrips(params, 4);
      }
    }
  }

  lemma StripKinds(v: Json.Value)
    ensures Json.Strip(v).Object? == v.Object?
    ensures v.Object? ==> Json.Strip(v).members == Json.StripMembers(v.members)
  {
  }

  lemma HexFieldReads(x: Share, i: nat, b: seq<Byte>)
    requires i < 5 && Params(x)[i] == Hex(b)
    ensures HexAt(SubmitParams(x), i, |b|) == Some(b)
  {
    hide Hex, Json.Nth, Json.Length, HexBytes, Lower;
    NthOf(Params(x), i);
    HexIsLower(b);
    HexExact(Hex(b), b);
  }

  lemma ParamsField(x: Share)
    ensures Field(SubmitMembers(x), "params") == Some(SubmitParams(x))
  {
    hide SubmitParams, Decimal;
    var last := Json.Member("", "params", "", "", SubmitParams(x), "", Json.NoMember);
    var middle := Json.Member("", "method", "", "", Json.Text("mining.submit"), "", last);
    assert Field(Json.NoMember, "params") == None;
    assert Field(last, "params") == Some(SubmitParams(x));
    assert Field(middle, "params") == Some(SubmitParams(x));
  }

  /** Whatever JSON reader the pool uses, it reads back what was submitted. */
  lemma ReadShareUndoes(x: Share, line: Json.CString, before: string, v: Json.Value, after: string)
    requires Json.StringText(x.worker) && Json.StringText(x.jobId)
    requires line == SubmitLine(x) && Json.Denotes(line, before, v, after)
    ensures ReadShare(v, |x.en2|) == Some((x.jobId, x.en2, x.ntime, x.nonce))
  {
    hide SubmitLine, Json.Denotes, Json.StringText, ReadShare, Json.Strip;
    SubmitDenotes(x);
    Json.OneReading(line, before, v, after, "", SubmitValue(x), "\n");
    ReadShareStrips(v, |x.en2|);
    ReadShareStrips(SubmitValue(x), |x.en2|);
    OwnValueReads(x);
  }

  /** The line denotes its fields. */
  lemma SubmitDenotes(x: Share)
    requires Json.StringText(x.worker) && Json.StringText(x.jobId)
    ensures Json.Denotes(SubmitLine(x), "", SubmitValue(x), "\n")
  {
    hide SubmitLine, Json.Print, Json.StringText, SubmitValue, Json.WellFormed;
    PrintsSubmit(x);
    SubmitWellFormed(x);
    assert "" + Json.Print(SubmitValue(x)) + "\n" == Json.Print(SubmitValue(x)) + "\n";
  }

  lemma OwnValueReads(x: Share)
    ensures ReadShare(SubmitValue(x), |x.en2|) == Some((x.jobId, x.en2, x.ntime, x.nonce))
  {
    hide HexAt, Hex, Field, SubmitParams, SubmitMembers;
    ParamsField(x);
    IdReads(x);
    HexFieldReads(x, 2, x.en2);
    HexFieldReads(x, 3, x.ntime);
    HexFieldReads(x, 4, x.nonce);
  }

  lemma IdReads(x: Share)
    ensures RawAt(SubmitParams(x), 1) == Some(x.jobId)
  {
    hide Hex, Json.Nth, Json.Length;
    NthOf(Params(x), 1);
  }

  /** What any reader finds in a submit line, worker included. */
  ghost predicate Conveys(v: Json.Value, x: Share) {
    && ReadShare(v, |x.en2|) == Some((x.jobId, x.en2, x.ntime, x.nonce))
    && RawAt(Field(v.members, "params").value, 0) == Some(x.worker)
  }

  lemma {:induction false} FieldWellFormed(members: Json.Members, key: string)
    requires Json.MembersWellFormed(members) && Field(members, key).Some?
    ensures Json.WellFormed(Field(members, key).value)
  {
    hide Json.StringText, Json.AllWs;
    if Field(members.rest, key).Some? { FieldWellFormed(members.rest, key); }
  }

  lemma RawIsText(v: Json.Value, i: nat)
    requires Json.WellFormed(v) && RawAt(v, i).Some?
    ensures Json.StringText(RawAt(v, i).value)
  {
    hide Json.StringText, Json.AllWs;
    NthWellFormed(v.items, i);
  }

  lemma OwnWorker(x: Share)
    ensures Field(SubmitMembers(x), "params") == Some(SubmitParams(x)) && RawAt(SubmitParams(x), 0) == Some(x.worker)
  {
    hide Hex, Decimal;
    NthOf(Params(x), 0);
    var last := Json.Member("", "params", "", "", SubmitParams(x), "", Json.NoMember);
    assert Field(last, "params") == Some(SubmitParams(x));
    assert Field(Json.Member("", "method", "", "", Json.Text("mining.submit"), "", last), "params") == Some(SubmitParams(x));
  }

  /** Exactly when the line conveys the share: worker and job id are printed as they are, so both
      must be JSON string contents already. */
  lemma SubmitConveysIff(x: Share)
    ensures (exists before: string, v: Json.Value, after: string ::
               Json.Denotes(SubmitLine(x), before, v, after) && Conveys(v, x))
       <==> Json.StringText(x.worker) && Json.StringText(x.jobId)
  {
    hide SubmitLine, SubmitMembers, Json.Print, Json.StringText, ReadShare, RawAt, Json.MembersWellFormed;
    if Json.StringText(x.worker) && Json.StringText(x.jobId) {
      SubmitDenotes(x);
      OwnValueReads(x);
      OwnWorker(x);
      assert Json.Denotes(SubmitLine(x), "", SubmitValue(x), "\n") && Conveys(SubmitValue(x), x);
    }
    forall before: string, v: Json.Value, after: string | Json.Denotes(SubmitLine(x), before, v, after) && Conveys(v, x)
      ensures Json.StringText(x.worker) && Json.StringText(x.jobId)
    {
      ConveysText(v, x);
    }
  }

  lemma ConveysText(v: Json.Value, x: Share)
    requires Json.WellFormed(v) && Conveys(v, x)
    ensures Json.StringText(x.worker) && Json.StringText(x.jobId)
  {
    hide Json.StringText, HexAt, RawAt;
    FieldWellFormed(v.members, "params");
    RawIsText(Field(v.members, "params").value, 0);
    RawIsText(Field(v.members, "params").value, 1);
  }

  /** A share for a job read off a printed announcement reaches the pool exactly when the worker
      name is string contents and the announced job id holds no quote. js_str cuts the id there. */
  lemma JobComesBackIff(v: Json.Value, job: Job, x: Share)
    requires Json.WellFormed(v) && ReadAs(v, job) && x.jobId == job.id
    ensures (exists before: string, w: Json.Value, after: string ::
               Json.Denotes(SubmitLine(x), before, w, after) && Conveys(w, x))
       <==> Json.StringText(x.worker) && '"' !in Json.Nth(v.items, 0).raw
    ensures '"' !in Json.Nth(v.items, 0).raw <==> job.id == Json.Nth(v.items, 0).raw
  {
    hide SubmitLine, Json.Denotes, Conveys, Json.StringText, Spells, AnnouncesBranches, ToLE, BeginsTrue, Json.Nth,
      Json.Length, UpToQuote, Json.ItemsWellFormed;
    ItemWellFormed(v, 0);
    CutIsText(Json.Nth(v.items, 0).raw);
    SubmitConveysIff(x);
  }

  /** The pool's grading of a share for a job of this session: it rebuilds the header from its
      own copy of the job. */
  predicate PoolAccepts(rule: Rule, s: Session, v: Json.Value, poolTarget: nat)
    requires s.En2Len() <= MAX_EN2
  {
    hide ReadShare, RebuiltHeader, PoolValue;
    match ReadShare(v, s.En2Len())
    case None => false
    case Some((id, en2, ntime, nonce)) =>
      id == s.job.id && |en2| <= MAX_EN2 && PoolValue(rule, RebuiltHeader(s.job, s.en1, en2, ntime, nonce)) <= poolTarget
  }

  /** A share end to end: the pool, reading the submitted line as any JSON text and rebuilding
      the header from the job, accepts exactly when the value the host compared is within the
      pool's target. */
  lemma ShareIsGraded(rule: Rule, s: Session, c: U64, nonce: U64, poolTarget: nat, x: Share, line: Json.CString,
                      before: string, v: Json.Value, after: string)
    requires s.Valid() && Fits(rule, s)
    requires x.jobId == s.job.id && x.en2 == En2Of(c, s.En2Len()) && x.ntime == s.job.ntime && x.nonce == ToLE(nonce, 8)
    requires Json.StringText(x.worker) && Json.StringText(x.jobId)
    requires line == SubmitLine(x) && Json.Denotes(line, before, v, after)
    ensures Built(rule, s, c).Some?
    ensures PoolAccepts(rule, s, v, poolTarget)
       <==> BE(CompareBytes(rule, Built(rule, s, c).value.1, nonce)) <= poolTarget
  {
    hide Built, ToLE, CompareBytes, BE, RebuiltHeader, PoolValue, SubmitLine, ReadShare, WithNonce, ToBE, Json.StringText,
      Json.Denotes;
    ReadShareUndoes(x, line, before, v, after);
    HeaderAgreement(rule, s, c, nonce);
    ValueAgreement(rule, Built(rule, s, c).value.1, nonce);
  }

  /** What OnCandidate does with a candidate of its own build is right: a share it submits is
      accepted by a pool that divides exactly, and one it withholds although that pool would
      have taken it lies less than 2^32 above the host's target, where the host's own division
      is exact. */
  lemma SubmittedIsAccepted(rule: Rule, s: Session, c: U64, cur: Current, nonce: U64, id: nat, worker: string,
                            line: Json.CString, before: string, v: Json.Value, after: string)
    requires s.Valid() && Fits(rule, s) && Records(s, c, cur)
    requires Json.StringText(worker) && Json.StringText(cur.jobId)
    requires line == SubmitLine(ShareFor(cur, id, worker, nonce)) && Json.Denotes(line, before, v, after)
    ensures Built(rule, s, c).Some?
    ensures var ss4 := Built(rule, s, c).value.1;
            var accepted := PoolAccepts(rule, s, v, Targets.PoolTarget(s.dscaled));
            && (Solves(rule, ss4, cur, nonce) ==> accepted)
            && (!Solves(rule, ss4, cur, nonce) && accepted
                && Targets.HostTarget(s.dscaled) == Targets.TargetValue(s.dscaled) ==>
                  BE(CompareBytes(rule, ss4, nonce)) < BE(cur.target) + TWO32)
  {
    hide Built, Fits, CompareBytes, PoolAccepts, SubmitLine, BE, ToLE, Json.StringText, Json.Denotes, Targets.PoolTarget,
      Targets.HostTarget, Targets.TargetValue, En2Of;
    ShareIsGraded(rule, s, c, nonce, Targets.PoolTarget(s.dscaled), ShareFor(cur, id, worker, nonce), line, before, v, after);
    Targets.HostNearPool(s.dscaled);
  }

  // ---------------------------------------------------------------- rolling the extranonce

  /** The counter's low bytes are the extranonce2: two counters give the same one exactly when
      they agree modulo 256^len. */
  lemma {:induction false} En2Same(c: nat, d: nat, len: nat)
    ensures ToBE(c, len) == ToBE(d, len) <==> c % Pow256(len) == d % Pow256(len)
  {
    if len > 0 {
      En2Same(c / 256, d / 256, len - 1);
      LastByte(c, d, Pow256(len - 1));
      var x, y := ToBE(c, len), ToBE(d, len);
      assert x[..len - 1] == ToBE(c / 256, len - 1) && y[..len - 1] == ToBE(d / 256, len - 1);
      assert x[len - 1] == c % 256 && y[len - 1] == d % 256;
    }
  }

  lemma LastByte(c: nat, d: nat, p: nat)
    requires p > 0
    ensures c % (256 * p) == d % (256 * p) <==> c % 256 == d % 256 && (c / 256) % p == (d / 256) % p
  {
    SplitMod(c, p);
    SplitMod(d, p);
  }

  lemma SplitMod(c: nat, p: nat)
    requires p > 0
    ensures c % (256 * p) == 256 * ((c / 256) % p) + c % 256
  {
    var q, r := c / 256 / p, (c / 256) % p;
    assert c / 256 == p * q + r;
    Associate(256, p, q);
    assert c == 256 * (p * q) + 256 * r + c % 256;
    QuotientUnique(c, 256 * p, q, 256 * r + c % 256);
  }

  /** Two items built for one job search different spaces, that is they hash different arbitrary
      transactions, exactly when their counters differ modulo 256^len. */
  lemma PushesDiffer(s: Session, c: U64, d: U64)
    requires s.Valid()
    ensures ArbitraryTx(s.job, s.en1, En2Of(c, s.En2Len())) == ArbitraryTx(s.job, s.en1, En2Of(d, s.En2Len()))
       <==> c % Pow256(s.En2Len()) == d % Pow256(s.En2Len())
  {
    hide ToBE, Pow256;
    var len := s.En2Len();
    En2Same(c, d, len);
    MiddleSame(s.job.coinb1 + s.en1, En2Of(c, len), En2Of(d, len), s.job.coinb2);
  }

  lemma MiddleSame(a: seq<Byte>, x: seq<Byte>, y: seq<Byte>, b: seq<Byte>)
    requires |x| == |y|
    ensures a + x + b == a + y + b <==> x == y
  {
    if a + x + b == a + y + b {
      assert x == (a + x + b)[|a|..|a| + |x|];
      assert y == (a + y + b)[|a|..|a| + |x|];
    }
  }
}
