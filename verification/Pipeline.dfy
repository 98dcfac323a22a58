/** The unrolled BLAKE2b pipeline of the mining cores: rotated lanes in place of indexed
    diagonals, and four-clock mixers whose operands arrive at different clocks. */
module Pipeline {
  import opened Words
  import opened Blake2b

  // ---------------------------------------------------------------- rotated lanes

  type Quad = q: seq<U64> | |q| == 4 witness seq(4, _ => 0)

  datatype Lanes = Lanes(a: Quad, b: Quad, c: Quad, d: Quad)

  function Flat(l: Lanes): Work { l.a + l.b + l.c + l.d }

  /** Lane k takes what lane k + n held. */
  function Rotate(q: Quad, n: nat): Quad
    requires n < 4
  {
    q[n..] + q[..n]
  }

  function MixLane(l: Lanes, x: Quad, y: Quad, j: nat): Mixed
    requires j < 4
  {
    Mix(l.a[j], l.b[j], l.c[j], l.d[j], x[j], y[j])
  }

  /** One quad-mixer: G on each of the four lanes. */
  function QuadMix(l: Lanes, x: Quad, y: Quad): Lanes {
    hide MixLane;
    var r0, r1, r2, r3 := MixLane(l, x, y, 0), MixLane(l, x, y, 1), MixLane(l, x, y, 2), MixLane(l, x, y, 3);
    Lanes([r0.a, r1.a, r2.a, r3.a], [r0.b, r1.b, r2.b, r3.b], [r0.c, r1.c, r2.c, r3.c], [r0.d, r1.d, r2.d, r3.d])
  }

  function Picked(m: Message, s: Row, first: nat): Quad
    requires first <= 9
  {
    [m[s[first]], m[s[first + 2]], m[s[first + 4]], m[s[first + 6]]]
  }

  /** A round as the cores wire it: mix, rotate B, C, D by 1, 2, 3, mix again, rotate back. */
  function LaneRound(l: Lanes, m: Message, s: Row): Lanes {
    var u := QuadMix(l, Picked(m, s, 0), Picked(m, s, 1));
    var w := QuadMix(Lanes(u.a, Rotate(u.b, 1), Rotate(u.c, 2), Rotate(u.d, 3)),
                     Picked(m, s, 8), Picked(m, s, 9));
    Lanes(w.a, Rotate(w.b, 3), Rotate(w.c, 2), Rotate(w.d, 1))
  }

  function LaneRounds(l: Lanes, m: Message, n: nat): Lanes {
    if n == 0 then l else LaneRound(LaneRounds(l, m, n - 1), m, Schedule(n - 1))
  }

  /** Column step, lane by lane: the four indexed calls touch disjoint positions. */
  lemma ColumnLane(v: Work, m: Message, s: Row, j: nat)
    requires j < 4
    ensures var r := Mix(v[j], v[4 + j], v[8 + j], v[12 + j], m[s[2 * j]], m[s[2 * j + 1]]);
            var u := Columns(v, m, s);
            u[j] == r.a && u[4 + j] == r.b && u[8 + j] == r.c && u[12 + j] == r.d
  {
    hide Mix;
  }

  /** Diagonal step, lane by lane. */
  lemma DiagonalLane(v: Work, m: Message, s: Row, j: nat)
    requires j < 4
    ensures var r := Mix(v[j], v[4 + (j + 1) % 4], v[8 + (j + 2) % 4], v[12 + (j + 3) % 4],
                         m[s[2 * j + 8]], m[s[2 * j + 9]]);
            var u := Diagonals(v, m, s);
            u[j] == r.a && u[4 + (j + 1) % 4] == r.b && u[8 + (j + 2) % 4] == r.c && u[12 + (j + 3) % 4] == r.d
  {
    hide Mix;
  }

  lemma LaneRoundIsRound(l: Lanes, m: Message, s: Row)
    ensures Flat(LaneRound(l, m, s)) == Diagonals(Columns(Flat(l), m, s), m, s)
  {
    hide Mix, Columns, Diagonals, QuadMix, Flat;
    var u := Columns(Flat(l), m, s);
    var l1 := QuadMix(l, Picked(m, s, 0), Picked(m, s, 1));
    assert Flat(l1) == u by { ColumnsOfLanes(l, m, s); }
    var r := Lanes(l1.a, Rotate(l1.b, 1), Rotate(l1.c, 2), Rotate(l1.d, 3));
    var l2 := QuadMix(r, Picked(m, s, 8), Picked(m, s, 9));
    DiagonalsOfLanes(l1, m, s);
  }

  lemma ColumnsOfLanes(l: Lanes, m: Message, s: Row)
    ensures Flat(QuadMix(l, Picked(m, s, 0), Picked(m, s, 1))) == Columns(Flat(l), m, s)
  {
    hide Mix, Columns;
    var v := Flat(l);
    ColumnLane(v, m, s, 0);
    ColumnLane(v, m, s, 1);
    ColumnLane(v, m, s, 2);
    ColumnLane(v, m, s, 3);
  }

  lemma DiagonalsOfLanes(l: Lanes, m: Message, s: Row)
    ensures LaneDiagonals(l, m, s) == Diagonals(Flat(l), m, s)
  {
    hide LaneDiagonals, Diagonals;
    DiagonalOfLane(l, m, s, 0);
    DiagonalOfLane(l, m, s, 1);
    DiagonalOfLane(l, m, s, 2);
    DiagonalOfLane(l, m, s, 3);
  }

  /** The second half of a round on rotated lanes. */
  function LaneDiagonals(l: Lanes, m: Message, s: Row): Work {
    hide QuadMix;
    var w := QuadMix(Lanes(l.a, Rotate(l.b, 1), Rotate(l.c, 2), Rotate(l.d, 3)), Picked(m, s, 8), Picked(m, s, 9));
    Flat(Lanes(w.a, Rotate(w.b, 3), Rotate(w.c, 2), Rotate(w.d, 1)))
  }

  lemma DiagonalOfLane(l: Lanes, m: Message, s: Row, j: nat)
    requires j < 4
    ensures var u, w := LaneDiagonals(l, m, s), Diagonals(Flat(l), m, s);
            && u[j] == w[j] && u[4 + (j + 1) % 4] == w[4 + (j + 1) % 4]
            && u[8 + (j + 2) % 4] == w[8 + (j + 2) % 4] && u[12 + (j + 3) % 4] == w[12 + (j + 3) % 4]
  {
    hide Mix, Diagonals, QuadMix, Rotate, Flat;
    DiagonalLane(Flat(l), m, s, j);
    DiagonalOperands(l, j);
    var r := Lanes(l.a, Rotate(l.b, 1), Rotate(l.c, 2), Rotate(l.d, 3));
    var x, y := Picked(m, s, 8), Picked(m, s, 9);
    QuadMixAt(r, x, y, j);
    RotatedHome(QuadMix(r, x, y), j);
  }

  lemma QuadMixAt(l: Lanes, x: Quad, y: Quad, j: nat)
    requires j < 4
    ensures var w := QuadMix(l, x, y);
            MixLane(l, x, y, j) == Mixed(w.a[j], w.b[j], w.c[j], w.d[j])
  {
    hide MixLane;
  }

  /** What lane j of the rotated lanes holds are the four words of diagonal j. */
  lemma DiagonalOperands(l: Lanes, j: nat)
    requires j < 4
    ensures var v := Flat(l);
            && l.a[j] == v[j] && Rotate(l.b, 1)[j] == v[4 + (j + 1) % 4]
            && Rotate(l.c, 2)[j] == v[8 + (j + 2) % 4] && Rotate(l.d, 3)[j] == v[12 + (j + 3) % 4]
  {
  }

  /** Rotating back puts them where the diagonal step writes. */
  lemma RotatedHome(w: Lanes, j: nat)
    requires j < 4
    ensures var u := Flat(Lanes(w.a, Rotate(w.b, 3), Rotate(w.c, 2), Rotate(w.d, 1)));
            && u[j] == w.a[j] && u[4 + (j + 1) % 4] == w.b[j]
            && u[8 + (j + 2) % 4] == w.c[j] && u[12 + (j + 3) % 4] == w.d[j]
  {
  }

  /** Rotating lanes instead of indexing diagonals preserves meaning: for every state, every
      message and every number of rounds. */
  lemma {:induction false} LaneRoundsAreRounds(l: Lanes, m: Message, n: nat)
    ensures Flat(LaneRounds(l, m, n)) == Rounds(Flat(l), m, n)
  {
    hide LaneRound, Columns, Diagonals;
    if n > 0 {
      LaneRoundsAreRounds(l, m, n - 1);
      LaneRoundIsRound(LaneRounds(l, m, n - 1), m, Schedule(n - 1));
    }
  }

  // ---------------------------------------------------------------- the clocked mixer

  /** What a mixer sees at its ports on one clock. */
  datatype Ports = Ports(a: U64, b: U64, c: U64, d: U64, x: U64, y: U64)

  /** The flip-flops of one mixer, MixG_FlopPipe_4 of the vendor's core
      (vendor/sia-fpga/MixG_FlopPipe_4.vhd): Y is consumed two clocks after X, and C runs one
      clock behind A at both ports. bHeld is B0_in; A3, B2, C3 and D3 are the outputs. */
  datatype Regs = Regs(
    a0: U64, bHeld: U64, d0: U64,
    a1: U64, b0: U64, c0: U64, d1: U64,
    a2: U64, b1: U64, c1: U64, d2: U64,
    a3: U64, b2: U64, c2: U64, d3: U64,
    c3: U64)

  /** One rising edge of its process. */
  function Edge(r: Regs, p: Ports): Regs {
    var a := Add(Add(p.a, p.b), p.x);
    var c := Add(p.c, r.d0);
    var a' := Add(Add(r.a1, r.b0), p.y);
    var c' := Add(r.c1, r.d2);
    Regs(a, p.b, Rotr(Xor(p.d, a), 32),
         r.a0, Rotr(Xor(r.bHeld, c), 24), c, r.d0,
         a', r.b0, r.c0, Rotr(Xor(r.d1, a'), 16),
         r.a2, Rotr(Xor(r.b1, c'), 63), c', r.d2,
         r.c2)
  }

  /** Whatever the registers held, four clocks after A, B, D and X were presented, with C a
      clock later and Y two clocks later, the mixer shows G; its C output follows a clock on. */
  lemma MixerPhases(r: Regs, p0: Ports, p1: Ports, p2: Ports, p3: Ports, p4: Ports)
    ensures var g := Mix(p0.a, p0.b, p1.c, p0.d, p0.x, p2.y);
            var r4 := Edge(Edge(Edge(Edge(r, p0), p1), p2), p3);
            r4.a3 == g.a && r4.b2 == g.b && r4.d3 == g.d && Edge(r4, p4).c3 == g.c
  {
    hide Add, Rotr, Xor;
  }

  // ---------------------------------------------------------------- the wired array

  const UNITS: nat := 96

  /** Round i, mixer h (0 or 1), lane j. */
  function Unit(i: nat, h: nat, j: nat): (k: nat)
    requires i < 12 && h < 2 && j < 4
    ensures k < UNITS && k / 8 == i && k / 4 % 2 == h && k % 4 == j
  {
    8 * i + 4 * h + j
  }

  type Pipe = p: seq<Regs> | |p| == UNITS witness seq(UNITS, _ => Zero)

  const Zero: Regs := Regs(0, 0, 0, 0, 0, 0, 0, 0, 0, 0, 0, 0, 0, 0, 0, 0)

  /** The message words on the wires at one clock; a grinding core replaces word 4 by the
      nonce counter of the round that reads it. */
  datatype Feed = Fixed(m: Message) | Grinding(m: Message, nonce: seq<U64>) {
    predicate Valid() { Grinding? ==> |nonce| == 12 }
  }

  const NONCE_WORD: nat := 4

  function WordAt(f: Feed, i: nat, slot: nat): U64
    requires f.Valid() && i < 12 && slot < 16
  {
    var w := Schedule(i)[slot];
    if f.Grinding? && w == NONCE_WORD then f.nonce[i] else f.m[w]
  }

  /** Port wiring: round 0 reads the constants, the second mixer the first one's outputs
      rotated by 1, 2, 3, and a later round the outputs of the round before rotated back. */
  function PortsOf(p: Pipe, init: Work, f: Feed, i: nat, h: nat, j: nat): Ports
    requires f.Valid() && i < 12 && h < 2 && j < 4
  {
    if h == 1 then
      Ports(p[Unit(i, 0, j)].a3, p[Unit(i, 0, (j + 1) % 4)].b2, p[Unit(i, 0, (j + 2) % 4)].c3,
            p[Unit(i, 0, (j + 3) % 4)].d3, WordAt(f, i, 2 * j + 8), WordAt(f, i, 2 * j + 9))
    else if i == 0 then
      Ports(init[j], init[4 + j], init[8 + j], init[12 + j], WordAt(f, i, 2 * j), WordAt(f, i, 2 * j + 1))
    else
      Ports(p[Unit(i - 1, 1, j)].a3, p[Unit(i - 1, 1, (j + 3) % 4)].b2, p[Unit(i - 1, 1, (j + 2) % 4)].c3,
            p[Unit(i - 1, 1, (j + 1) % 4)].d3, WordAt(f, i, 2 * j), WordAt(f, i, 2 * j + 1))
  }

  function Tick(p: Pipe, init: Work, f: Feed): Pipe
    requires f.Valid()
  {
    seq(UNITS, k requires 0 <= k < UNITS => Edge(p[k], PortsOf(p, init, f, k / 8, k / 4 % 2, k % 4)))
  }

  /** A run of the array: one state more than feeds, each state the clock edge of the last. */
  ghost predicate Runs(run: seq<Pipe>, feeds: seq<Feed>, init: Work) {
    && |run| == |feeds| + 1
    && (forall t :: 0 <= t < |feeds| ==> feeds[t].Valid())
    && (forall t :: 0 <= t < |feeds| ==> run[t + 1] == Tick(run[t], init, feeds[t]))
  }

  function At(run: seq<Pipe>, feeds: seq<Feed>, init: Work, t: nat, i: nat, h: nat, j: nat): Ports
    requires t < |feeds| <= |run| && feeds[t].Valid() && i < 12 && h < 2 && j < 4
  {
    PortsOf(run[t], init, feeds[t], i, h, j)
  }

  lemma UnitEdge(run: seq<Pipe>, feeds: seq<Feed>, init: Work, t: nat, i: nat, h: nat, j: nat)
    requires Runs(run, feeds, init) && t < |feeds| && i < 12 && h < 2 && j < 4
    ensures run[t + 1][Unit(i, h, j)] == Edge(run[t][Unit(i, h, j)], At(run, feeds, init, t, i, h, j))
  {
    hide Edge, PortsOf;
  }

  /** One unit inside a run. */
  lemma UnitPhases(run: seq<Pipe>, feeds: seq<Feed>, init: Work, t: nat, i: nat, h: nat, j: nat)
    requires Runs(run, feeds, init) && t + 5 <= |feeds| && i < 12 && h < 2 && j < 4
    ensures var p := At(run, feeds, init, t, i, h, j);
            var g := Mix(p.a, p.b, At(run, feeds, init, t + 1, i, h, j).c, p.d, p.x, At(run, feeds, init, t + 2, i, h, j).y);
            var k := Unit(i, h, j);
            run[t + 4][k].a3 == g.a && run[t + 4][k].b2 == g.b && run[t + 4][k].d3 == g.d && run[t + 5][k].c3 == g.c
  {
    hide Edge, At, Mix, Tick;
    UnitEdge(run, feeds, init, t, i, h, j);
    UnitEdge(run, feeds, init, t + 1, i, h, j);
    UnitEdge(run, feeds, init, t + 2, i, h, j);
    UnitEdge(run, feeds, init, t + 3, i, h, j);
    UnitEdge(run, feeds, init, t + 4, i, h, j);
    MixerPhases(run[t][Unit(i, h, j)], At(run, feeds, init, t, i, h, j), At(run, feeds, init, t + 1, i, h, j),
                At(run, feeds, init, t + 2, i, h, j), At(run, feeds, init, t + 3, i, h, j),
                At(run, feeds, init, t + 4, i, h, j));
  }

  /** How many clocks after its round began a message slot is read. */
  function Phase(slot: nat): nat
    requires slot < 16
  {
    (if slot >= 8 then 4 else 0) + (if slot % 2 == 1 then 2 else 0)
  }

  /** Every slot read of the computation that enters round 0 at clock t sees message m. */
  ghost predicate Reads(feeds: seq<Feed>, t: nat, m: Message)
  {
    && (forall u :: t <= u < |feeds| ==> feeds[u].Valid())
    && t + 97 <= |feeds|
    && forall i, slot :: 0 <= i < 12 && 0 <= slot < 16 ==>
         WordAt(feeds[t + 8 * i + Phase(slot)], i, slot) == m[Schedule(i)[slot]]
  }

  /** Lane j of the first mixer of round i, in the un-rotated frame: A, B, D presented at
      clock t and C at clock t + 1. */
  ghost predicate LaneEnters(run: seq<Pipe>, feeds: seq<Feed>, init: Work, t: nat, i: nat, v: Work, j: nat)
    requires Runs(run, feeds, init) && i < 12 && t + 1 < |feeds| && j < 4
  {
    var p := At(run, feeds, init, t, i, 0, j);
    && p.a == v[j] && p.b == v[4 + j] && p.d == v[12 + j]
    && At(run, feeds, init, t + 1, i, 0, j).c == v[8 + j]
  }

  ghost predicate Enters(run: seq<Pipe>, feeds: seq<Feed>, init: Work, t: nat, i: nat, v: Work)
    requires Runs(run, feeds, init) && i < 12 && t + 1 < |feeds|
  {
    forall j :: 0 <= j < 4 ==> LaneEnters(run, feeds, init, t, i, v, j)
  }

  /** Lane j of the second mixer of round i, raw: A, B, D at clock t, C at clock t + 1. */
  ghost predicate LaneLeaves(run: seq<Pipe>, t: nat, i: nat, v: Work, j: nat)
    requires i < 12 && t + 1 < |run| && j < 4
  {
    var q := run[t][Unit(i, 1, j)];
    && q.a3 == v[j] && q.b2 == v[4 + (j + 1) % 4] && q.d3 == v[12 + (j + 3) % 4]
    && run[t + 1][Unit(i, 1, j)].c3 == v[8 + (j + 2) % 4]
  }

  ghost predicate Leaves(run: seq<Pipe>, t: nat, i: nat, v: Work)
    requires i < 12 && t + 1 < |run|
  {
    forall j :: 0 <= j < 4 ==> LaneLeaves(run, t, i, v, j)
  }

  /** The message words a unit reads in the computation that entered at clock start. */
  lemma OperandWords(run: seq<Pipe>, feeds: seq<Feed>, init: Work, start: nat, m: Message, i: nat, h: nat, j: nat)
    requires Runs(run, feeds, init) && Reads(feeds, start, m) && i < 12 && h < 2 && j < 4
    ensures var t := start + 8 * i + 4 * h;
            && At(run, feeds, init, t, i, h, j).x == m[Schedule(i)[8 * h + 2 * j]]
            && At(run, feeds, init, t + 2, i, h, j).y == m[Schedule(i)[8 * h + 2 * j + 1]]
  {
    hide WordAt, Schedule, Tick, PortsOf;
    var x, y := 8 * h + 2 * j, 8 * h + 2 * j + 1;
    assert Phase(x) == 4 * h && Phase(y) == 4 * h + 2;
    assert WordAt(feeds[start + 8 * i + Phase(x)], i, x) == m[Schedule(i)[x]];
    assert WordAt(feeds[start + 8 * i + Phase(y)], i, y) == m[Schedule(i)[y]];
    var t := start + 8 * i + 4 * h;
    PortWords(run[t], init, feeds[t], i, h, j);
    PortWords(run[t + 2], init, feeds[t + 2], i, h, j);
  }

  lemma PortWords(p: Pipe, init: Work, f: Feed, i: nat, h: nat, j: nat)
    requires f.Valid() && i < 12 && h < 2 && j < 4
    ensures PortsOf(p, init, f, i, h, j).x == WordAt(f, i, 8 * h + 2 * j)
    ensures PortsOf(p, init, f, i, h, j).y == WordAt(f, i, 8 * h + 2 * j + 1)
  {
    hide WordAt;
  }

  lemma FirstMixer(run: seq<Pipe>, feeds: seq<Feed>, init: Work, start: nat, m: Message, i: nat, v: Work, j: nat)
    requires Runs(run, feeds, init) && Reads(feeds, start, m) && i < 12 && j < 4
    requires Enters(run, feeds, init, start + 8 * i, i, v)
    ensures var t := start + 8 * i;
            var u := Columns(v, m, Schedule(i));
            var k := Unit(i, 0, j);
            run[t + 4][k].a3 == u[j] && run[t + 4][k].b2 == u[4 + j] && run[t + 4][k].d3 == u[12 + j]
            && run[t + 5][k].c3 == u[8 + j]
  {
    hide Mix, Columns, At, Schedule, Tick;
    var t := start + 8 * i;
    assert LaneEnters(run, feeds, init, t, i, v, j);
    UnitPhases(run, feeds, init, t, i, 0, j);
    OperandWords(run, feeds, init, start, m, i, 0, j);
    ColumnLane(v, m, Schedule(i), j);
  }

  lemma SecondOperands(run: seq<Pipe>, feeds: seq<Feed>, init: Work, start: nat, m: Message, i: nat, v: Work, j: nat)
    requires Runs(run, feeds, init) && Reads(feeds, start, m) && i < 12 && j < 4
    requires Enters(run, feeds, init, start + 8 * i, i, v)
    ensures var t := start + 8 * i + 4;
            var u := Columns(v, m, Schedule(i));
            var p := At(run, feeds, init, t, i, 1, j);
            && p.a == u[j] && p.b == u[4 + (j + 1) % 4] && p.d == u[12 + (j + 3) % 4]
            && At(run, feeds, init, t + 1, i, 1, j).c == u[8 + (j + 2) % 4]
  {
    hide Mix, Columns, Schedule, Tick, WordAt;
    FirstMixer(run, feeds, init, start, m, i, v, j);
    FirstMixer(run, feeds, init, start, m, i, v, (j + 1) % 4);
    FirstMixer(run, feeds, init, start, m, i, v, (j + 2) % 4);
    FirstMixer(run, feeds, init, start, m, i, v, (j + 3) % 4);
  }

  lemma SecondMixer(run: seq<Pipe>, feeds: seq<Feed>, init: Work, start: nat, m: Message, i: nat, v: Work, j: nat)
    requires Runs(run, feeds, init) && Reads(feeds, start, m) && i < 12 && j < 4
    requires Enters(run, feeds, init, start + 8 * i, i, v)
    ensures LaneLeaves(run, start + 8 * i + 8, i, Diagonals(Columns(v, m, Schedule(i)), m, Schedule(i)), j)
  {
    hide Mix, Columns, Diagonals, At, Schedule, Tick;
    SecondOperands(run, feeds, init, start, m, i, v, j);
    UnitPhases(run, feeds, init, start + 8 * i + 4, i, 1, j);
    OperandWords(run, feeds, init, start, m, i, 1, j);
    DiagonalLane(Columns(v, m, Schedule(i)), m, Schedule(i), j);
  }

  lemma NextRound(run: seq<Pipe>, feeds: seq<Feed>, init: Work, t: nat, i: nat, v: Work)
    requires Runs(run, feeds, init) && 0 < i < 12 && t + 1 < |feeds|
    requires Leaves(run, t, i - 1, v)
    ensures Enters(run, feeds, init, t, i, v)
  {
    hide Runs, LaneLeaves, LaneEnters;
    forall j | 0 <= j < 4
      ensures LaneEnters(run, feeds, init, t, i, v, j)
    {
      NextLane(run, feeds, init, t, i, v, j);
    }
  }

  lemma NextLane(run: seq<Pipe>, feeds: seq<Feed>, init: Work, t: nat, i: nat, v: Work, j: nat)
    requires Runs(run, feeds, init) && 0 < i < 12 && t + 1 < |feeds| && j < 4
    requires LaneLeaves(run, t, i - 1, v, j) && LaneLeaves(run, t, i - 1, v, (j + 1) % 4)
    requires LaneLeaves(run, t, i - 1, v, (j + 2) % 4) && LaneLeaves(run, t, i - 1, v, (j + 3) % 4)
    ensures LaneEnters(run, feeds, init, t, i, v, j)
  {
    hide Tick, PortsOf, Unit;
    RotatedBack(run[t], init, feeds[t], i, j);
    RotatedBack(run[t + 1], init, feeds[t + 1], i, j);
    RoundTheRing(j);
  }

  /** Three lanes on and one more is the lane itself. */
  lemma RoundTheRing(j: nat)
    requires j < 4
    ensures ((j + 1) % 4 + 3) % 4 == ((j + 2) % 4 + 2) % 4 == ((j + 3) % 4 + 1) % 4 == j
  {
  }

  /** A later round's first mixer is wired to the second mixer of the round before. */
  lemma RotatedBack(p: Pipe, init: Work, f: Feed, i: nat, j: nat)
    requires f.Valid() && 0 < i < 12 && j < 4
    ensures var q := PortsOf(p, init, f, i, 0, j);
            && q.a == p[Unit(i - 1, 1, j)].a3 && q.b == p[Unit(i - 1, 1, (j + 3) % 4)].b2
            && q.c == p[Unit(i - 1, 1, (j + 2) % 4)].c3 && q.d == p[Unit(i - 1, 1, (j + 1) % 4)].d3
  {
    hide WordAt;
  }

  /** After i + 1 rounds the array shows exactly the work vector of the reference rounds. */
  lemma {:induction false} ArrayComputes(run: seq<Pipe>, feeds: seq<Feed>, init: Work, start: nat, m: Message, i: nat)
    requires Runs(run, feeds, init) && Reads(feeds, start, m) && i < 12
    ensures Leaves(run, start + 8 * i + 8, i, Rounds(init, m, i + 1))
  {
    hide Columns, Diagonals, Tick, WordAt, Rounds, Schedule;
    RoundsStep(init, m, i);
    if i == 0 {
      RoundsStart(init, m);
      forall j | 0 <= j < 4
        ensures LaneEnters(run, feeds, init, start, 0, init, j)
      {
      }
    } else {
      ArrayComputes(run, feeds, init, start, m, i - 1);
      NextRound(run, feeds, init, start + 8 * i, i, Rounds(init, m, i));
    }
    var t, w := start + 8 * i + 8, Rounds(init, m, i + 1);
    forall j | 0 <= j < 4
      ensures LaneLeaves(run, t, i, w, j)
    {
      SecondMixer(run, feeds, init, start, m, i, Rounds(init, m, i), j);
    }
  }

  // ---------------------------------------------------------------- taps

  /** Raw lanes after the last round: A passes straight, C is two lanes round. */
  function TapA(p: Pipe, word: nat): U64
    requires word < 4
  {
    p[Unit(11, 1, word)].a3
  }

  function TapC(p: Pipe, word: nat): U64
    requires word < 4
  {
    p[Unit(11, 1, (word + 2) % 4)].c3
  }

  /** Chain word `word` from the delayed A tap and the C tap is that word of F. */
  lemma TapsGiveF(run: seq<Pipe>, feeds: seq<Feed>, h: Chain, len: nat, start: nat, m: Message, word: nat)
    requires len < TWO64 && word < 4
    requires Runs(run, feeds, Initial(h, len, true)) && Reads(feeds, start, m)
    ensures Xor(Xor(h[word], TapA(run[start + 96], word)), TapC(run[start + 97], word)) == F(h, m, len, true)[word]
  {
    hide Columns, Diagonals, Tick, WordAt, Rounds, Xor, Initial;
    var init := Initial(h, len, true);
    ArrayComputes(run, feeds, init, start, m, 11);
    var v := Rounds(init, m, 12);
    assert LaneLeaves(run, start + 96, 11, v, word);
    assert LaneLeaves(run, start + 96, 11, v, (word + 2) % 4);
  }
}
