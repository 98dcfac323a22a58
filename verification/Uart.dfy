/** The transmit side of the UART work interface (src/OspreyBlake2bUartGetWork.vhd), one model
    step per clock with the baud tick as an input, and a standard 8N1 line decoder. */
module Uart {
  import opened Words
  import opened Serial

  datatype Phase = Idle | LoadByte | ShiftOut

  const CELLS: nat := 10   // one start bit, eight data bits, one stop bit

  /** Registers of the transmitter; line is byteOut, bit 0 first. */
  datatype Tx = Tx(phase: Phase, line: seq<bool>, result: seq<bool>, bytes: nat, bits: nat)

  /** One clock of the transmitter process, for frames of n bytes. */
  function Clocked(x: Tx, n: nat, success: bool, data: seq<bool>, tick: bool): Tx
    requires |x.line| == CELLS && |x.result| == 8 * n && n > 0 && |data| == 8 * n
    ensures |Clocked(x, n, success, data, tick).line| == CELLS && |Clocked(x, n, success, data, tick).result| == 8 * n
  {
    match x.phase
    case Idle =>
      if success then x.(result := data, bytes := 0, phase := LoadByte) else x
    case LoadByte =>
      if tick then
        Tx(ShiftOut, [false] + x.result[..8] + [true], x.result[8..] + Low(8), x.bytes + 1, x.bits + 1)
      else x
    case ShiftOut =>
      if !tick then x
      else
        var shifted := x.line[1..] + [true];
        if x.bits == CELLS then
          x.(line := shifted, bits := 0, phase := if x.bytes < n then LoadByte else Idle)
        else x.(line := shifted, bits := x.bits + 1)
  }

  /** The transmitter entity. */
  class Transmitter {
    const n: nat
    var phase: Phase
    var line: seq<bool>
    var result: seq<bool>
    var bytes: nat
    var bits: nat

    ghost predicate Sized()
      reads this
    {
      n > 0 && |line| == CELLS && |result| == 8 * n
    }

    ghost function View(): Tx
      reads this
    {
      Tx(phase, line, result, bytes, bits)
    }

    constructor (n: nat)
      requires n > 0
      ensures Sized() && this.n == n && View() == Quiet(n)
    {
      this.n := n;
      phase, bytes, bits := Idle, 0, 0;
      line, result := Ones(CELLS), Low(8 * n);
    }

    method Clock(success: bool, data: seq<bool>, tick: bool)
      requires Sized() && |data| == 8 * n
      modifies this
      ensures Sized() && View() == Clocked(old(View()), n, success, data, tick)
    {
      match phase {
        case Idle =>
          if success {
            result, bytes, phase := data, 0, LoadByte;
          }
        case LoadByte =>
          if tick {
            line := [false] + result[..8] + [true];
            result := result[8..] + Low(8);
            bytes := bytes + 1;
            bits := bits + 1;
            phase := ShiftOut;
          }
        case ShiftOut =>
          if tick {
            line := line[1..] + [true];
            var last := bits == CELLS;
            bits := bits + 1;
            if last {
              bits := 0;
              phase := if bytes < n then LoadByte else Idle;
            }
          }
      }
    }
  }

  /** State after reset: idle, line high. */
  function Quiet(n: nat): Tx {
    Tx(Idle, Ones(CELLS), Low(8 * n), 0, 0)
  }

  // ---------------------------------------------------------------- the receiving end

  /** An 8N1 receiver sampling once per bit cell: it waits for a low start bit, takes eight
      data bits and checks the stop bit. */
  datatype Decoder = Decoder(busy: bool, data: seq<bool>, bytes: seq<Byte>, errors: nat)

  const Listening: Decoder := Decoder(false, [], [], 0)

  function Sampled(d: Decoder, b: bool): Decoder {
    if !d.busy then (if b then d else d.(busy := true, data := []))
    else if |d.data| < 8 then d.(data := d.data + [b])
    else if |d.data| == 8 && b then Decoder(false, [], d.bytes + [ByteOf(d.data)], d.errors)
    else d.(busy := false, data := [], errors := d.errors + 1)
  }

  // ---------------------------------------------------------------- conservation on the line

  /** Bytes of the frame in flight that the decoder has not put out yet. */
  function Pending(x: Tx, n: nat, d: Decoder): seq<Byte>
    requires |x.line| == CELLS && |x.result| == 8 * n && x.bytes <= n
    requires x.phase == ShiftOut && 1 <= x.bits <= 9 ==> |d.data| == x.bits - 1
  {
    var rest := BytesOf(x.result[..8 * (n - x.bytes)]);
    if x.phase == Idle then []
    else if x.phase == ShiftOut && 1 <= x.bits <= 9 then [ByteOf(d.data + x.line[1..10 - x.bits])] + rest
    else rest
  }

  /** Transmitter and decoder in step. */
  ghost predicate InStep(x: Tx, n: nat, d: Decoder) {
    && n > 0 && |x.line| == CELLS && |x.result| == 8 * n && x.bytes <= n && d.errors == 0
    && (x.phase != ShiftOut ==> x.bits == 0 && x.line == Ones(CELLS) && !d.busy)
    && (x.phase == LoadByte ==> x.bytes < n)
    && (x.phase == ShiftOut ==>
          && 1 <= x.bits <= CELLS && x.bytes > 0
          && (x.bits <= 9 ==>
                && d.busy && |d.data| == x.bits - 1
                && x.line[10 - x.bits..] == Ones(x.bits))
          && (x.bits == CELLS ==> !d.busy && x.line == Ones(CELLS)))
  }

  lemma QuietInStep(n: nat)
    requires n > 0
    ensures InStep(Quiet(n), n, Listening)
  {
  }

  /** The frame bytes still owed after a clock are those owed before it plus a newly accepted
      frame, less what the decoder has just put out. */
  lemma ClockConserves(x: Tx, n: nat, d: Decoder, success: bool, data: seq<bool>, tick: bool)
    requires InStep(x, n, d) && |data| == 8 * n
    ensures var y := Clocked(x, n, success, data, tick);
            var e := if tick then Sampled(d, y.line[0]) else d;
            && InStep(y, n, e)
            && e.bytes + Pending(y, n, e)
               == d.bytes + Pending(x, n, d) + if x.phase == Idle && success then BytesOf(data) else []
  {
    hide Sampled, Pending, Clocked, InStep, BytesOf;
    if x.phase == Idle {
      IdleConserves(x, n, d, success, data, tick);
    } else {
      BusyBits(x, n, d);
      BusyIgnoresSuccess(x, n, success, data, tick);
      if tick {
        if x.phase == LoadByte {
          LoadConserves(x, n, d);
        } else if x.bits < 9 {
          DataConserves(x, n, d);
        } else if x.bits == 9 {
          StopConserves(x, n, d);
        } else {
          GapConserves(x, n, d);
        }
      }
    }
  }

  lemma BusyBits(x: Tx, n: nat, d: Decoder)
    requires InStep(x, n, d)
    ensures x.bits <= CELLS && |x.line| == CELLS && |x.result| == 8 * n && n > 0
  {
  }

  lemma BusyIgnoresSuccess(x: Tx, n: nat, success: bool, data: seq<bool>, tick: bool)
    requires |x.line| == CELLS && |x.result| == 8 * n && n > 0 && |data| == 8 * n && x.phase != Idle
    ensures Clocked(x, n, success, data, tick) == if tick then Clocked(x, n, false, Low(8 * n), true) else x
  {
  }

  lemma IdleConserves(x: Tx, n: nat, d: Decoder, success: bool, data: seq<bool>, tick: bool)
    requires InStep(x, n, d) && x.phase == Idle && |data| == 8 * n
    ensures var y := Clocked(x, n, success, data, tick);
            var e := if tick then Sampled(d, y.line[0]) else d;
            && InStep(y, n, e)
            && Pending(x, n, d) == []
            && e.bytes + Pending(y, n, e) == d.bytes + if success then BytesOf(data) else []
  {
    if success { assert data[..8 * n] == data; }
  }

  lemma GapConserves(x: Tx, n: nat, d: Decoder)
    requires InStep(x, n, d) && x.phase == ShiftOut && x.bits == CELLS
    ensures var y := Clocked(x, n, false, Low(8 * n), true);
            var e := Sampled(d, y.line[0]);
            InStep(y, n, e) && e.bytes + Pending(y, n, e) == d.bytes + Pending(x, n, d)
  {
    hide ByteOf;
    assert x.line[1..] + [true] == Ones(CELLS);
    if x.bytes == n { assert x.result[..0] == []; }
  }

  lemma LoadConserves(x: Tx, n: nat, d: Decoder)
    requires InStep(x, n, d) && x.phase == LoadByte
    ensures var y := Clocked(x, n, false, Low(8 * n), true);
            var e := Sampled(d, y.line[0]);
            InStep(y, n, e) && e.bytes + Pending(y, n, e) == d.bytes + Pending(x, n, d)
  {
    hide ByteOf;
    var y := Clocked(x, n, false, Low(8 * n), true);
    var left := 8 * (n - x.bytes);
    var owed := x.result[..left];
    assert owed[..8] == x.result[..8] && owed[8..] == x.result[8..left];
    assert y.result[..left - 8] == owed[8..];
    assert [] + y.line[1..9] == x.result[..8];
    assert y.line[9..] == Ones(1);
  }

  lemma DataConserves(x: Tx, n: nat, d: Decoder)
    requires InStep(x, n, d) && x.phase == ShiftOut && x.bits < 9
    ensures var y := Clocked(x, n, false, Low(8 * n), true);
            var e := Sampled(d, y.line[0]);
            InStep(y, n, e) && e.bytes + Pending(y, n, e) == d.bytes + Pending(x, n, d)
  {
    hide BytesOf, ByteOf;
    var y := Clocked(x, n, false, Low(8 * n), true);
    var e := Sampled(d, y.line[0]);
    OnesFollow(x.line, 10 - x.bits);
    assert y.line == x.line[1..] + [true] && y.bits == x.bits + 1;
    NextCells(x.line, 10 - x.bits);
    assert e.data == d.data + [y.line[0]];
    assert e.data + y.line[1..10 - y.bits] == d.data + ([y.line[0]] + y.line[1..10 - y.bits]);
  }

  lemma OnesFollow(line: seq<bool>, k: nat)
    requires 1 <= k <= |line| && line[k..] == Ones(|line| - k)
    ensures var next := line[1..] + [true]; next[k - 1..] == Ones(|line| - k + 1)
  {
    var next := line[1..] + [true];
    assert next[k - 1..] == line[k..] + [true];
  }

  lemma NextCells(line: seq<bool>, k: nat)
    requires 2 <= k <= |line|
    ensures var next := line[1..] + [true]; [next[0]] + next[1..k - 1] == line[1..k]
  {
    var next := line[1..] + [true];
    assert next[1..k - 1] == line[2..k];
  }

  lemma StopConserves(x: Tx, n: nat, d: Decoder)
    requires InStep(x, n, d) && x.phase == ShiftOut && x.bits == 9
    ensures var y := Clocked(x, n, false, Low(8 * n), true);
            var e := Sampled(d, y.line[0]);
            InStep(y, n, e) && e.bytes + Pending(y, n, e) == d.bytes + Pending(x, n, d)
  {
    hide ByteOf;
    var y := Clocked(x, n, false, Low(8 * n), true);
    assert x.line[1..] == Ones(9);
    assert y.line == Ones(CELLS);
    assert d.data + x.line[1..1] == d.data;
  }

  // ---------------------------------------------------------------- frame length

  /** Bit cells until the transmitter is idle again. */
  function CellsLeft(x: Tx, n: nat): int {
    match x.phase
    case Idle => 0
    case LoadByte => 11 * (n - x.bytes)
    case ShiftOut => 11 - x.bits + 11 * (n - x.bytes)
  }

  /** A byte takes eleven bit cells, not ten: the transmitter shifts once more after the stop
      bit and reloads on the tick after that. A 17-byte frame is therefore 187 cells. */
  lemma FrameCells(x: Tx, n: nat, d: Decoder, success: bool, data: seq<bool>, tick: bool)
    requires InStep(x, n, d) && |data| == 8 * n
    ensures var y := Clocked(x, n, success, data, tick);
            && (CellsLeft(x, n) == 0 <==> x.phase == Idle)
            && (x.phase == Idle && success ==> CellsLeft(y, n) == 11 * n)
            && (x.phase != Idle ==> CellsLeft(y, n) == CellsLeft(x, n) - if tick then 1 else 0)
  {
  }

  /** Bytes owed and cells left keep step: no more than ten cells pass without a byte coming out. */
  lemma CellsOfPending(x: Tx, n: nat, d: Decoder)
    requires InStep(x, n, d) && x.phase != Idle
    ensures var p := |Pending(x, n, d)|; 11 * p - 9 <= CellsLeft(x, n) <= 11 * p + 1
  {
  }
}
