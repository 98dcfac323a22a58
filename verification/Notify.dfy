/** The text side of the stratum client (miner/stratum.c): strings and hex read with the JSON
    scanner, a mining.notify line read into a job, and a mining.submit line written. */
module Notify {
  import opened Words
  import opened Json

  const MAX_BRANCHES: nat := 32
  const MAX_CB: nat := 512
  const MAX_EN2: nat := 32
  const HEX_BUF: nat := 2 * MAX_CB + 4
  const JOB_ID_BUF: nat := 64

  // ---------------------------------------------------------------- strings

  /** The first quote at or after p, escaped or not. */
  function RawEnd(s: CString, p: nat): (q: nat)
    requires p <= |s|
    ensures p <= q <= |s| && (q < |s| ==> s[q] == '"') && '"' !in s[p..q]
    decreases |s| - p
  {
    if p == |s| || s[p] == '"' then p
    else
      var q := RawEnd(s, p + 1);
      assert s[p..q] == [s[p]] + s[p + 1..q];
      q
  }

  /** js_str into a buffer of outlen chars. */
  function Str(s: CString, v: nat, outlen: nat): Option<string>
    requires v <= |s|
  {
    var q := Ws(s, v);
    if At(s, q) != '"' then None
    else
      var e := RawEnd(s, q + 1);
      if e == |s| || e - (q + 1) >= outlen then None else Some(s[q + 1..e])
  }

  method JsStr(s: CString, v: nat, outlen: nat) returns (r: Option<string>)
    requires v <= |s|
    ensures r == Str(s, v, outlen)
  {
    var p := JsWs(s, v);
    if At(s, p) != '"' {
      return None;
    }
    p := p + 1;
    ghost var from := p;
    var out := new char[outlen];
    var o := 0;
    while At(s, p) != '\0' && At(s, p) != '"'
      invariant from <= p <= |s| && o == p - from && o <= outlen
      invariant RawEnd(s, from) == RawEnd(s, p)
      invariant out[..o] == s[from..p]
      invariant o < outlen || o == 0
      decreases |s| - p
    {
      if o + 1 >= outlen {
        return None;
      }
      out[o] := s[p];
      assert s[from..p + 1] == s[from..p] + [s[p]];
      o := o + 1;
      p := p + 1;
    }
    if At(s, p) != '"' {
      return None;
    }
    if o >= outlen {
      return None;
    }
    r := Some(out[..o]);
  }

  lemma {:induction false} RawEndOver(s: CString, p: nat, raw: string)
    requires Here(s, p, raw) && '"' !in raw && At(s, p + |raw|) == '"'
    ensures RawEnd(s, p) == p + |raw|
    decreases |raw|
  {
    if raw != "" {
      HereAt(s, p, raw, 0);
      assert raw[0] in raw;
      assert raw == raw[..1] + raw[1..];
      HereSplit(s, p, raw[..1], raw[1..]);
      RawEndOver(s, p + 1, raw[1..]);
    }
  }

  lemma QuotedParts(s: CString, p: nat, raw: string)
    requires Here(s, p, Quoted(raw))
    ensures At(s, p) == '"' && Here(s, p + 1, raw) && At(s, p + 1 + |raw|) == '"'
    ensures p + 1 + |raw| < |s| && s[p + 1..p + 1 + |raw|] == raw
  {
    assert Quoted(raw) == "\"" + (raw + "\"");
    HereSplit(s, p, "\"", raw + "\"");
    HereSplit(s, p + 1, raw, "\"");
    HereAt(s, p, "\"", 0);
    HereAt(s, p + 1 + |raw|, "\"", 0);
  }

  /** Escapes are not undone: js_str gives back exactly the printed strings that hold no quote,
      not even an escaped one, and fit the buffer with their terminator. */
  lemma StrUndoesPrint(s: CString, p: nat, raw: string, outlen: nat)
    requires Here(s, p, Quoted(raw))
    ensures Str(s, p, outlen) == Some(raw) <==> '"' !in raw && |raw| < outlen
  {
    QuotedParts(s, p, raw);
    assert Ws(s, p) == p;
    if '"' !in raw { RawEndOver(s, p + 1, raw); }
  }

  /** What stands before the first quote of a string's contents, escaped or not. */
  function UpToQuote(raw: string): (t: string)
    ensures t <= raw
  {
    if raw == "" || raw[0] == '"' then "" else [raw[0]] + UpToQuote(raw[1..])
  }

  lemma RawEndCuts(s: CString, p: nat, raw: string)
    requires Here(s, p, raw) && At(s, p + |raw|) == '"'
    ensures p + |raw| < |s| && RawEnd(s, p) == p + |UpToQuote(raw)| && s[p..RawEnd(s, p)] == UpToQuote(raw)
  {
    hide UpToQuote, RawEnd;
    var t := UpToQuote(raw);
    CutStands(raw);
    assert raw == t + raw[|t|..];
    HereSplit(s, p, t, raw[|t|..]);
    if |t| < |raw| { HereAt(s, p, raw, |t|); }
    RawEndOver(s, p, t);
  }

  lemma {:induction false} CutStands(raw: string)
    ensures '"' !in UpToQuote(raw)
    ensures |UpToQuote(raw)| < |raw| ==> raw[|UpToQuote(raw)|] == '"'
  {
    if raw != "" { CutStands(raw[1..]); }
  }

  /** js_str on any printed value: it reads strings only, cut at their first quote. */
  lemma StrOfPrint(s: CString, p: nat, v: Value, outlen: nat)
    requires Here(s, p, Print(v)) && WellFormed(v)
    ensures Str(s, p, outlen)
         == if v.Text? && |UpToQuote(v.raw)| < outlen then Some(UpToQuote(v.raw)) else None
  {
    hide Here, UpToQuote, RawEnd, Quoted, Ws, PrintItems, PrintMembers, StringText, AllWs;
    FirstChar(s, p, v);
    match v
    case Text(raw) =>
      QuotedParts(s, p, raw);
      RawEndCuts(s, p + 1, raw);
    case Token(t) =>
      assert TokenChar(t[0]);
    case _ =>
  }

  /** A cut string ends in the backslash before the quote. */
  lemma {:induction false} CutShows(raw: string)
    requires StringText(raw) && '\\' !in UpToQuote(raw)
    ensures UpToQuote(raw) == raw
  {
    if raw != "" {
      assert raw[0] != '"';
      assert raw[0] == UpToQuote(raw)[0];
      assert raw == [raw[0]] + raw[1..];
      CutShows(raw[1..]);
    }
  }

  /** A string cut at a quote is no string contents any more: its last backslash stands alone. */
  lemma {:induction false} CutIsText(raw: string)
    requires StringText(raw)
    ensures StringText(UpToQuote(raw)) <==> '"' !in raw
    ensures '"' !in raw <==> UpToQuote(raw) == raw
    decreases |raw|
  {
    if raw != "" {
      if raw[0] == '\\' {
        assert raw == [raw[0], raw[1]] + raw[2..];
        if raw[1] != '"' {
          var t := UpToQuote(raw);
          assert t == [raw[0]] + UpToQuote(raw[1..]) && UpToQuote(raw[1..]) == [raw[1]] + UpToQuote(raw[1..][1..]);
          assert raw[1..][1..] == raw[2..];
          assert t[2..] == UpToQuote(raw[2..]) && t == [raw[0], raw[1]] + t[2..];
          CutIsText(raw[2..]);
        } else {
          assert raw[1..][0] == '"' && UpToQuote(raw) == [raw[0]];
        }
      } else {
        assert raw == [raw[0]] + raw[1..];
        assert UpToQuote(raw)[1..] == UpToQuote(raw[1..]);
        CutIsText(raw[1..]);
      }
    }
  }

  // ---------------------------------------------------------------- hex

  function Digit(n: nat): char
    requires n < 16
  {
    if n < 10 then '0' + n as char else 'a' + (n - 10) as char
  }

  function Hex(b: seq<Byte>): (t: string)
    ensures |t| == 2 * |b|
  {
    if b == [] then "" else [Digit(b[0] / 16), Digit(b[0] % 16)] + Hex(b[1..])
  }

  function HexVal(c: char): (v: Option<nat>)
    ensures v.Some? ==> v.value < 16
  {
    if '0' <= c <= '9' then Some((c - '0') as nat)
    else if 'a' <= c <= 'f' then Some((c - 'a') as nat + 10)
    else if 'A' <= c <= 'F' then Some((c - 'A') as nat + 10)
    else None
  }

  function LowerChar(c: char): char { if 'A' <= c <= 'F' then 'a' + (c - 'A') else c }

  function Lower(t: string): (r: string)
    ensures |r| == |t|
  {
    seq(|t|, i requires 0 <= i < |t| => LowerChar(t[i]))
  }

  function HexBytes(t: string): (r: Option<seq<Byte>>)
    requires |t| % 2 == 0
    ensures r.Some? ==> |r.value| == |t| / 2
  {
    if t == "" then Some([])
    else
      var hi, lo, rest := HexVal(t[0]), HexVal(t[1]), HexBytes(t[2..]);
      if hi.None? || lo.None? || rest.None? then None
      else Some([16 * hi.value + lo.value] + rest.value)
  }

  lemma DigitExact(c: char, n: nat)
    requires n < 16
    ensures HexVal(c) == Some(n) <==> LowerChar(c) == Digit(n)
  {
  }

  lemma Nibbles(hi: nat, lo: nat, x: nat)
    requires hi < 16 && lo < 16
    ensures 16 * hi + lo == x <==> hi == x / 16 && lo == x % 16
  {
  }

  /** The decoder accepts a text as b exactly when the text is the encoder's output for b, up
      to the case of the digits. */
  lemma {:induction false} HexExact(t: string, b: seq<Byte>)
    requires |t| % 2 == 0
    ensures HexBytes(t) == Some(b) <==> Lower(t) == Hex(b)
    decreases |t|
  {
    hide HexVal, Digit, LowerChar;
    if t == "" {
      assert Lower(t) == "";
    } else if b == [] {
    } else {
      HexExact(t[2..], b[1..]);
      assert b == [b[0]] + b[1..];
      assert Lower(t) == [LowerChar(t[0]), LowerChar(t[1])] + Lower(t[2..]);
      DigitExact(t[0], b[0] / 16);
      DigitExact(t[1], b[0] % 16);
      if Lower(t) == Hex(b) {
        assert Lower(t)[2..] == Lower(t[2..]) && Hex(b)[2..] == Hex(b[1..]);
      }
      var hi, lo := HexVal(t[0]), HexVal(t[1]);
      if hi.Some? && lo.Some? { Nibbles(hi.value, lo.value, b[0]); }
    }
  }

  method Bin2Hex(b: seq<Byte>) returns (out: string)
    ensures out == Hex(b)
  {
    var a := new char[2 * |b|];
    for i := 0 to |b|
      invariant a[..2 * i] == Hex(b[..i])
    {
      HexAppend(b[..i], b[i]);
      assert b[..i + 1] == b[..i] + [b[i]];
      a[2 * i] := Digit(b[i] / 16);
      a[2 * i + 1] := Digit(b[i] % 16);
      assert a[..2 * (i + 1)] == a[..2 * i] + [a[2 * i], a[2 * i + 1]];
    }
    assert b[..|b|] == b;
    out := a[..];
  }

  lemma {:induction false} HexAppend(b: seq<Byte>, x: Byte)
    ensures Hex(b + [x]) == Hex(b) + [Digit(x / 16), Digit(x % 16)]
  {
    hide Digit;
    if b == [] {
      assert [x][1..] == [];
      assert Hex([]) == "";
    } else {
      assert (b + [x])[1..] == b[1..] + [x];
      HexAppend(b[1..], x);
    }
  }

  /** js_hex into a buffer of maxlen bytes. */
  function HexValue(s: CString, v: nat, maxlen: nat): (r: Option<seq<Byte>>)
    requires v <= |s|
    ensures r.Some? ==> |r.value| <= maxlen
  {
    match Str(s, v, HEX_BUF)
    case None => None
    case Some(t) => if |t| % 2 != 0 || |t| / 2 > maxlen then None else HexBytes(t)
  }

  method JsHex(s: CString, v: nat, maxlen: nat) returns (r: Option<seq<Byte>>)
    requires v <= |s|
    ensures r == HexValue(s, v, maxlen)
  {
    hide HexVal, Str;
    var text := JsStr(s, v, HEX_BUF);
    if text.None? {
      return None;
    }
    var t := text.value;
    var n := |t|;
    if n % 2 != 0 || n / 2 > maxlen {
      return None;
    }
    var out := new Byte[n / 2];
    NothingJoined(out[..0], t, t[2 * 0..]);
    for i := 0 to n / 2
      invariant HexBytes(t) == Joined(out[..i], HexBytes(t[2 * i..]))
    {
      var hi, lo := HexVal(t[2 * i]), HexVal(t[2 * i + 1]);
      assert t[2 * i..][2..] == t[2 * (i + 1)..];
      if hi.None? || lo.None? {
        return None;
      }
      ghost var before := out[..i];
      out[i] := 16 * hi.value + lo.value;
      assert out[..i + 1] == before + [out[i]];
      JoinedStep(before, out[i], HexBytes(t[2 * (i + 1)..]));
    }
    assert out[..n / 2] + [] == out[..];
    r := Some(out[..]);
  }

  function Joined(b: seq<Byte>, rest: Option<seq<Byte>>): Option<seq<Byte>> {
    if rest.None? then None else Some(b + rest.value)
  }

  lemma NothingJoined(b: seq<Byte>, t: string, u: string)
    requires b == [] && t == u && |t| % 2 == 0
    ensures HexBytes(t) == Joined(b, HexBytes(u))
  {
    var r := HexBytes(u);
    if r.Some? { assert [] + r.value == r.value; }
  }

  lemma JoinedStep(b: seq<Byte>, x: Byte, rest: Option<seq<Byte>>)
    ensures Joined(b, Joined([x], rest)) == Joined(b + [x], rest)
  {
    if rest.Some? { assert b + ([x] + rest.value) == b + [x] + rest.value; }
  }

  /** A JSON value that is the hex of b, in either case. */
  predicate Spells(v: Value, b: seq<Byte>) { v.Text? && Lower(v.raw) == Hex(b) }

  /** js_hex reads back what spells b. */
  lemma HexUndoesPrint(s: CString, p: nat, v: Value, b: seq<Byte>, maxlen: nat)
    requires Here(s, p, Print(v)) && Spells(v, b) && |b| <= maxlen && |b| <= MAX_CB
    ensures HexValue(s, p, maxlen) == Some(b)
  {
    hide Str, HexBytes, Here;
    HexHasNoQuote(b);
    forall i | 0 <= i < |v.raw|
      ensures v.raw[i] != '"'
    {
      assert Lower(v.raw)[i] == LowerChar(v.raw[i]);
      assert Lower(v.raw)[i] in Hex(b);
    }
    StrUndoesPrint(s, p, v.raw, HEX_BUF);
    HexExact(v.raw, b);
  }

  /** js_hex on any printed value: it gives b exactly when the value spells b and b fits. */
  lemma HexOfPrint(s: CString, p: nat, v: Value, b: seq<Byte>, maxlen: nat)
    requires Here(s, p, Print(v)) && WellFormed(v) && maxlen <= MAX_CB
    ensures HexValue(s, p, maxlen) == Some(b) <==> Spells(v, b) && |b| <= maxlen
  {
    hide Str, HexBytes, Here, Print, UpToQuote, StringText, Lower, Hex;
    Inside(s, p, Print(v));
    StrOfPrint(s, p, v, HEX_BUF);
    if HexValue(s, p, maxlen) == Some(b) {
      var t := UpToQuote(v.raw);
      HexExact(t, b);
      NoBackslash(t, b);
      CutShows(v.raw);
    }
    if Spells(v, b) && |b| <= maxlen { HexUndoesPrint(s, p, v, b, maxlen); }
  }

  lemma NoBackslash(t: string, b: seq<Byte>)
    requires Lower(t) == Hex(b)
    ensures '\\' !in t
  {
    hide Hex;
    HexIsPlain(b);
    forall i | 0 <= i < |t|
      ensures t[i] != '\\'
    {
      assert Lower(t)[i] == LowerChar(t[i]);
      assert Lower(t)[i] in Hex(b);
    }
  }

  lemma {:induction false} HexIsPlain(b: seq<Byte>)
    ensures '\\' !in Hex(b)
  {
    if b != [] { HexIsPlain(b[1..]); }
  }

  lemma {:induction false} HexHasNoQuote(b: seq<Byte>)
    ensures '"' !in Hex(b)
  {
    if b != [] { HexHasNoQuote(b[1..]); }
  }

  // ---------------------------------------------------------------- mining.notify

  type Bytes8 = b: seq<Byte> | |b| == 8 witness seq(8, _ => 0)
  type CoinbasePart = b: seq<Byte> | |b| <= MAX_CB witness []
  type Branches = b: seq<Bytes32> | |b| <= MAX_BRANCHES witness []

  datatype Job = Job(id: string, prevhash: Bytes32, coinb1: CoinbasePart, coinb2: CoinbasePart,
                     branches: Branches, nbits: U32, ntime: Bytes8, clean: bool)

  function ExactHex(s: CString, v: Option<nat>, n: nat): (r: Option<seq<Byte>>)
    requires v.Some? ==> v.value <= |s|
    ensures r.Some? ==> |r.value| == n
  {
    if v.None? then None
    else
      match HexValue(s, v.value, n)
      case None => None
      case Some(b) => if |b| == n then Some(b) else None
  }

  function BranchList(s: CString, arr: nat, n: nat): (r: Option<seq<Bytes32>>)
    requires arr <= |s|
    ensures r.Some? ==> |r.value| == n
  {
    if n == 0 then Some([])
    else
      var front, last := BranchList(s, arr, n - 1), ExactHex(s, Elem(s, arr, n - 1), 32);
      if front.None? || last.None? then None else Some(front.value + [last.value])
  }

  function BranchesAt(s: CString, arr: nat): (r: Option<Branches>)
    requires arr <= |s|
  {
    var n := Count(s, arr);
    if n < 0 || n > MAX_BRANCHES then None else BranchList(s, arr, n)
  }

  /** js_true */
  predicate IsTrue(s: CString, v: nat)
    requires v <= |s|
  {
    var q := Ws(s, v);
    q + 4 <= |s| && s[q..q + 4] == "true"
  }

  /** on_notify: the job in the params array at p, if it is acceptable. */
  function Notified(s: CString, p: nat): Option<Job>
    requires p <= |s|
  {
    if Count(s, p) < 9 then None
    else
      var id, cb1, cb2, br, clean := Elem(s, p, 0), Elem(s, p, 2), Elem(s, p, 3), Elem(s, p, 4), Elem(s, p, 8);
      if id.None? || cb1.None? || cb2.None? || br.None? then None
      else
        var name := Str(s, id.value, JOB_ID_BUF);
        var prev, bits, ntime := ExactHex(s, Elem(s, p, 1), 32), ExactHex(s, Elem(s, p, 6), 4), ExactHex(s, Elem(s, p, 7), 8);
        var first, second := HexValue(s, cb1.value, MAX_CB), HexValue(s, cb2.value, MAX_CB);
        var branches := BranchesAt(s, br.value);
        if name.None? || prev.None? || bits.None? || ntime.None? || first.None? || second.None? || branches.None? then None
        else
          FourBytes(bits.value);
          Some(Job(name.value, prev.value, first.value, second.value, branches.value, LE(bits.value), ntime.value,
                   clean.None? || IsTrue(s, clean.value)))
  }

  lemma FourBytes(b: seq<Byte>)
    requires |b| == 4
    ensures 0 <= LE(b) < 0x1_0000_0000
  {
    hide LE;
    Pow256Values();
    LEBound(b);
  }

  method JsTrue(s: CString, v: nat) returns (r: bool)
    requires v <= |s|
    ensures r <==> IsTrue(s, v)
  {
    var q := JsWs(s, v);
    var k, literal := 0, "true";
    while k < 4 && At(s, q + k) == literal[k]
      invariant k <= 4 && q + k <= |s| && s[q..q + k] == literal[..k]
    {
      assert literal[k] != '\0';
      assert s[q..q + k + 1] == s[q..q + k] + [s[q + k]];
      k := k + 1;
    }
    if k < 4 && q + 4 <= |s| {
      assert s[q..q + 4][k] != literal[k];
    }
    r := k == 4;
  }

  /** js_hex where the caller then insists on the full length. */
  method JsHexExact(s: CString, v: Option<nat>, n: nat) returns (r: Option<seq<Byte>>)
    requires v.Some? ==> v.value <= |s|
    ensures r == ExactHex(s, v, n)
  {
    if v.None? {
      return None;
    }
    r := JsHex(s, v.value, n);
    if r.Some? && |r.value| != n {
      return None;
    }
  }

  method ReadBranches(s: CString, arr: nat) returns (r: Option<Branches>)
    requires arr <= |s|
    ensures r == BranchesAt(s, arr)
  {
    hide ExactHex, Elem, Count;
    var n := JsCount(s, arr);
    if n < 0 || n > MAX_BRANCHES {
      return None;
    }
    var list: seq<Bytes32> := [];
    for i := 0 to n
      invariant BranchList(s, arr, i) == Some(list)
    {
      var e := JsElem(s, arr, i);
      var b := JsHexExact(s, e, 32);
      if b.None? {
        MissingBranch(s, arr, i, n);
        return None;
      }
      list := list + [b.value];
    }
    r := Some(list);
  }

  lemma {:induction false} MissingBranch(s: CString, arr: nat, i: nat, n: nat)
    requires arr <= |s| && i < n && ExactHex(s, Elem(s, arr, i), 32).None?
    ensures BranchList(s, arr, n) == None
    decreases n
  {
    hide ExactHex, Elem;
    if i < n - 1 { MissingBranch(s, arr, i, n - 1); }
  }

  method OnNotify(s: CString, p: nat) returns (r: Option<Job>)
    requires p <= |s|
    ensures r == Notified(s, p)
  {
    hide Elem, Count, Str, HexValue, ExactHex, BranchesAt, IsTrue, LE;
    var n := JsCount(s, p);
    if n < 9 {
      return None;
    }
    var id := JsElem(s, p, 0);
    var prev := JsElem(s, p, 1);
    var cb1 := JsElem(s, p, 2);
    var cb2 := JsElem(s, p, 3);
    var br := JsElem(s, p, 4);
    var bits := JsElem(s, p, 6);
    var ntime := JsElem(s, p, 7);
    var clean := JsElem(s, p, 8);
    if id.None? || prev.None? || cb1.None? || cb2.None? || br.None? || bits.None? || ntime.None? {
      NothingThere(s);
      return None;
    }
    var name := JsStr(s, id.value, JOB_ID_BUF);
    if name.None? { return None; }
    var prevhash := JsHexExact(s, prev, 32);
    if prevhash.None? { return None; }
    var coinb1 := JsHex(s, cb1.value, MAX_CB);
    if coinb1.None? { return None; }
    var coinb2 := JsHex(s, cb2.value, MAX_CB);
    if coinb2.None? { return None; }
    var branches := ReadBranches(s, br.value);
    if branches.None? { return None; }
    var time := JsHexExact(s, ntime, 8);
    if time.None? { return None; }
    var nb := JsHexExact(s, bits, 4);
    if nb.None? { return None; }
    var isClean := true;
    if clean.Some? { isClean := JsTrue(s, clean.value); }
    FourBytes(nb.value);
    r := Some(Job(name.value, prevhash.value, coinb1.value, coinb2.value, branches.value, LE(nb.value),
                  time.value, isClean));
  }

  lemma NothingThere(s: CString)
    ensures forall n :: ExactHex(s, None, n) == None
  {
  }

  /** A params array that announces this job: whatever its spacing, digit case and extra
      elements. */
  ghost predicate Announces(v: Value, job: Job) {
    && v.Array? && Length(v.items) >= 9
    && Nth(v.items, 0) == Text(job.id) && '"' !in job.id && |job.id| < JOB_ID_BUF
    && Spells(Nth(v.items, 1), job.prevhash)
    && Spells(Nth(v.items, 2), job.coinb1)
    && Spells(Nth(v.items, 3), job.coinb2)
    && AnnouncesBranches(Nth(v.items, 4), job.branches)
    && Spells(Nth(v.items, 6), ToLE(job.nbits, 4))
    && Spells(Nth(v.items, 7), job.ntime)
    && Nth(v.items, 8) == Token(if job.clean then "true" else "false")
  }

  ghost predicate AnnouncesBranches(v: Value, branches: Branches) {
    && v.Array? && Length(v.items) == |branches|
    && forall i :: 0 <= i < |branches| ==> Spells(Nth(v.items, i), branches[i])
  }

  lemma {:induction false} NthWellFormed(items: Items, i: nat)
    requires ItemsWellFormed(items) && i < Length(items)
    ensures WellFormed(Nth(items, i))
  {
    if i > 0 { NthWellFormed(items.rest, i - 1); }
  }

  /** Element i spells b, so js_elem and js_hex find b there. */
  lemma ElemSpells(s: CString, p: nat, v: Value, i: nat, b: seq<Byte>, maxlen: nat)
    requires Here(s, p, Print(v)) && WellFormed(v) && v.Array? && i < Length(v.items)
    requires Spells(Nth(v.items, i), b) && |b| <= maxlen && |b| <= MAX_CB
    ensures p <= |s| && Elem(s, p, i).Some? && HexValue(s, Elem(s, p, i).value, maxlen) == Some(b)
  {
    hide Print, Elem, Count, HexValue, Spells, Nth, Length;
    ElemUndoesPrint(s, p, v, i);
    HexUndoesPrint(s, Elem(s, p, i).value, Nth(v.items, i), b, maxlen);
  }

  lemma IdElem(s: CString, p: nat, v: Value, i: nat, id: string)
    requires Here(s, p, Print(v)) && WellFormed(v) && v.Array? && i < Length(v.items)
    requires Nth(v.items, i) == Text(id) && '"' !in id
    ensures p <= |s| && Elem(s, p, i).Some?
    ensures forall outlen :: |id| < outlen ==> Str(s, Elem(s, p, i).value, outlen) == Some(id)
  {
    hide Print, Elem, Count, Nth, Length, Str, Quoted;
    ElemUndoesPrint(s, p, v, i);
    TextPrints(id);
    forall outlen | |id| < outlen
      ensures Str(s, Elem(s, p, i).value, outlen) == Some(id)
    {
      StrUndoesPrint(s, Elem(s, p, i).value, id, outlen);
    }
  }

  lemma ElemThere(s: CString, p: nat, v: Value, i: nat)
    requires Here(s, p, Print(v)) && WellFormed(v) && v.Array? && i < Length(v.items)
    ensures p <= |s| && Elem(s, p, i).Some? && Here(s, Elem(s, p, i).value, Print(Nth(v.items, i)))
  {
    hide Print, Elem, Count, Nth, Length, WellFormed;
    ElemUndoesPrint(s, p, v, i);
  }

  // ---------------------------------------------------------------- exactly what is read

  /** The params values the handler takes for this job: strings cut at a quote, hex in either case,
      at most 32 branches, a flag that begins with "true" or does not. Elements 5 and from 9 on are
      not looked at. */
  ghost predicate ReadAs(v: Value, job: Job) {
    && v.Array? && Length(v.items) >= 9
    && Nth(v.items, 0).Text? && UpToQuote(Nth(v.items, 0).raw) == job.id && |job.id| < JOB_ID_BUF
    && Spells(Nth(v.items, 1), job.prevhash)
    && Spells(Nth(v.items, 2), job.coinb1)
    && Spells(Nth(v.items, 3), job.coinb2)
    && AnnouncesBranches(Nth(v.items, 4), job.branches)
    && Spells(Nth(v.items, 6), ToLE(job.nbits, 4))
    && Spells(Nth(v.items, 7), job.ntime)
    && (job.clean <==> BeginsTrue(Nth(v.items, 8)))
  }

  predicate BeginsTrue(v: Value) { v.Token? && "true" <= v.t }

  lemma TrueOfPrint(s: CString, p: nat, v: Value)
    requires Here(s, p, Print(v)) && WellFormed(v) && Ends(s, p + |Print(v)|)
    ensures IsTrue(s, p) <==> BeginsTrue(v)
  {
    hide PrintItems, PrintMembers, StringText, AllWs, Ws;
    FirstChar(s, p, v);
    if v.Token? && p + 4 <= |s| {
      var t := v.t;
      if |t| >= 4 {
        assert s[p..p + 4] == t[..4];
      } else {
        assert s[p..p + 4][|t|] == s[p + |t|];
        assert "true"[|t|] in "true";
      }
    }
  }

  lemma CleanRead(s: CString, p: nat, v: Value)
    requires Here(s, p, Print(v)) && WellFormed(v) && v.Array? && Length(v.items) >= 9
    ensures Elem(s, p, 8).Some? && (IsTrue(s, Elem(s, p, 8).value) <==> BeginsTrue(Nth(v.items, 8)))
  {
    hide *;
    ElemThere(s, p, v, 8);
    ElemEnds(s, p, v, 8);
    ItemWellFormed(v, 8);
    TrueOfPrint(s, Elem(s, p, 8).value, Nth(v.items, 8));
  }

  lemma ItemWellFormed(v: Value, i: nat)
    requires v.Array? && WellFormed(v) && i < Length(v.items)
    ensures WellFormed(Nth(v.items, i))
  {
    hide Nth, Length;
    NthWellFormed(v.items, i);
  }

  lemma HexRead(s: CString, p: nat, v: Value, i: nat, b: seq<Byte>, maxlen: nat)
    requires Here(s, p, Print(v)) && WellFormed(v) && v.Array? && i < Length(v.items) && maxlen <= MAX_CB
    ensures Elem(s, p, i).Some?
    ensures HexValue(s, Elem(s, p, i).value, maxlen) == Some(b) <==> Spells(Nth(v.items, i), b) && |b| <= maxlen
  {
    hide *;
    ElemThere(s, p, v, i);
    ItemWellFormed(v, i);
    HexOfPrint(s, Elem(s, p, i).value, Nth(v.items, i), b, maxlen);
  }

  lemma ExactRead(s: CString, p: nat, v: Value, i: nat, b: seq<Byte>, n: nat)
    requires Here(s, p, Print(v)) && WellFormed(v) && v.Array? && i < Length(v.items) && n <= MAX_CB && |b| == n
    ensures Elem(s, p, i).Some?
    ensures ExactHex(s, Elem(s, p, i), n) == Some(b) <==> Spells(Nth(v.items, i), b)
  {
    hide Here, Print, WellFormed, Elem, Nth, Length, HexValue, Spells;
    HexRead(s, p, v, i, b, n);
  }

  lemma {:induction false} BranchListRead(s: CString, p: nat, v: Value, bs: seq<Bytes32>, n: nat)
    requires Here(s, p, Print(v)) && WellFormed(v) && v.Array? && n <= Length(v.items) && |bs| == n
    ensures BranchList(s, p, n) == Some(bs) <==> forall i :: 0 <= i < n ==> Spells(Nth(v.items, i), bs[i])
  {
    hide Here, Print, WellFormed, Elem, Nth, Length, ExactHex, Spells;
    if n > 0 {
      var front, last := bs[..n - 1], bs[n - 1];
      BranchListRead(s, p, v, front, n - 1);
      ExactRead(s, p, v, n - 1, last, 32);
      assert bs == front + [last];
    }
  }

  lemma BranchesReadAs(s: CString, q: nat, v: Value, branches: Branches)
    requires Here(s, q, Print(v)) && WellFormed(v)
    ensures BranchesAt(s, q) == Some(branches) <==> AnnouncesBranches(v, branches)
  {
    hide Here, Print, WellFormed, Elem, Nth, Length, BranchList, Spells, CountFrom;
    if v.Array? {
      ElemUndoesPrint(s, q, v, 0);
      if Length(v.items) == |branches| { BranchListRead(s, q, v, branches, |branches|); }
    } else {
      NotCounted(s, q, v);
    }
  }

  lemma NotCounted(s: CString, p: nat, v: Value)
    requires Here(s, p, Print(v)) && WellFormed(v) && !v.Array?
    ensures Count(s, p) == -1
  {
    hide Here, Print, CountFrom, StringText, AllWs, Ws;
    FirstChar(s, p, v);
    if v.Token? { assert TokenChar(v.t[0]); }
  }

  lemma IdRead(s: CString, p: nat, v: Value, id: string)
    requires Here(s, p, Print(v)) && WellFormed(v) && v.Array? && Length(v.items) >= 9
    ensures Elem(s, p, 0).Some?
    ensures Str(s, Elem(s, p, 0).value, JOB_ID_BUF) == Some(id)
       <==> Nth(v.items, 0).Text? && UpToQuote(Nth(v.items, 0).raw) == id && |id| < JOB_ID_BUF
  {
    hide Here, Print, WellFormed, Elem, Nth, Length, Str, UpToQuote;
    ElemThere(s, p, v, 0);
    ItemWellFormed(v, 0);
    StrOfPrint(s, Elem(s, p, 0).value, Nth(v.items, 0), JOB_ID_BUF);
  }

  lemma BranchesElem(s: CString, p: nat, v: Value, branches: Branches)
    requires Here(s, p, Print(v)) && WellFormed(v) && v.Array? && Length(v.items) >= 9
    ensures Elem(s, p, 4).Some? && Count(s, p) == Length(v.items)
    ensures BranchesAt(s, Elem(s, p, 4).value) == Some(branches) <==> AnnouncesBranches(Nth(v.items, 4), branches)
  {
    hide Here, Print, WellFormed, Elem, Nth, Length, BranchesAt, AnnouncesBranches;
    ElemUndoesPrint(s, p, v, 4);
    ItemWellFormed(v, 4);
    BranchesReadAs(s, Elem(s, p, 4).value, Nth(v.items, 4), branches);
  }

  lemma BitsRead(b: seq<Byte>, x: U32)
    requires |b| == 4
    ensures LE(b) == x <==> b == ToLE(x, 4)
  {
    hide LE, ToLE;
    Pow256Values();
    LEToLE(x, 4);
    if LE(b) == x { ToLELE(b); }
  }

  /** Exactly when the handler takes a printed value for this job. */
  lemma NotifiedIff(s: CString, p: nat, v: Value, job: Job)
    requires Here(s, p, Print(v)) && WellFormed(v)
    ensures p <= |s| && (Notified(s, p) == Some(job) <==> ReadAs(v, job))
  {
    hide Here, Print, WellFormed, Elem, Count, HexValue, Spells, Nth, Length, Str, IsTrue, LE, ToLE, BranchesAt,
      AnnouncesBranches, UpToQuote, BeginsTrue, ExactHex;
    Inside(s, p, Print(v));
    if !v.Array? {
      NotCounted(s, p, v);
    } else {
      ElementCount(s, p, v);
      if Length(v.items) >= 9 {
        IdRead(s, p, v, job.id);
        BranchesElem(s, p, v, job.branches);
        CleanRead(s, p, v);
        ExactRead(s, p, v, 1, job.prevhash, 32);
        HexRead(s, p, v, 2, job.coinb1, MAX_CB);
        HexRead(s, p, v, 3, job.coinb2, MAX_CB);
        ExactRead(s, p, v, 6, ToLE(job.nbits, 4), 4);
        ExactRead(s, p, v, 7, job.ntime, 8);
        var bits := ExactHex(s, Elem(s, p, 6), 4);
        if bits.Some? { BitsRead(bits.value, job.nbits); }
        Pow256Values();
        LEToLE(job.nbits, 4);
      }
    }
  }

  lemma Inside(s: CString, p: nat, w: string)
    requires Here(s, p, w)
    ensures p <= |s|
  {
  }

  lemma ElementCount(s: CString, p: nat, v: Value)
    requires Here(s, p, Print(v)) && WellFormed(v) && v.Array?
    ensures Count(s, p) == Length(v.items)
  {
    hide Here, Print, WellFormed, Elem, Count, Nth, Length;
    ElemUndoesPrint(s, p, v, -1);
  }

  /** Reading undoes announcing: every printed announcement of a job is read as that job. */
  lemma NotifyUndoesPrint(s: CString, p: nat, v: Value, job: Job)
    requires Here(s, p, Print(v)) && WellFormed(v) && Announces(v, job)
    ensures p <= |s| && Notified(s, p) == Some(job)
  {
    hide Here, Print, WellFormed, Notified, Nth, Length, Spells, AnnouncesBranches, ToLE;
    WholeWithoutQuote(job.id);
    NotifiedIff(s, p, v, job);
  }

  lemma {:induction false} WholeWithoutQuote(raw: string)
    requires '"' !in raw
    ensures UpToQuote(raw) == raw
  {
    if raw != "" {
      assert raw[0] in raw;
      WholeWithoutQuote(raw[1..]);
    }
  }

  lemma TextPrints(raw: string)
    ensures Print(Text(raw)) == Quoted(raw)
  {
  }

  // ---------------------------------------------------------------- mining.submit

  /** Decimal digits, as %llu prints them. */
  function Decimal(n: nat): string {
    if n < 10 then [Digit(n)] else Decimal(n / 10) + [Digit(n % 10)]
  }

  lemma {:induction false} DecimalIsToken(n: nat)
    ensures TokenText(Decimal(n))
  {
    if n >= 10 {
      DecimalIsToken(n / 10);
    }
  }

  /** The fields of a mining.submit. */
  datatype Share = Share(id: nat, worker: string, jobId: string, en2: seq<Byte>, ntime: Bytes8, nonce: Bytes8)

  function Commas(parts: seq<string>): string {
    if parts == [] then "" else if |parts| == 1 then parts[0] else parts[0] + "," + Commas(parts[1..])
  }

  /** The five parameters, in order. */
  function Params(x: Share): seq<string> {
    [x.worker, x.jobId, Hex(x.en2), Hex(x.ntime), Hex(x.nonce)]
  }

  function AllQuoted(raws: seq<string>): seq<string> {
    seq(|raws|, i requires 0 <= i < |raws| => Quoted(raws[i]))
  }

  /** stratum_submit's format string, filled in. */
  function SubmitLine(x: Share): string {
    "{" + "\"id\"" + ":" + Decimal(x.id) + "," + "\"method\"" + ":" + "\"mining.submit\"" + ","
    + "\"params\"" + ":" + "[" + Commas(AllQuoted(Params(x))) + "]" + "}" + "\n"
  }

  method Submit(x: Share) returns (line: string)
    requires |x.en2| <= MAX_EN2
    ensures line == SubmitLine(x)
  {
    hide Hex, Decimal;
    var en2h := Bin2Hex(x.en2);
    var nth := Bin2Hex(x.ntime);
    var noh := Bin2Hex(x.nonce);
    var fields := [x.worker, x.jobId, en2h, nth, noh];
    line := "{" + "\"id\"" + ":" + Decimal(x.id) + "," + "\"method\"" + ":" + "\"mining.submit\"" + ","
      + "\"params\"" + ":" + "[" + Commas(AllQuoted(fields)) + "]" + "}" + "\n";
  }

  /** String values one after the other. */
  function ItemsOf(raws: seq<string>): Items {
    if raws == [] then NoItem else Item("", Text(raws[0]), "", ItemsOf(raws[1..]))
  }

  lemma {:induction false} ItemsPrint(raws: seq<string>)
    ensures PrintItems(ItemsOf(raws)) == Commas(AllQuoted(raws))
  {
    hide Quoted;
    if raws != [] {
      ItemsPrint(raws[1..]);
      assert AllQuoted(raws)[1..] == AllQuoted(raws[1..]);
    }
  }

  lemma {:induction false} NthOf(raws: seq<string>, i: nat)
    requires i < |raws|
    ensures Length(ItemsOf(raws)) == |raws| && Nth(ItemsOf(raws), i) == Text(raws[i])
  {
    LengthOf(raws);
    if i > 0 { NthOf(raws[1..], i - 1); }
  }

  lemma {:induction false} LengthOf(raws: seq<string>)
    ensures Length(ItemsOf(raws)) == |raws|
  {
    if raws != [] { LengthOf(raws[1..]); }
  }

  lemma {:induction false} ItemsOfWellFormed(raws: seq<string>)
    requires forall i :: 0 <= i < |raws| ==> StringText(raws[i])
    ensures ItemsWellFormed(ItemsOf(raws))
  {
    if raws != [] {
      assert StringText(raws[0]);
      ItemsOfWellFormed(raws[1..]);
    }
  }

  /** The JSON value a submit line stands for. */
  function SubmitParams(x: Share): Value { Array("", ItemsOf(Params(x))) }

  function SubmitMembers(x: Share): Members {
    Member("", "id", "", "", Token(Decimal(x.id)), "",
      Member("", "method", "", "", Text("mining.submit"), "",
        Member("", "params", "", "", SubmitParams(x), "", NoMember)))
  }

  function SubmitValue(x: Share): Value { Object("", SubmitMembers(x)) }

  lemma PrintMember(key: string, v: Value, rest: Members)
    ensures PrintMembers(Member("", key, "", "", v, "", rest))
         == Quoted(key) + (":" + (Print(v) + if rest.NoMember? then "" else "," + PrintMembers(rest)))
  {
    hide Quoted, Print;
    var m := Member("", key, "", "", v, "", rest);
    var tail := if rest.NoMember? then "" else "," + PrintMembers(rest);
    assert PrintMembers(m) == "" + Quoted(key) + "" + ":" + "" + Print(v) + "" + tail by {
      hide *;
      MemberText(m);
    }
    Blanks(Quoted(key), ":", Print(v), tail);
  }

  lemma Blanks(a: string, b: string, c: string, d: string)
    ensures "" + a + "" + b + "" + c + "" + d == a + (b + (c + d))
  {
    assert "" + a + "" == a;
    assert a + b + "" == a + b;
    assert a + b + c + "" == a + b + c;
  }

  lemma PrintsSubmit(x: Share)
    ensures SubmitLine(x) == Print(SubmitValue(x)) + "\n"
  {
    hide *;
    var id, list := Decimal(x.id), Commas(AllQuoted(Params(x)));
    var last := Member("", "params", "", "", SubmitParams(x), "", NoMember);
    var middle := Member("", "method", "", "", Text("mining.submit"), "", last);
    PrintsParams(x);
    PrintMember("params", SubmitParams(x), NoMember);
    PrintMember("method", Text("mining.submit"), last);
    PrintMember("id", Token(id), middle);
    Literals(id);
    SubmitPieces("{", "\"id\"", ":", id, ",", "\"method\"", "\"mining.submit\"", "\"params\"", "[" + "" + list + "]", "}",
                 PrintMembers(last), PrintMembers(middle));
    PrintsOuter(x);
  }

  lemma PrintsParams(x: Share)
    ensures Print(SubmitParams(x)) == "[" + "" + Commas(AllQuoted(Params(x))) + "]"
  {
    hide Commas, AllQuoted, Params, PrintItems;
    ItemsPrint(Params(x));
  }

  lemma PrintsOuter(x: Share)
    ensures Print(SubmitValue(x)) == "{" + "" + PrintMembers(SubmitMembers(x)) + "}"
    ensures SubmitMembers(x)
         == Member("", "id", "", "", Token(Decimal(x.id)), "",
              Member("", "method", "", "", Text("mining.submit"), "",
                Member("", "params", "", "", SubmitParams(x), "", NoMember)))
    ensures SubmitLine(x)
         == "{" + "\"id\"" + ":" + Decimal(x.id) + "," + "\"method\"" + ":" + "\"mining.submit\"" + ","
            + "\"params\"" + ":" + "[" + Commas(AllQuoted(Params(x))) + "]" + "}" + "\n"
  {
    hide PrintMembers, Decimal, Params, SubmitParams, AllQuoted, Commas;
  }

  lemma Literals(id: string)
    ensures Quoted("id") == "\"id\"" && Quoted("method") == "\"method\"" && Quoted("params") == "\"params\""
    ensures Print(Text("mining.submit")) == "\"mining.submit\"" && Print(Token(id)) == id
  {
  }

  /** Re-bracketing the pieces of the line. */
  lemma SubmitPieces(open: string, idKey: string, colon: string, id: string, comma: string, methodKey: string,
                     name: string, paramsKey: string, list: string, close: string, last: string, middle: string)
    requires last == paramsKey + (colon + (list + ""))
    requires middle == methodKey + (colon + (name + (comma + last)))
    ensures open + idKey + colon + id + comma + methodKey + colon + name + comma + paramsKey + colon + list + close
         == open + "" + (idKey + (colon + (id + (comma + middle)))) + close
  {
    var front := open + idKey + colon + id + comma;
    Glue(front, methodKey, colon, name);
    Glue(front + methodKey + colon + name, comma, paramsKey, colon);
    assert list + "" == list;
    Glue(open, idKey, colon, id);
    assert open + "" == open;
    Glue(front + methodKey, colon, name, comma + last);
    Glue(front, methodKey, colon + (name + (comma + last)), "");
    Glue(open + idKey, colon, id, comma + middle);
    Glue(open, idKey, colon + (id + (comma + middle)), "");
  }

  lemma Glue(a: string, b: string, c: string, d: string)
    ensures a + b + c + d == a + (b + (c + d))
  {
  }

  lemma ParamsWellFormed(x: Share)
    requires StringText(x.worker) && StringText(x.jobId)
    ensures WellFormed(SubmitParams(x))
  {
    hide Hex, StringText;
    HexIsText(x.en2);
    HexIsText(x.ntime);
    HexIsText(x.nonce);
    ItemsOfWellFormed(Params(x));
  }

  lemma MemberWellFormed(key: string, v: Value, rest: Members)
    requires '"' !in key && '\\' !in key && WellFormed(v) && MembersWellFormed(rest)
    ensures MembersWellFormed(Member("", key, "", "", v, "", rest))
  {
    hide StringText, WellFormed;
    PlainText(key);
  }

  lemma SubmitWellFormed(x: Share)
    requires StringText(x.worker) && StringText(x.jobId)
    ensures WellFormed(SubmitValue(x))
  {
    hide Decimal, StringText, SubmitParams, MembersWellFormed;
    ParamsWellFormed(x);
    DecimalIsToken(x.id);
    PlainText("mining.submit");
    assert MembersWellFormed(NoMember) by { NoneWellFormed(); }
    var last := Member("", "params", "", "", SubmitParams(x), "", NoMember);
    MemberWellFormed("params", SubmitParams(x), NoMember);
    MemberWellFormed("method", Text("mining.submit"), last);
    MemberWellFormed("id", Token(Decimal(x.id)), Member("", "method", "", "", Text("mining.submit"), "", last));
  }

  lemma NoneWellFormed()
    ensures MembersWellFormed(NoMember)
  {
  }

  lemma {:induction false} PlainText(t: string)
    requires '"' !in t && '\\' !in t
    ensures StringText(t)
  {
    if t != "" {
      assert t[0] in t;
      PlainText(t[1..]);
    }
  }

  lemma {:induction false} HexIsText(b: seq<Byte>)
    ensures StringText(Hex(b))
  {
    if b != [] {
      HexIsText(b[1..]);
      var t := Hex(b);
      assert t[1..][1..] == Hex(b[1..]);
      assert t[0] == Digit(b[0] / 16) && t[1..][0] == Digit(b[0] % 16);
    }
  }

  /** The pool gets back what was submitted: in the params array of the line, fields 2 to 4
      decode to the extranonce2, the time and the nonce, and field 1 is the job id. */
  lemma SubmitUndone(x: Share, line: CString)
    requires StringText(x.worker) && StringText(x.jobId) && '"' !in x.jobId && |x.en2| <= MAX_EN2
    requires line == SubmitLine(x)
    ensures var params := Get(line, 0, "params");
            params.Some?
            && Count(line, params.value) == 5
            && Elem(line, params.value, 1).Some?
            && (forall outlen :: |x.jobId| < outlen ==>
                  Str(line, Elem(line, params.value, 1).value, outlen) == Some(x.jobId))
            && ExactHex(line, Elem(line, params.value, 2), |x.en2|) == Some(x.en2)
            && ExactHex(line, Elem(line, params.value, 3), 8) == Some(x.ntime)
            && ExactHex(line, Elem(line, params.value, 4), 8) == Some(x.nonce)
  {
    hide Hex, Decimal, Print, Elem, Count, HexValue, Get, Str, Nth, Length, SubmitLine, Find, Spells, Lower, WellFormed;
    PrintsSubmit(x);
    SubmitWellFormed(x);
    var v := SubmitValue(x);
    assert line[0..|Print(v)|] == Print(v);
    GetUndoesPrint(line, 0, v, "params");
    FindParams(x);
    var p, a := Get(line, 0, "params").value, SubmitParams(x);
    ParamsWellFormed(x);
    LengthOf(Params(x));
    ElemUndoesPrint(line, p, a, 1);
    NthOf(Params(x), 1);
    IdElem(line, p, a, 1, x.jobId);
    ParamSpells(x, 2, x.en2);
    ElemSpells(line, p, a, 2, x.en2, |x.en2|);
    ParamSpells(x, 3, x.ntime);
    ElemSpells(line, p, a, 3, x.ntime, 8);
    ParamSpells(x, 4, x.nonce);
    ElemSpells(line, p, a, 4, x.nonce, 8);
  }

  lemma ParamSpells(x: Share, i: nat, b: seq<Byte>)
    requires i < 5 && Params(x)[i] == Hex(b)
    ensures i < Length(SubmitParams(x).items) && Spells(Nth(SubmitParams(x).items, i), b)
  {
    hide Hex, Nth, Length;
    NthOf(Params(x), i);
    HexIsLower(b);
  }

  lemma {:induction false} HexIsLower(b: seq<Byte>)
    ensures Lower(Hex(b)) == Hex(b)
  {
    if b != [] {
      HexIsLower(b[1..]);
      DigitExact(Digit(b[0] / 16), b[0] / 16);
      DigitExact(Digit(b[0] % 16), b[0] % 16);
      var t := Hex(b);
      forall i | 0 <= i < |t|
        ensures LowerChar(t[i]) == t[i]
      {
        if i >= 2 { assert t[i] == Hex(b[1..])[i - 2] == Lower(Hex(b[1..]))[i - 2]; }
      }
    }
  }

  lemma FindParams(x: Share)
    ensures Find(SubmitMembers(x), "params").Some? && Find(SubmitMembers(x), "params").value.1 == SubmitParams(x)
  {
    hide Print, SubmitParams, Decimal;
    var last := Member("", "params", "", "", SubmitParams(x), "", NoMember);
    var middle := Member("", "method", "", "", Text("mining.submit"), "", last);
    assert "id" != "params" by { assert |"id"| != |"params"|; }
    assert "method" != "params" by { assert "method"[0] != "params"[0]; }
    assert Find(last, "params").Some?;
    assert Find(middle, "params").Some?;
  }
}
