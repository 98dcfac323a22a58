/** Witness address decoding (miner/bech32.c): character checks, separator, checksum, and the
    5-to-8-bit regrouping. */
module Address {
  import opened Words
  import HostCheck
  import B = Bech32

  type Group = x: int | 0 <= x < 32

  // ---------------------------------------------------------------- regrouping

  /** Value of a string of five-bit groups, most significant first. */
  function Value32(d: seq<Group>): nat {
    if d == [] then 0 else 32 * Value32(d[..|d| - 1]) + d[|d| - 1]
  }

  const MAX_PROGRAM: nat := 40

  /** What convert5to8 accepts: fewer than five left-over bits, all zero, at most 40 bytes. */
  function Convert(d: seq<Group>): Option<seq<Byte>> {
    var n, left := 5 * |d| / 8, 5 * |d| % 8;
    if n > MAX_PROGRAM || left >= 5 || Value32(d) % Pow2(left) != 0 then None
    else Some(ToBE(Value32(d) / Pow2(left), n))
  }

  /** convert5to8 on the first count bytes of its input. The accumulator is never masked; its
      high bits wrap round unread. A count beyond the input is harmless: whatever the bytes, the
      output is full, and the conversion rejected, before the sixty-seventh is read. */
  method Convert5to8(input: seq<Byte>, count: nat) returns (r: Option<seq<Byte>>)
    requires count <= |input| ==> forall i :: 0 <= i < count ==> input[i] < 32
    requires count > |input| ==> |input| >= 66
    ensures r == if count <= |input| then Convert(input[..count]) else None
  {
    hide Value32, BE, Pow2, Shifted;
    var acc: U32, bits, out: seq<Byte> := 0, 0, [];
    ghost var v: nat := 0;
    ghost var within := count <= |input|;
    EmptyValues();
    for i := 0 to count
      invariant 0 <= bits < 8 && bits == 5 * i - 8 * |out| && |out| <= MAX_PROGRAM
      invariant within ==> v == Value32(input[..i]) && acc == v % TWO32 && BE(out) == v / Pow2(bits)
    {
      if within {
        assert input[..count][..i] == input[..i] && input[..count][..i + 1] == input[..i + 1];
        NextGroup(input[..count], i, v, bits);
        ShiftIn(v, acc, input[i]);
        ShiftedAdds(acc, input[i]);
      }
      v := 32 * v + input[i];
      acc := Shifted(acc, input[i]);
      bits := bits + 5;
      while bits >= 8
        invariant 0 <= bits <= 12 && bits == 5 * (i + 1) - 8 * |out| && |out| <= MAX_PROGRAM
        invariant within ==> acc == v % TWO32 && BE(out) == v / Pow2(bits)
      {
        bits := bits - 8;
        if |out| >= MAX_PROGRAM {
          if within { TooLong(input[..count]); }
          return None;
        }
        NextByte(v, bits);
        HostCheck.AppendBE(out, acc / Pow2(bits) % 256);
        out := out + [acc / Pow2(bits) % 256];
      }
    }
    assert count <= 66;
    assert |out| == 5 * count / 8 && bits == 5 * count % 8;
    if bits >= 5 { return None; }
    PaddingTest(v, bits);
    if acc * Pow2(8 - bits) % TWO32 % 256 != 0 { return None; }
    ToBEOfBE(out);
    r := Some(out);
  }

  /** (acc << 5) | x in 32 bits. */
  function Shifted(acc: U32, x: Byte): U32 {
    Pow2Values();
    Pow2Split(32, 8);
    assert Pow2(8) == 256;
    MulMonotone(256, 1, Pow2(24));
    OrNatBound(acc * 32 % TWO32, x, 32);
    OrNat(acc * 32 % TWO32, x)
  }

  lemma ShiftedAdds(acc: U32, x: Byte)
    requires x < 32
    ensures Shifted(acc, x) == acc * 32 % TWO32 + x
  {
    hide OrNat;
    assert Pow2(5) == 32;
    var a, b := acc / 0x800_0000, acc % 0x800_0000;
    QuotientUnique(acc * 32, TWO32, a, 32 * b);
    OrNatDisjoint(b, x, 5);
  }

  /** Sixty-six groups or more never fit, whatever they are. */
  lemma TooLong(d: seq<Group>)
    requires |d| >= 66
    ensures Convert(d) == None
  {
    hide Value32, Pow2;
  }

  lemma EmptyValues()
    ensures Value32([]) == 0 && BE([]) == 0 && 0 / Pow2(0) == 0
  {
  }

  lemma NextGroup(input: seq<Group>, i: nat, v: nat, bits: nat)
    requires i < |input| && v == Value32(input[..i])
    ensures Value32(input[..i + 1]) == 32 * v + input[i]
    ensures (32 * v + input[i]) / Pow2(bits + 5) == v / Pow2(bits)
  {
    assert input[..i + 1][..i] == input[..i];
    assert Pow2(bits + 5) == 32 * Pow2(bits) by { SmallPowers(); Pow2Split(bits + 5, 5); }
    DropGroup(v, input[i], Pow2(bits));
  }

  lemma DropGroup(v: nat, g: Group, p: nat)
    requires p > 0
    ensures (32 * v + g) / (32 * p) == v / p
  {
    DivDiv(32 * v + g, 32, p);
  }

  lemma ShiftIn(v: nat, acc: nat, g: Group)
    requires acc == v % TWO32
    ensures acc * 32 % TWO32 + g == (32 * v + g) % TWO32
  {
    var a, b := acc / 0x800_0000, acc % 0x800_0000;
    QuotientUnique(acc * 32, TWO32, a, 32 * b);
    QuotientUnique(32 * v + g, TWO32, 32 * (v / TWO32) + a, 32 * b + g);
  }

  lemma SmallPowers()
    ensures Pow2(0) == 1 && Pow2(1) == 2 && Pow2(2) == 4 && Pow2(3) == 8 && Pow2(4) == 16
    ensures Pow2(5) == 32 && Pow2(6) == 64 && Pow2(7) == 128 && Pow2(8) == 256
  {
  }

  lemma NextByte(v: nat, b: nat)
    requires b <= 4
    ensures v % TWO32 / Pow2(b) % 256 == v / Pow2(b) % 256
    ensures v / Pow2(b) == 256 * (v / Pow2(b + 8)) + v / Pow2(b) % 256
  {
    DivDiv(v, Pow2(b), 256);
    Pow2Plus8(b);
    Pow2Plus8(24 - b);
    Pow2Split(32, b);
    Pow2Values();
    LowByte(v, Pow2(b), Pow2(24 - b), TWO32);
  }

  lemma LowByte(v: nat, p: nat, m: nat, w: nat)
    requires p > 0 && w > 0 && p * (256 * m) == w
    ensures v % w / p % 256 == v / p % 256
  {
    var h, r := v / w, v % w;
    var t := r / p;
    LowByteSum(p, m, h, t);
    QuotientUnique(v, p, 256 * (m * h) + t, r % p);
    TopPart(m * h, t);
  }

  lemma LowByteSum(p: nat, m: nat, h: nat, t: nat)
    ensures p * (256 * (m * h) + t) == p * (256 * m) * h + p * t
  {
    Distribute(p, 256 * (m * h), t);
    Associate(256, m, h);
    Associate(p, 256 * m, h);
  }

  lemma TopPart(x: nat, t: nat)
    ensures (256 * x + t) % 256 == t % 256
  {
  }

  lemma PaddingTest(v: nat, b: nat)
    requires b <= 4
    ensures v % TWO32 * Pow2(8 - b) % TWO32 % 256 == 0 <==> v % Pow2(b) == 0
  {
    SmallPowers();
    var acc := v % TWO32;
    ByteOfWord(acc * Pow2(8 - b));
    HighPadding(acc, Pow2(b), Pow2(8 - b));
    Pow2Split(32, b);
    Pow2Values();
    LowOfWord(v, Pow2(b), Pow2(32 - b), TWO32);
  }

  lemma ByteOfWord(x: nat)
    ensures x % TWO32 % 256 == x % 256
  {
  }

  lemma HighPadding(acc: nat, p: nat, q: nat)
    requires p * q == 256
    ensures acc * q % 256 == 0 <==> acc % p == 0
  {
    var a, b := acc / p, acc % p;
    Distribute(q, p * a, b);
    Associate(q, p, a);
    if b > 0 { MulMonotone(q, 1, b); }
    MulMonotone(q, b + 1, p);
    Distribute(q, b, 1);
    QuotientUnique(acc * q, 256, a, q * b);
  }

  lemma LowOfWord(v: nat, p: nat, k: nat, w: nat)
    requires p > 0 && w > 0 && p * k == w
    ensures v % w % p == v % p
  {
    var h, r := v / w, v % w;
    LowSum(p, k, h, r / p, r % p);
    QuotientUnique(v, p, k * h + r / p, r % p);
  }

  lemma LowSum(p: nat, k: nat, h: nat, t: nat, e: nat)
    ensures p * (k * h + t) + e == p * k * h + (p * t + e)
  {
    Associate(p, k, h);
    Distribute(p, k * h, t);
  }

  lemma {:induction false} Value32Injective(a: seq<Group>, b: seq<Group>)
    requires |a| == |b| && Value32(a) == Value32(b)
    ensures a == b
  {
    if a != [] {
      var n := |a| - 1;
      Value32Injective(a[..n], b[..n]);
      assert a == a[..n] + [a[n]] && b == b[..n] + [b[n]];
    }
  }

  /** The regrouping loses nothing: an accepted program has exactly one string of groups. */
  lemma ConvertInjective(a: seq<Group>, b: seq<Group>)
    requires Convert(a).Some? && Convert(a) == Convert(b)
    ensures a == b
  {
    hide Value32, Pow2, ToBE;
    assert |a| == |b|;
    var left := 5 * |a| % 8;
    GroupsBound(a);
    GroupsBound(b);
    SameValue(Value32(a), Value32(b), left, 5 * |a| / 8, |a|);
    Value32Injective(a, b);
  }

  lemma {:induction false} GroupsBound(d: seq<Group>)
    ensures Value32(d) < Pow2(5 * |d|)
  {
    if d != [] {
      GroupsBound(d[..|d| - 1]);
      assert Pow2(5) == 32;
      Pow2Split(5 * |d|, 5);
    }
  }

  lemma SameValue(v: nat, w: nat, left: nat, n: nat, k: nat)
    requires v < Pow2(5 * k) && w < Pow2(5 * k) && 5 * k == 8 * n + left
    requires v % Pow2(left) == 0 && w % Pow2(left) == 0
    requires ToBE(v / Pow2(left), n) == ToBE(w / Pow2(left), n)
    ensures v == w
  {
    hide ToBE, Pow2, Pow256;
    Pow256IsPow2(n);
    var p := Pow2(left);
    Pow2Split(8 * n + left, left);
    QuotientBound(v, p, Pow256(n));
    QuotientBound(w, p, Pow256(n));
    BEOfToBE(v / p, n);
    BEOfToBE(w / p, n);
    Whole(v, p);
    Whole(w, p);
  }

  lemma Whole(v: nat, p: nat)
    requires p > 0 && v % p == 0
    ensures v == p * (v / p)
  {
  }

  // ---------------------------------------------------------------- the decoder

  const CHARSET: string := "qpzry9x8gf2tvdw0s3jn54khce6mua7l"

  function IndexFrom(c: char, i: nat): (r: int)
    requires i <= 32
    ensures r == -1 || (i <= r < 32 && CHARSET[r] == c)
    decreases 32 - i
  {
    if i == 32 then -1 else if CHARSET[i] == c then i else IndexFrom(c, i + 1)
  }

  /** charset_index. */
  function CharsetIndex(c: char): (r: int)
    ensures r == -1 || (0 <= r < 32 && CHARSET[r] == c)
  {
    IndexFrom(c, 0)
  }

  predicate IsLower(c: char) { 'a' <= c <= 'z' }
  predicate IsUpper(c: char) { 'A' <= c <= 'Z' }

  function Lower(c: char): char {
    if IsUpper(c) then c - 'A' + 'a' else c
  }

  function LowerAll(s: string): (t: string)
    ensures |t| == |s|
  {
    seq(|s|, i requires 0 <= i < |s| => Lower(s[i]))
  }

  predicate Printable(s: string) { forall i :: 0 <= i < |s| ==> 33 <= s[i] as int <= 126 }

  predicate MixedCase(s: string) {
    (exists i :: 0 <= i < |s| && IsLower(s[i])) && (exists i :: 0 <= i < |s| && IsUpper(s[i]))
  }

  /** strrchr(s, '1'), as an index or -1. */
  function LastOne(s: string): (r: int)
    ensures -1 <= r < |s| && (r >= 0 ==> s[r] == '1')
    ensures forall j :: r < j < |s| ==> s[j] != '1'
  {
    if s == "" then -1 else if s[|s| - 1] == '1' then |s| - 1 else LastOne(s[..|s| - 1])
  }

  predicate AllSymbols(s: string) { forall i :: 0 <= i < |s| ==> CharsetIndex(s[i]) >= 0 }

  function Groups(s: string): (d: seq<Group>)
    requires AllSymbols(s)
    ensures |d| == |s|
  {
    seq(|s|, i requires 0 <= i < |s| => CharsetIndex(s[i]))
  }

  /** What the checksum runs over: the expanded prefix, then the data. */
  function Expanded(hrp: string): seq<bv5>
    requires Printable(hrp)
  {
    Highs(hrp) + [0] + Lows(hrp)
  }

  function Highs(hrp: string): (h: seq<bv5>)
    requires Printable(hrp)
    ensures |h| == |hrp|
  {
    seq(|hrp|, i requires 0 <= i < |hrp| => (hrp[i] as int / 32) as bv5)
  }

  function Lows(hrp: string): (l: seq<bv5>)
    requires Printable(hrp)
    ensures |l| == |hrp|
  {
    seq(|hrp|, i requires 0 <= i < |hrp| => (hrp[i] as int % 32) as bv5)
  }

  function Symbols(d: seq<Group>): (s: seq<bv5>)
    ensures |s| == |d|
  {
    seq(|d|, i requires 0 <= i < |d| => d[i] as bv5)
  }

  function Checksum(hrp: string, d: seq<Group>): bv32
    requires Printable(hrp)
  {
    B.Run(1, Expanded(hrp) + Symbols(d))
  }

  function Expected(witver: Group): bv32 {
    if witver == 0 then B.BECH32_CONST else B.BECH32M_CONST
  }

  datatype Addr = Addr(hrp: string, witver: Group, program: seq<Byte>)

  /** Everything bech32_decode_addr demands of a lower-cased address, split at the last '1'. A
      data part of six symbols passes the length test, but the group count handed on, 6 - 7,
      wraps to a huge value and the conversion always ends in its output-full rejection, after
      reading data cells never written (Convert5to8). */
  function DecodeLower(buf: string): Option<Addr>
    requires Printable(buf)
  {
    var sep := LastOne(buf);
    if sep < 1 || sep >= 8 then None
    else
      var hrp, text := buf[..sep], buf[sep + 1..];
      if |text| < 6 || !AllSymbols(text) then None
      else
        var d := Groups(text);
        if Checksum(hrp, d) != Expected(d[0]) || d[0] > 16 || |d| == 6 then None
        else
          match Convert(d[1..|d| - 6])
          case None => None
          case Some(program) =>
            if |program| < 2 || (d[0] == 0 && |program| != 20 && |program| != 32) then None
            else Some(Addr(hrp, d[0], program))
  }

  function Decode(addr: string): Option<Addr> {
    if |addr| < 8 || |addr| > 90 || !Printable(addr) || MixedCase(addr) then None
    else
      LowerPrintable(addr);
      DecodeLower(LowerAll(addr))
  }

  lemma LowerPrintable(s: string)
    requires Printable(s)
    ensures Printable(LowerAll(s))
  {
  }

  /** bech32_decode_addr. */
  method DecodeAddr(addr: string) returns (r: Option<Addr>)
    ensures r == Decode(addr)
  {
    hide B.Run, Convert, Expanded, Symbols, LastOne, CharsetIndex, Printable, MixedCase, AllSymbols, Groups, Checksum,
      LowerAll;
    if |addr| < 8 || |addr| > 90 { return None; }
    var ok := CheckCharacters(addr);
    if !ok { return None; }
    LowerPrintable(addr);
    var buf := LowerAll(addr);
    var sep := LastOne(buf);
    if sep < 1 || sep >= 8 || |buf| - sep - 1 < 6 { return None; }
    PrefixPrintable(buf, sep);
    var hrp, text := buf[..sep], buf[sep + 1..];
    var data := new Byte[DATA_LEN];
    var chk;
    ok, chk := ReadData(hrp, text, data);
    if !ok { return None; }
    ghost var d := Groups(text);
    var witver := data[0];
    assert witver == d[0];
    if witver == 0 {
      if chk != B.BECH32_CONST { return None; }
    } else {
      if chk != B.BECH32M_CONST { return None; }
    }
    if witver > 16 { return None; }
    var count := (|text| - 1 - 6) % TWO64;
    if |text| >= 7 { BehindVersion(data[..], d); }
    assert |text| >= 7 ==> count == |text| - 7;
    var program := Convert5to8(data[1..], count);
    if program.None? { return None; }
    var n := |program.value|;
    ProgramFits(d[1..|d| - 6]);
    if n < 2 || n > 40 { return None; }
    if witver == 0 && n != 20 && n != 32 { return None; }
    r := Some(Addr(hrp, witver, program.value));
  }

  /** Cells of the data array; only those of the symbols read are ever written. */
  const DATA_LEN: nat := 128

  /** The groups between version and checksum. */
  lemma BehindVersion(data: seq<Byte>, d: seq<Group>)
    requires 7 <= |d| <= |data| && data[..|d|] == d
    ensures data[1..][..|d| - 7] == d[1..|d| - 6]
  {
    var x, y := data[1..][..|d| - 7], d[1..|d| - 6];
    forall i | 0 <= i < |x|
      ensures x[i] == y[i]
    {
      assert data[..|d|][i + 1] == d[i + 1];
    }
    assert x == y;
  }

  lemma PrefixPrintable(s: string, n: nat)
    requires Printable(s) && n <= |s|
    ensures Printable(s[..n])
  {
  }

  /** The character loop: printable ASCII of one case only. */
  method CheckCharacters(addr: string) returns (ok: bool)
    ensures ok <==> Printable(addr) && !MixedCase(addr)
  {
    var hasLower, hasUpper := false, false;
    for i := 0 to |addr|
      invariant forall j :: 0 <= j < i ==> 33 <= addr[j] as int <= 126
      invariant hasLower <==> exists j :: 0 <= j < i && IsLower(addr[j])
      invariant hasUpper <==> exists j :: 0 <= j < i && IsUpper(addr[j])
    {
      var c := addr[i];
      if (c as int) < 33 || c as int > 126 { return false; }
      if 'a' <= c <= 'z' { hasLower := true; }
      if 'A' <= c <= 'Z' { hasUpper := true; }
    }
    ok := !(hasLower && hasUpper);
  }

  /** The data loop and the checksum over prefix and data. */
  method ReadData(hrp: string, text: string, data: array<Byte>) returns (ok: bool, chk: bv32)
    requires Printable(hrp) && |text| <= data.Length
    modifies data
    ensures ok <==> AllSymbols(text)
    ensures ok ==> data[..|text|] == Groups(text) && chk == Checksum(hrp, Groups(text))
  {
    hide B.Run, CharsetIndex, Printable, Expanded, Symbols;
    var values := Expanded(hrp);
    ghost var d: seq<Group> := [];
    chk := 0;
    NoSymbols(hrp);
    for i := 0 to |text|
      invariant |d| == i && forall j :: 0 <= j < i ==> CharsetIndex(text[j]) >= 0 && d[j] == CharsetIndex(text[j])
      invariant data[..i] == d && values == Expanded(hrp) + Symbols(d)
    {
      var v := CharsetIndex(text[i]);
      if v < 0 { return false, chk; }
      OneMoreSymbol(d, v);
      data[i] := v;
      d := d + [v];
      values := values + [v as bv5];
    }
    assert d == Groups(text);
    chk := B.Polymod(values);
    ok := true;
  }

  lemma NoSymbols(hrp: string)
    requires Printable(hrp)
    ensures Expanded(hrp) == Expanded(hrp) + Symbols([])
  {
  }

  lemma OneMoreSymbol(d: seq<Group>, v: Group)
    ensures Symbols(d + [v]) == Symbols(d) + [v as bv5]
  {
  }

  lemma ProgramFits(d: seq<Group>)
    ensures Convert(d).Some? ==> |Convert(d).value| <= MAX_PROGRAM
  {
    hide Value32, Pow2;
  }

  // ---------------------------------------------------------------- what the checksum detects

  lemma SymbolInjective(g: Group, h: Group)
    requires g as bv5 == h as bv5
    ensures g == h
  {
    SymbolBack(g);
    SymbolBack(h);
  }

  lemma SymbolBack(g: Group)
    ensures (g as bv5) as int == g
  {
  }

  /** One symbol after the version symbol replaced: the checksum no longer fits. */
  lemma GroupSubstitution(hrp: string, d: seq<Group>, k: nat, g: Group)
    requires Printable(hrp) && 0 < k < |d| && d[k] != g
    ensures Checksum(hrp, d) == Expected(d[0]) ==> Checksum(hrp, d[k := g]) != Expected(d[0])
  {
    hide B.Run;
    var p := Expanded(hrp);
    var v := p + Symbols(d);
    if d[k] as bv5 == g as bv5 { SymbolInjective(d[k], g); }
    B.SubstitutionDetected(v, |p| + k, g as bv5);
    assert p + Symbols(d[k := g]) == v[|p| + k := g as bv5];
  }

  lemma LastOneUnchanged(s: string, k: nat, c: char)
    requires k < |s| && LastOne(s) < k && c != '1'
    ensures LastOne(s[k := c]) == LastOne(s)
  {
    var t := s[k := c];
    if LastOne(s) >= 0 { assert t[LastOne(s)] == '1'; }
  }

  /** Every single-character substitution behind the version character is caught: whatever
      accepted address, place and replacement, decoding then fails. The replacement must
      differ by more than case, and must not be the separator '1', which would move the split
      between prefix and data. */
  lemma SubstitutionRejected(addr: string, k: nat, c: char)
    requires Decode(addr).Some? && k < |addr| && k > LastOne(LowerAll(addr)) + 1
    requires Lower(c) != Lower(addr[k]) && c != '1'
    ensures Decode(addr[k := c]) == None
  {
    hide B.Run, Convert, Checksum, CharsetIndex, LastOne;
    var other := addr[k := c];
    if Printable(other) && !MixedCase(other) {
      LowerPrintable(addr);
      LowerPrintable(other);
      LowerOne(c);
      assert LowerAll(other) == LowerAll(addr)[k := Lower(c)];
      LowerSubstituted(LowerAll(addr), k, Lower(c));
    }
  }

  lemma LowerSubstituted(a: string, k: nat, c: char)
    requires k < |a| && Printable(a) && Printable(a[k := c]) && DecodeLower(a).Some?
    requires LastOne(a) + 1 < k && c != a[k] && c != '1'
    ensures DecodeLower(a[k := c]) == None
  {
    hide B.Run, Convert, Checksum, CharsetIndex, LastOne;
    var b, sep := a[k := c], LastOne(a);
    LastOneUnchanged(a, k, c);
    assert b[..sep] == a[..sep];
    var s, t, j := a[sep + 1..], b[sep + 1..], k - sep - 1;
    assert t == s[j := c];
    if AllSymbols(t) {
      assert t[j] == c && AllSymbols(s);
      SymbolsDiffer(s[j], c);
      assert Groups(t) == Groups(s)[j := CharsetIndex(c)];
      GroupSubstitution(a[..sep], Groups(s), j, CharsetIndex(c));
    }
  }

  lemma LowerOne(c: char)
    requires c != '1'
    ensures Lower(c) != '1'
  {
  }

  lemma SymbolsDiffer(c: char, d: char)
    requires CharsetIndex(c) >= 0 && CharsetIndex(d) >= 0 && c != d
    ensures CharsetIndex(c) != CharsetIndex(d)
  {
  }

  // ---------------------------------------------------------------- the separator exception

  /** Two accepted addresses one character apart: the replacement is a '1'. */
  const PLAIN: string := "a1sslx8kppzrsq6zapx"
  const MOVED: string := "a1sslx81ppzrsq6zapx"
  const ENDING: string := "ppzrsq6zapx"


  /** The common last eleven symbols. */
  function Tail(): seq<bv5> { [1, 1, 2, 3, 16, 0, 26, 2, 29, 1, 6] }

  lemma TailSteps()
    ensures B.Step(0x34c36668, 1) == 0x296a1202
    ensures B.Step(0x296a1202, 1) == 0x19f73b08
    ensures B.Step(0x19f73b08, 2) == 0x1d044b25
    ensures B.Step(0x1d044b25, 3) == 0x253ac0e9
    ensures B.Step(0x253ac0e9, 16) == 0x2b1cf1ee
    ensures B.Step(0x2b1cf1ee, 0) == 0x2c41113b
    ensures B.Step(0x2c41113b, 26) == 0x1ac7d25e
    ensures B.Step(0x1ac7d25e, 2) == 0x00733657
    ensures B.Step(0x00733657, 29) == 0x0e66cafd
    ensures B.Step(0x0e66cafd, 1) == 0x0f429f84
    ensures B.Step(0x0f429f84, 6) == 0x2bc830a3
  {
  }

  lemma TailChecks()
    ensures B.Run(0x34c36668, Tail()) == 0x2bc830a3
  {
    hide B.Run, B.Step;
    var t := Tail();
    TailSteps();
    B.RunEmpty(0x34c36668);
    B.RunNextFrom(0x34c36668, t, 0, 0x296a1202); B.RunNextFrom(0x34c36668, t, 1, 0x19f73b08);
    B.RunNextFrom(0x34c36668, t, 2, 0x1d044b25); B.RunNextFrom(0x34c36668, t, 3, 0x253ac0e9);
    B.RunNextFrom(0x34c36668, t, 4, 0x2b1cf1ee); B.RunNextFrom(0x34c36668, t, 5, 0x2c41113b);
    B.RunNextFrom(0x34c36668, t, 6, 0x1ac7d25e); B.RunNextFrom(0x34c36668, t, 7, 0x00733657);
    B.RunNextFrom(0x34c36668, t, 8, 0x0e66cafd); B.RunNextFrom(0x34c36668, t, 9, 0x0f429f84);
    B.RunNextFrom(0x34c36668, t, 10, 0x2bc830a3);
    assert t[..0] == [] && t[..11] == t;
  }

  /** Prefix and six symbols of the first address. */
  function PlainHead(): seq<bv5> { [3, 0, 1, 16, 16, 31, 6, 7, 22] }

  lemma PlainHeadSteps()
    ensures B.Step(0x00000001, 3) == 0x00000023
    ensures B.Step(0x00000023, 0) == 0x00000460
    ensures B.Step(0x00000460, 1) == 0x00008c01
    ensures B.Step(0x00008c01, 16) == 0x00118030
    ensures B.Step(0x00118030, 16) == 0x02300610
    ensures B.Step(0x02300610, 31) == 0x3d6a95ad
    ensures B.Step(0x3d6a95ad, 6) == 0x02f5735f
    ensures B.Step(0x02f5735f, 7) == 0x25c43c55
    ensures B.Step(0x25c43c55, 22) == 0x34c36668
  {
  }

  lemma PlainHeadChecks()
    ensures B.Run(0x1, PlainHead()) == 0x34c36668
  {
    hide B.Run, B.Step;
    var t := PlainHead();
    PlainHeadSteps();
    B.RunEmpty(0x1);
    B.RunNextFrom(0x1, t, 0, 0x00000023); B.RunNextFrom(0x1, t, 1, 0x00000460);
    B.RunNextFrom(0x1, t, 2, 0x00008c01); B.RunNextFrom(0x1, t, 3, 0x00118030);
    B.RunNextFrom(0x1, t, 4, 0x02300610); B.RunNextFrom(0x1, t, 5, 0x3d6a95ad);
    B.RunNextFrom(0x1, t, 6, 0x02f5735f); B.RunNextFrom(0x1, t, 7, 0x25c43c55);
    B.RunNextFrom(0x1, t, 8, 0x34c36668);
    assert t[..0] == [] && t[..9] == t;
  }

  /** Expanded prefix of the second. */
  function MovedHead(): seq<bv5> { [3, 1, 3, 3, 3, 3, 1, 0, 1, 17, 19, 19, 12, 24, 24] }

  lemma MovedHeadSteps()
    ensures B.Step(0x00000001, 3) == 0x00000023
    ensures B.Step(0x00000023, 1) == 0x00000461
    ensures B.Step(0x00000461, 3) == 0x00008c23
    ensures B.Step(0x00008c23, 3) == 0x00118463
    ensures B.Step(0x00118463, 3) == 0x02308c63
    ensures B.Step(0x02308c63, 3) == 0x3d7bdbd1
    ensures B.Step(0x3d7bdbd1, 1) == 0x00dcbcd8
    ensures B.Step(0x00dcbcd8, 0) == 0x1b979b00
    ensures B.Step(0x1b979b00, 1) == 0x2a7a1d94
    ensures B.Step(0x2a7a1d94, 17) == 0x009c9e6a
    ensures B.Step(0x009c9e6a, 19) == 0x1393cd53
    ensures B.Step(0x1393cd53, 19) == 0x3451ce1c
    ensures B.Step(0x3451ce1c, 12) == 0x3b3f1c8f
    ensures B.Step(0x3b3f1c8f, 24) == 0x157e8ede
    ensures B.Step(0x157e8ede, 24) == 0x34c36668
  {
  }

  lemma MovedHeadChecks()
    ensures B.Run(0x1, MovedHead()) == 0x34c36668
  {
    hide B.Run, B.Step;
    var t := MovedHead();
    MovedHeadSteps();
    MovedHeadHalf();
    B.RunNextFrom(0x1, t, 8, 0x2a7a1d94); B.RunNextFrom(0x1, t, 9, 0x009c9e6a);
    B.RunNextFrom(0x1, t, 10, 0x1393cd53); B.RunNextFrom(0x1, t, 11, 0x3451ce1c);
    B.RunNextFrom(0x1, t, 12, 0x3b3f1c8f); B.RunNextFrom(0x1, t, 13, 0x157e8ede);
    B.RunNextFrom(0x1, t, 14, 0x34c36668);
    assert t[..15] == t;
  }

  lemma MovedHeadHalf()
    ensures B.Run(0x1, MovedHead()[..8]) == 0x1b979b00
  {
    hide B.Run, B.Step;
    var t := MovedHead();
    MovedHeadSteps();
    B.RunEmpty(0x1);
    assert t[..0] == [];
    B.RunNextFrom(0x1, t, 0, 0x00000023); B.RunNextFrom(0x1, t, 1, 0x00000461);
    B.RunNextFrom(0x1, t, 2, 0x00008c23); B.RunNextFrom(0x1, t, 3, 0x00118463);
    B.RunNextFrom(0x1, t, 4, 0x02308c63); B.RunNextFrom(0x1, t, 5, 0x3d7bdbd1);
    B.RunNextFrom(0x1, t, 6, 0x00dcbcd8); B.RunNextFrom(0x1, t, 7, 0x1b979b00);
  }

  lemma {:induction false} SearchReaches(c: char, i: nat, k: nat)
    requires k <= i < 32 && CHARSET[i] == c && forall m :: 0 <= m < i ==> CHARSET[m] != c
    ensures IndexFrom(c, k) == i
    decreases i - k
  {
    if k < i { SearchReaches(c, i, k + 1); }
  }

  lemma SymbolsEarly()
    ensures CharsetIndex('q') == 0
    ensures CharsetIndex('p') == 1
    ensures CharsetIndex('z') == 2
    ensures CharsetIndex('r') == 3
    ensures CharsetIndex('x') == 6
    ensures CharsetIndex('8') == 7
  {
    hide CharsetIndex;
    SymbolsOfQP();
    SymbolsOfZR();
    SymbolsOfX8();
  }

  lemma SymbolsOfQP()
    ensures CharsetIndex('q') == 0 && CharsetIndex('p') == 1
  {
    hide IndexFrom;
    SearchReaches('q', 0, 0);
    SearchReaches('p', 1, 0);
  }

  lemma SymbolsOfZR()
    ensures CharsetIndex('z') == 2 && CharsetIndex('r') == 3
  {
    hide IndexFrom;
    SearchReaches('z', 2, 0);
    SearchReaches('r', 3, 0);
  }

  lemma SymbolsOfX8()
    ensures CharsetIndex('x') == 6 && CharsetIndex('8') == 7
  {
    hide IndexFrom;
    SearchReaches('x', 6, 0);
    SearchReaches('8', 7, 0);
  }

  lemma SymbolsOfS()
    ensures CharsetIndex('s') == 16
  {
    SearchReaches('s', 16, 0);
  }

  lemma SymbolsOfK()
    ensures CharsetIndex('k') == 22
  {
    SearchReaches('k', 22, 0);
  }

  lemma SymbolsOf6()
    ensures CharsetIndex('6') == 26
  {
    SearchReaches('6', 26, 0);
  }

  lemma SymbolsOfA()
    ensures CharsetIndex('a') == 29
  {
    SearchReaches('a', 29, 0);
  }

  lemma SymbolsOfL()
    ensures CharsetIndex('l') == 31
  {
    SearchReaches('l', 31, 0);
  }

  /** The last '1' of a text, found by inspection. */
  lemma LastOneIs(s: string, r: nat)
    requires r < |s| && s[r] == '1' && forall j :: r < j < |s| ==> s[j] != '1'
    ensures LastOne(s) == r
  {
  }

  lemma AlreadyLower(s: string)
    requires forall i :: 0 <= i < |s| ==> !IsUpper(s[i])
    ensures LowerAll(s) == s && !MixedCase(s)
  {
  }

  /** Five-bit groups whose last one is 16 leave zero padding of up to four bits. */
  lemma SixteenPads(d: seq<Group>)
    requires 4 <= |d| <= 10 && d[|d| - 1] == 16 && (5 * |d| % 8 == 2 || 5 * |d| % 8 == 4)
    ensures Convert(d).Some? && |Convert(d).value| == 5 * |d| / 8 >= 2
  {
    hide Pow2, ToBE;
    SmallPowers();
    LastGroup(Value32(d[..|d| - 1]));
  }

  lemma LastGroup(v: nat)
    ensures (32 * v + 16) % 4 == 0 && (32 * v + 16) % 16 == 0
  {
  }

  function CommonGroups(): seq<Group> { [1, 1, 2, 3, 16, 0, 26, 2, 29, 1, 6] }

  lemma CommonSymbols()
    ensures Symbols(CommonGroups()) == Tail()
  {
  }

  lemma PlainGroups()
    ensures AllSymbols(PLAIN[2..]) && Groups(PLAIN[2..]) == [16, 16, 31, 6, 7, 22] + CommonGroups()
  {
    hide CharsetIndex, AllSymbols, Groups;
    PlainText();
    FirstGroups();
    EndingGroups();
    GroupsConcat("sslx8k", ENDING);
  }

  lemma PlainText()
    ensures PLAIN[2..] == "sslx8k" + ENDING
  {
    var s, t := PLAIN[2..], "sslx8k" + ENDING;
    assert |s| == |t| == 17;
    assert s[..6] == t[..6];
    assert s[6..] == ENDING == t[6..];
    assert s == s[..6] + s[6..] && t == t[..6] + t[6..];
  }

  lemma GroupsConcat(s: string, t: string)
    requires AllSymbols(s) && AllSymbols(t)
    ensures AllSymbols(s + t) && Groups(s + t) == Groups(s) + Groups(t)
  {
    hide CharsetIndex;
  }

  lemma FirstGroups()
    ensures AllSymbols("sslx8k") && Groups("sslx8k") == [16, 16, 31, 6, 7, 22]
  {
    hide CharsetIndex;
    SymbolsEarly();
    SymbolsOfS();
    SymbolsOfK();
    SymbolsOfL();
  }

  lemma EndingGroups()
    ensures AllSymbols(ENDING) && Groups(ENDING) == CommonGroups()
  {
    hide CharsetIndex;
    SymbolsEarly();
    SymbolsOfS();
    SymbolsOf6();
    SymbolsOfA();
  }

  lemma MovedGroups()
    ensures AllSymbols(MOVED[8..]) && Groups(MOVED[8..]) == CommonGroups()
  {
    hide CharsetIndex, AllSymbols, Groups, CommonGroups;
    assert MOVED[8..] == ENDING;
    EndingGroups();
  }

  lemma PlainPrefix()
    ensures Printable("a") && Expanded("a") + Symbols([16, 16, 31, 6, 7, 22]) == PlainHead()
  {
  }

  lemma MovedPrefix()
    ensures Printable("a1sslx8") && Expanded("a1sslx8") == MovedHead()
  {
    hide Highs, Lows;
    MovedHighs();
    MovedLows();
  }

  lemma MovedHighs()
    ensures Printable("a1sslx8") && Highs("a1sslx8") == [3, 1, 3, 3, 3, 3, 1]
  {
    hide Lows;
  }

  lemma MovedLows()
    ensures Printable("a1sslx8") && Lows("a1sslx8") == [1, 17, 19, 19, 12, 24, 24]
  {
    hide Highs;
  }

  /** What an accepted lower-case address of a version above zero looks like. */
  lemma AcceptedWhen(addr: string, sep: nat)
    requires 8 <= |addr| <= 90 && 1 <= sep < 8 && sep + 7 < |addr|
    requires Printable(addr) && !MixedCase(addr) && LowerAll(addr) == addr && LastOne(addr) == sep
    requires Printable(addr[..sep]) && AllSymbols(addr[sep + 1..])
    requires var d := Groups(addr[sep + 1..]);
             && 0 < d[0] <= 16 && Checksum(addr[..sep], d) == B.BECH32M_CONST
             && Convert(d[1..|d| - 6]).Some? && |Convert(d[1..|d| - 6]).value| >= 2
    ensures Decode(addr).Some?
  {
    hide B.Run, Convert, Printable, MixedCase, LowerAll, LastOne, AllSymbols, Groups, Checksum;
  }

  lemma PlainAccepted()
    ensures Decode(PLAIN).Some? && LastOne(LowerAll(PLAIN)) == 1
  {
    hide B.Run, Convert, CharsetIndex, LastOne, MixedCase, LowerAll, Groups, AllSymbols, CommonGroups, Checksum, Decode;
    AlreadyLower(PLAIN);
    LastOneIs(PLAIN, 1);
    PlainGroups();
    PlainChecks();
    assert PLAIN[..1] == "a";
    PlainPads();
    AcceptedWhen(PLAIN, 1);
  }

  lemma PlainChecks()
    ensures Printable("a") && Checksum("a", [16, 16, 31, 6, 7, 22] + CommonGroups()) == B.BECH32M_CONST
  {
    hide B.Run, B.Step, Expanded, Symbols, Tail, PlainHead, CommonGroups;
    PlainPrefix();
    CommonSymbols();
    SymbolsConcat([16, 16, 31, 6, 7, 22], CommonGroups());
    assert Expanded("a") + Symbols([16, 16, 31, 6, 7, 22] + CommonGroups()) == PlainHead() + Tail();
    B.RunConcat(1, PlainHead(), Tail());
    PlainHeadChecks();
    TailChecks();
  }

  lemma PlainPads()
    ensures var d: seq<Group> := [16, 16, 31, 6, 7, 22] + CommonGroups();
            |d| == 17 && Convert(d[1..11]).Some? && |Convert(d[1..11]).value| == 6
  {
    hide Convert;
    var d: seq<Group> := [16, 16, 31, 6, 7, 22] + CommonGroups();
    assert d[1..11][9] == 16;
    SixteenPads(d[1..11]);
  }

  lemma SymbolsConcat(a: seq<Group>, b: seq<Group>)
    ensures Symbols(a + b) == Symbols(a) + Symbols(b)
  {
  }

  lemma MovedAccepted()
    ensures Decode(MOVED).Some?
  {
    hide B.Run, Convert, CharsetIndex, LastOne, MixedCase, LowerAll, Groups, AllSymbols, Decode, Checksum;
    AlreadyLower(MOVED);
    LastOneIs(MOVED, 7);
    MovedGroups();
    MovedChecks();
    assert MOVED[..7] == "a1sslx8";
    SixteenPads(CommonGroups()[1..5]);
    AcceptedWhen(MOVED, 7);
  }

  lemma MovedChecks()
    ensures Printable("a1sslx8") && Checksum("a1sslx8", CommonGroups()) == B.BECH32M_CONST
  {
    hide B.Run, B.Step, Expanded, Symbols, Tail, MovedHead, CommonGroups;
    MovedPrefix();
    CommonSymbols();
    B.RunConcat(1, MovedHead(), Tail());
    MovedHeadChecks();
    TailChecks();
  }

  /** Exactly which replacement characters are always caught behind the version character:
      all but '1', with which an accepted address can turn into another accepted one. */
  lemma DetectedIffNotSeparator(c: char)
    ensures (forall addr: string, k: nat ::
               Decode(addr).Some? && k < |addr| && k > LastOne(LowerAll(addr)) + 1 && Lower(c) != Lower(addr[k])
               ==> Decode(addr[k := c]) == None)
            <==> c != '1'
  {
    hide Decode, LastOne, LowerAll;
    if c != '1' {
      forall addr: string, k: nat |
        Decode(addr).Some? && k < |addr| && k > LastOne(LowerAll(addr)) + 1 && Lower(c) != Lower(addr[k])
        ensures Decode(addr[k := c]) == None
      {
        SubstitutionRejected(addr, k, c);
      }
    } else {
      PlainAccepted();
      MovedAccepted();
      assert PLAIN[7 := c] == MOVED;
      assert Lower(c) != Lower(PLAIN[7]);
      assert Decode(PLAIN[7 := c]) != None;
    }
  }

  // ---------------------------------------------------------------- decoding is injective

  lemma SymbolsInjective(a: seq<Group>, b: seq<Group>)
    requires Symbols(a) == Symbols(b)
    ensures a == b
  {
    forall i | 0 <= i < |a|
      ensures a[i] == b[i]
    {
      assert Symbols(a)[i] == Symbols(b)[i];
      SymbolInjective(a[i], b[i]);
    }
  }

  /** Version, program and prefix determine every data symbol: the padding is forced to zero
      and the checksum to one value. */
  lemma DataDetermined(hrp: string, a: seq<Group>, b: seq<Group>)
    requires Printable(hrp) && |a| > 6 && |b| > 6 && a[0] == b[0]
    requires Checksum(hrp, a) == Checksum(hrp, b)
    requires Convert(a[1..|a| - 6]).Some? && Convert(a[1..|a| - 6]) == Convert(b[1..|b| - 6])
    ensures a == b
  {
    hide B.Run, Convert, Value32, Expanded, Symbols;
    ConvertInjective(a[1..|a| - 6], b[1..|b| - 6]);
    var n := |a| - 6;
    assert |b| == |a|;
    assert a[..n] == [a[0]] + a[1..n] && b[..n] == [b[0]] + b[1..n];
    var p := Expanded(hrp) + Symbols(a[..n]);
    assert a == a[..n] + a[n..] && b == b[..n] + b[n..];
    SymbolsConcat(a[..n], a[n..]);
    SymbolsConcat(b[..n], b[n..]);
    assert Expanded(hrp) + Symbols(a) == p + Symbols(a[n..]);
    assert Expanded(hrp) + Symbols(b) == p + Symbols(b[n..]);
    B.ChecksumUnique(p, Symbols(a[n..]), Symbols(b[n..]));
    SymbolsInjective(a[n..], b[n..]);
  }

  lemma GroupsInjective(s: string, t: string)
    requires AllSymbols(s) && AllSymbols(t) && Groups(s) == Groups(t)
    ensures s == t
  {
    hide CharsetIndex;
    forall i | 0 <= i < |s|
      ensures s[i] == t[i]
    {
      assert Groups(s)[i] == CharsetIndex(s[i]) && Groups(t)[i] == CharsetIndex(t[i]);
    }
  }

  /** Decoding is injective up to case: two accepted addresses with the same meaning are the
      same address. */
  lemma DecodeInjective(s: string, t: string)
    requires Decode(s).Some? && Decode(s) == Decode(t)
    ensures LowerAll(s) == LowerAll(t)
  {
    hide B.Run, Convert, Checksum, CharsetIndex, LastOne, Groups;
    LowerPrintable(s);
    LowerPrintable(t);
    var a, b := LowerAll(s), LowerAll(t);
    var m, n := LastOne(a), LastOne(b);
    assert |a[..m]| == |b[..n]|;
    DataDetermined(a[..m], Groups(a[m + 1..]), Groups(b[m + 1..]));
    GroupsInjective(a[m + 1..], b[m + 1..]);
    assert a == a[..m] + [a[m]] + a[m + 1..] && b == b[..m] + [b[m]] + b[m + 1..];
  }
}
