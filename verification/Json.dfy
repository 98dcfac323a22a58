/** The hand-written JSON scanner (miner/stratum.c): cursor functions over a C string, and a
    printer for every text of RFC 8259, section 2, that they undo. */
module Json {

  import opened Words

  /** A C string: no NUL inside, one NUL past the end. */
  type CString = s: string | '\0' !in s

  /** *p */
  function At(s: CString, p: nat): char
    requires p <= |s|
  {
    if p < |s| then s[p] else '\0'
  }

  predicate IsWs(c: char) { c == ' ' || c == '\t' || c == '\r' || c == '\n' }

  predicate IsDelimiter(c: char) { c == ',' || c == ']' || c == '}' || IsWs(c) }

  // ---------------------------------------------------------------- what the cursors compute

  function Ws(s: CString, p: nat): (q: nat)
    requires p <= |s|
    ensures p <= q <= |s| && !IsWs(At(s, q))
    decreases |s| - p
  {
    if IsWs(At(s, p)) then Ws(s, p + 1) else p
  }

  /** Inside a string: the closing quote, or the end of the text. */
  function StrEnd(s: CString, p: nat): (q: nat)
    requires p <= |s|
    ensures p <= q <= |s| && (q < |s| ==> s[q] == '"')
    decreases |s| - p
  {
    if p == |s| || s[p] == '"' then p
    else if s[p] == '\\' && p + 1 < |s| then StrEnd(s, p + 2)
    else StrEnd(s, p + 1)
  }

  function TokenEnd(s: CString, p: nat): (q: nat)
    requires p <= |s|
    ensures p <= q <= |s|
    decreases |s| - p
  {
    if p == |s| || IsDelimiter(s[p]) then p else TokenEnd(s, p + 1)
  }

  /** The bracket loop: only `open` and `close` are counted, strings are jumped over. */
  function Brackets(s: CString, p: nat, open: char, close: char, depth: int): (r: Option<nat>)
    requires p <= |s|
    ensures r.Some? ==> p < r.value <= |s|
    decreases |s| - p
  {
    if p == |s| then None
    else if s[p] == '"' then
      var e := StrEnd(s, p + 1);
      if e == |s| then None else Brackets(s, e + 1, open, close, depth)
    else
      var d := if s[p] == open then depth + 1 else depth;
      if s[p] == close then
        if d - 1 == 0 then Some(p + 1) else Brackets(s, p + 1, open, close, d - 1)
      else Brackets(s, p + 1, open, close, d)
  }

  function Closing(open: char): char { if open == '[' then ']' else '}' }

  /** js_skip: just past the value at p. */
  function Skip(s: CString, p: nat): (r: Option<nat>)
    requires p <= |s|
    ensures r.Some? ==> p < r.value <= |s|
  {
    var q := Ws(s, p);
    var c := At(s, q);
    if c == '"' then
      var e := StrEnd(s, q + 1);
      if e == |s| then None else Some(e + 1)
    else if c == '[' || c == '{' then Brackets(s, q, c, Closing(c), 0)
    else
      var e := TokenEnd(s, q);
      if e > q then Some(e) else None
  }

  function ElemFrom(s: CString, p: nat, i: nat, idx: int): (r: Option<nat>)
    requires p <= |s|
    ensures r.Some? ==> r.value <= |s|
    decreases |s| - p
  {
    if i == idx then Some(p)
    else
      var q := Skip(s, p);
      if q.None? then None
      else
        var t := Ws(s, q.value);
        if At(s, t) != ',' then None else ElemFrom(s, Ws(s, t + 1), i + 1, idx)
  }

  /** js_elem: element idx of the array at arr. */
  function Elem(s: CString, arr: nat, idx: int): (r: Option<nat>)
    requires arr <= |s|
    ensures r.Some? ==> r.value <= |s|
  {
    var a := Ws(s, arr);
    if At(s, a) != '[' then None
    else
      var p := Ws(s, a + 1);
      if At(s, p) == ']' then None else ElemFrom(s, p, 0, idx)
  }

  function CountFrom(s: CString, p: nat, n: nat): (r: int)
    requires p <= |s|
    ensures r == -1 || r > n
    decreases |s| - p
  {
    var q := Skip(s, p);
    if q.None? then -1
    else
      var t := Ws(s, q.value);
      if At(s, t) == ',' then CountFrom(s, Ws(s, t + 1), n + 1)
      else if At(s, t) == ']' then n + 1 else -1
  }

  /** js_count: number of elements, or -1. */
  function Count(s: CString, arr: nat): int
    requires arr <= |s|
  {
    var a := Ws(s, arr);
    if At(s, a) != '[' then -1
    else
      var p := Ws(s, a + 1);
      if At(s, p) == ']' then 0 else CountFrom(s, p, 0)
  }

  /** A member's raw key s[ks..ke] and the position of its value. */
  datatype Field = Field(ks: nat, ke: nat, value: nat)

  function FieldAt(s: CString, p: nat): (r: Option<Field>)
    requires p <= |s|
    ensures r.Some? ==> p < r.value.ks <= r.value.ke < r.value.value <= |s|
  {
    var k := Ws(s, p);
    if At(s, k) != '"' then None
    else
      var e := StrEnd(s, k + 1);
      if e == |s| then None
      else
        var c := Ws(s, e + 1);
        if At(s, c) != ':' then None else Some(Field(k + 1, e, Ws(s, c + 1)))
  }

  /** Past the value at v and the comma after it. */
  function NextField(s: CString, v: nat): (r: Option<nat>)
    requires v <= |s|
    ensures r.Some? ==> v < r.value <= |s|
  {
    var q := Skip(s, v);
    if q.None? then None
    else
      var t := Ws(s, q.value);
      if At(s, t) == ',' then Some(t + 1) else None
  }

  function GetFrom(s: CString, p: nat, key: string): (r: Option<nat>)
    requires p <= |s|
    ensures r.Some? ==> r.value <= |s|
    decreases |s| - p
  {
    match FieldAt(s, p)
    case None => None
    case Some(f) =>
      if s[f.ks..f.ke] == key then Some(f.value)
      else
        match NextField(s, f.value)
        case None => None
        case Some(n) => GetFrom(s, n, key)
  }

  /** js_get: the value of the first member whose raw key text is `key`. */
  function Get(s: CString, obj: nat, key: string): (r: Option<nat>)
    requires obj <= |s|
    ensures r.Some? ==> r.value <= |s|
  {
    var o := Ws(s, obj);
    if At(s, o) != '{' then None
    else
      var p := Ws(s, o + 1);
      if At(s, p) == '}' then None else GetFrom(s, p, key)
  }

  // ---------------------------------------------------------------- the cursor loops

  method JsWs(s: CString, start: nat) returns (p: nat)
    requires start <= |s|
    ensures p == Ws(s, start)
  {
    p := start;
    while IsWs(At(s, p))
      invariant p <= |s| && Ws(s, p) == Ws(s, start)
      decreases |s| - p
    {
      p := p + 1;
    }
  }

  method JsStringEnd(s: CString, start: nat) returns (p: nat)
    requires start <= |s|
    ensures p == StrEnd(s, start)
  {
    p := start;
    while At(s, p) != '\0' && At(s, p) != '"'
      invariant p <= |s| && StrEnd(s, p) == StrEnd(s, start)
      decreases |s| - p
    {
      p := p + if At(s, p) == '\\' && At(s, p + 1) != '\0' then 2 else 1;
    }
  }

  /** js_skip; None is the NULL it returns. */
  method JsSkip(s: CString, start: nat) returns (r: Option<nat>)
    requires start <= |s|
    ensures r == Skip(s, start)
  {
    var p := JsWs(s, start);
    var c := At(s, p);
    if c == '"' {
      var e := JsStringEnd(s, p + 1);
      return if At(s, e) != '\0' then Some(e + 1) else None;
    } else if c == '[' || c == '{' {
      var open, close, depth := c, Closing(c), 0;
      ghost var q := p;
      while At(s, p) != '\0'
        invariant p <= |s| && Brackets(s, p, open, close, depth) == Brackets(s, q, open, close, 0)
        decreases |s| - p
      {
        if At(s, p) == '"' {
          p := JsStringEnd(s, p + 1);
          if At(s, p) == '\0' { return None; }
          p := p + 1;
          continue;
        }
        if At(s, p) == open { depth := depth + 1; }
        if At(s, p) == close {
          depth := depth - 1;
          if depth == 0 { return Some(p + 1); }
        }
        p := p + 1;
      }
      return None;
    } else {
      var q := p;
      while At(s, p) != '\0' && !IsDelimiter(At(s, p))
        invariant q <= p <= |s| && TokenEnd(s, p) == TokenEnd(s, q)
        decreases |s| - p
      {
        p := p + 1;
      }
      return if p > q then Some(p) else None;
    }
  }

  /** js_elem. A negative index never matches, so the walk ends at the array's end. */
  method JsElem(s: CString, start: nat, idx: int) returns (r: Option<nat>)
    requires start <= |s|
    ensures r == Elem(s, start, idx)
  {
    hide Skip, Ws;
    var arr := JsWs(s, start);
    if At(s, arr) != '[' { return None; }
    var p := JsWs(s, arr + 1);
    if At(s, p) == ']' { return None; }
    ghost var answer := ElemFrom(s, p, 0, idx);
    var i := 0;
    while i != idx
      invariant p <= |s| && i >= 0 && ElemFrom(s, p, i, idx) == answer
      decreases |s| - p
    {
      var q := JsSkip(s, p);
      if q.None? { return None; }
      p := JsWs(s, q.value);
      if At(s, p) != ',' { return None; }
      p := JsWs(s, p + 1);
      i := i + 1;
    }
    return Some(p);
  }

  /** js_count. */
  method JsCount(s: CString, start: nat) returns (n: int)
    requires start <= |s|
    ensures n == Count(s, start)
  {
    hide Skip, Ws;
    var arr := JsWs(s, start);
    if At(s, arr) != '[' { return -1; }
    var p := JsWs(s, arr + 1);
    if At(s, p) == ']' { return 0; }
    n := 0;
    ghost var answer := CountFrom(s, p, 0);
    while true
      invariant p <= |s| && n >= 0 && CountFrom(s, p, n) == answer
      decreases |s| - p
    {
      n := n + 1;
      var q := JsSkip(s, p);
      if q.None? { return -1; }
      p := JsWs(s, q.value);
      if At(s, p) == ',' {
        p := JsWs(s, p + 1);
        continue;
      }
      return if At(s, p) == ']' then n else -1;
    }
  }

  /** js_get. */
  method JsGet(s: CString, start: nat, key: string) returns (r: Option<nat>)
    requires start <= |s|
    ensures r == Get(s, start, key)
  {
    hide Skip, Ws, StrEnd, GetFrom;
    var obj := JsWs(s, start);
    if At(s, obj) != '{' { return None; }
    var p := JsWs(s, obj + 1);
    if At(s, p) == '}' { return None; }
    ghost var answer := GetFrom(s, p, key);
    while true
      invariant p <= |s| && GetFrom(s, p, key) == answer
      decreases |s| - p
    {
      GetUnfolds(s, p, key);
      ghost var field := FieldAt(s, p);
      p := JsWs(s, p);
      if At(s, p) != '"' { return None; }
      var ks := p + 1;
      var ke := JsStringEnd(s, ks);
      if At(s, ke) == '\0' { return None; }
      var matches := s[ks..ke] == key;
      p := JsWs(s, ke + 1);
      if At(s, p) != ':' { return None; }
      p := JsWs(s, p + 1);
      assert field == Some(Field(ks, ke, p));
      if matches { return Some(p); }
      ghost var next := NextField(s, p);
      var q := JsSkip(s, p);
      if q.None? { return None; }
      p := JsWs(s, q.value);
      if At(s, p) == ',' {
        p := p + 1;
        assert next == Some(p);
        continue;
      }
      return None;
    }
  }

  lemma GetUnfolds(s: CString, p: nat, key: string)
    requires p <= |s|
    ensures FieldAt(s, p).None? ==> GetFrom(s, p, key) == None
    ensures FieldAt(s, p).Some? ==>
              var f := FieldAt(s, p).value;
              GetFrom(s, p, key) == if s[f.ks..f.ke] == key then Some(f.value)
                                    else if NextField(s, f.value).None? then None
                                    else GetFrom(s, NextField(s, f.value).value, key)
  {
    hide FieldAt, NextField;
  }

  // ---------------------------------------------------------------- count against elem

  lemma {:induction false} CountFromElem(s: CString, p: nat, n: nat, i: nat)
    requires p <= |s| && CountFrom(s, p, n) >= 0 && i >= n
    ensures ElemFrom(s, p, n, i).Some? <==> i < CountFrom(s, p, n)
    decreases |s| - p
  {
    hide Skip, Ws;
    if i > n {
      var t := Ws(s, Skip(s, p).value);
      if At(s, t) == ',' { CountFromElem(s, Ws(s, t + 1), n + 1, i); }
    }
  }

  /** On every text, well-formed or not: when js_count answers n >= 0, js_elem finds exactly
      the elements 0 to n - 1. */
  lemma CountBoundsElem(s: CString, arr: nat, i: nat)
    requires arr <= |s| && Count(s, arr) >= 0
    ensures Elem(s, arr, i).Some? <==> i < Count(s, arr)
  {
    hide CountFrom, ElemFrom, Ws;
    var p := Ws(s, Ws(s, arr) + 1);
    if At(s, p) != ']' { CountFromElem(s, p, 0, i); }
  }

  // ---------------------------------------------------------------- texts and their printer

  /** A JSON text with its insignificant white space: every choice RFC 8259 leaves open. */
  datatype Value =
    | Token(t: string)
    | Text(raw: string)
    | Array(lead: string, items: Items)
    | Object(lead: string, members: Members)

  datatype Items = NoItem | Item(pre: string, v: Value, post: string, rest: Items)

  datatype Members = NoMember | Member(pre: string, key: string, mid: string, gap: string, v: Value, post: string, rest: Members)

  predicate AllWs(w: string) { forall i :: 0 <= i < |w| ==> IsWs(w[i]) }

  /** Characters of numbers and literal names: no quote, bracket, comma or white space. */
  predicate TokenChar(c: char) {
    c != '"' && c != '[' && c != '{' && !IsDelimiter(c) && c != '\0'
  }

  predicate TokenText(t: string) { t != "" && forall i :: 0 <= i < |t| ==> TokenChar(t[i]) }

  /** String contents as they stand in the text, escapes included. */
  predicate StringText(raw: string) {
    if raw == "" then true
    else if raw[0] == '\\' then |raw| >= 2 && StringText(raw[2..])
    else raw[0] != '"' && StringText(raw[1..])
  }

  predicate WellFormed(v: Value) {
    match v
    case Token(t) => TokenText(t)
    case Text(raw) => StringText(raw)
    case Array(lead, items) => AllWs(lead) && ItemsWellFormed(items)
    case Object(lead, members) => AllWs(lead) && MembersWellFormed(members)
  }

  predicate ItemsWellFormed(items: Items) {
    match items
    case NoItem => true
    case Item(pre, v, post, rest) => AllWs(pre) && WellFormed(v) && AllWs(post) && ItemsWellFormed(rest)
  }

  predicate MembersWellFormed(members: Members) {
    match members
    case NoMember => true
    case Member(pre, key, mid, gap, v, post, rest) =>
      AllWs(pre) && StringText(key) && AllWs(mid) && AllWs(gap) && WellFormed(v) && AllWs(post) && MembersWellFormed(rest)
  }

  function Quoted(raw: string): string { "\"" + raw + "\"" }

  function Print(v: Value): string {
    match v
    case Token(t) => t
    case Text(raw) => Quoted(raw)
    case Array(lead, items) => "[" + lead + PrintItems(items) + "]"
    case Object(lead, members) => "{" + lead + PrintMembers(members) + "}"
  }

  function PrintItems(items: Items): string {
    match items
    case NoItem => ""
    case Item(pre, v, post, rest) => pre + Print(v) + post + (if rest.NoItem? then "" else "," + PrintItems(rest))
  }

  function PrintMembers(members: Members): string {
    match members
    case NoMember => ""
    case Member(pre, key, mid, gap, v, post, rest) =>
      pre + Quoted(key) + mid + ":" + gap + Print(v) + post + (if rest.NoMember? then "" else "," + PrintMembers(rest))
  }

  // ---------------------------------------------------------------- reading what was printed

  /** The text w stands at position p of s. */
  predicate Here(s: CString, p: nat, w: string) { p + |w| <= |s| && s[p..p + |w|] == w }

  lemma HereSplit(s: CString, p: nat, u: string, w: string)
    ensures Here(s, p, u + w) <==> Here(s, p, u) && Here(s, p + |u|, w)
  {
    if Here(s, p, u + w) {
      assert s[p..p + |u|] == (u + w)[..|u|];
      assert s[p + |u|..p + |u| + |w|] == (u + w)[|u|..];
    }
    if Here(s, p, u) && Here(s, p + |u|, w) {
      assert s[p..p + |u + w|] == s[p..p + |u|] + s[p + |u|..p + |u| + |w|];
    }
  }

  lemma HereAt(s: CString, p: nat, w: string, i: nat)
    requires Here(s, p, w) && i < |w|
    ensures At(s, p + i) == s[p + i] == w[i]
  {
  }

  lemma {:induction false} WsOver(s: CString, p: nat, w: string)
    requires Here(s, p, w) && AllWs(w)
    ensures Ws(s, p) == Ws(s, p + |w|)
    decreases |w|
  {
    if w != "" {
      HereAt(s, p, w, 0);
      assert w == w[..1] + w[1..];
      HereSplit(s, p, w[..1], w[1..]);
      WsOver(s, p + 1, w[1..]);
    }
  }

  lemma BlankThen(s: CString, p: nat, w: string)
    requires Here(s, p, w) && AllWs(w) && !IsWs(At(s, p + |w|))
    ensures Ws(s, p) == p + |w|
  {
    WsOver(s, p, w);
  }

  lemma {:induction false} StringOver(s: CString, p: nat, raw: string)
    requires Here(s, p, raw) && StringText(raw) && At(s, p + |raw|) == '"'
    ensures StrEnd(s, p) == p + |raw|
    decreases |raw|
  {
    if raw != "" {
      HereAt(s, p, raw, 0);
      var k := if raw[0] == '\\' then 2 else 1;
      assert raw == raw[..k] + raw[k..];
      HereSplit(s, p, raw[..k], raw[k..]);
      StringOver(s, p + k, raw[k..]);
    }
  }

  lemma {:induction false} TokenOver(s: CString, p: nat, t: string)
    requires Here(s, p, t) && (forall i :: 0 <= i < |t| ==> TokenChar(t[i]))
    requires p + |t| == |s| || IsDelimiter(s[p + |t|])
    ensures TokenEnd(s, p) == p + |t|
    decreases |t|
  {
    if t != "" {
      HereAt(s, p, t, 0);
      assert t == t[..1] + t[1..];
      HereSplit(s, p, t[..1], t[1..]);
      TokenOver(s, p + 1, t[1..]);
    }
  }

  predicate Opening(open: char) { open == '[' || open == '{' }

  /** Plain characters leave the bracket count alone. */
  lemma {:induction false} PlainOver(s: CString, p: nat, w: string, open: char, depth: int)
    requires Here(s, p, w) && Opening(open)
    requires forall i :: 0 <= i < |w| ==> w[i] != '"' && w[i] != open && w[i] != Closing(open)
    ensures Brackets(s, p, open, Closing(open), depth) == Brackets(s, p + |w|, open, Closing(open), depth)
    decreases |w|
  {
    if w != "" {
      HereAt(s, p, w, 0);
      assert w == w[..1] + w[1..];
      HereSplit(s, p, w[..1], w[1..]);
      PlainOver(s, p + 1, w[1..], open, depth);
    }
  }

  lemma QuotedOver(s: CString, p: nat, raw: string, open: char, depth: int)
    requires Here(s, p, Quoted(raw)) && StringText(raw) && Opening(open)
    ensures Brackets(s, p, open, Closing(open), depth) == Brackets(s, p + |Quoted(raw)|, open, Closing(open), depth)
    ensures At(s, p) == '"' && StrEnd(s, p + 1) == p + 1 + |raw| < |s| && s[p + 1..p + 1 + |raw|] == raw
  {
    HereAt(s, p, Quoted(raw), 0);
    HereAt(s, p, Quoted(raw), |raw| + 1);
    assert Quoted(raw) == "\"" + (raw + "\"");
    HereSplit(s, p, "\"", raw + "\"");
    HereSplit(s, p + 1, raw, "\"");
    StringOver(s, p + 1, raw);
  }

  /** One character that is neither a quote nor the bracket that ends the loop. */
  lemma BracketStep(s: CString, p: nat, open: char, depth: int)
    requires p < |s| && Opening(open) && s[p] != '"'
    ensures var d := if s[p] == open then depth + 1 else if s[p] == Closing(open) then depth - 1 else depth;
            Brackets(s, p, open, Closing(open), depth)
            == if s[p] == Closing(open) && d == 0 then Some(p + 1) else Brackets(s, p + 1, open, Closing(open), d)
  {
  }

  lemma BlankOver(s: CString, p: nat, w: string, open: char, depth: int)
    requires Here(s, p, w) && AllWs(w) && Opening(open)
    ensures Brackets(s, p, open, Closing(open), depth) == Brackets(s, p + |w|, open, Closing(open), depth)
  {
    hide Here, Brackets;
    PlainOver(s, p, w, open, depth);
  }

  lemma TokenPlain(s: CString, p: nat, t: string, open: char, depth: int)
    requires Here(s, p, t) && TokenText(t) && Opening(open)
    ensures Brackets(s, p, open, Closing(open), depth) == Brackets(s, p + |t|, open, Closing(open), depth)
  {
    hide Here, Brackets;
    assert forall i :: 0 <= i < |t| ==> TokenChar(t[i]);
    PlainOver(s, p, t, open, depth);
  }

  /** A whole value inside a bracket leaves the count where it was, although the loop counts
      one bracket type only: nested brackets of that type come in pairs and never bring the
      count to zero, those of the other type are plain characters. */
  lemma {:induction false} ValueOver(s: CString, p: nat, v: Value, open: char, depth: int)
    requires Here(s, p, Print(v)) && WellFormed(v) && Opening(open) && depth >= 1
    ensures Brackets(s, p, open, Closing(open), depth) == Brackets(s, p + |Print(v)|, open, Closing(open), depth)
    decreases v
  {
    hide Here, Brackets, AllWs, StringText, TokenText, Quoted, PrintItems, PrintMembers;
    match v
    case Token(t) =>
      TokenPlain(s, p, t, open, depth);
    case Text(raw) =>
      QuotedOver(s, p, raw, open, depth);
    case Array(lead, items) =>
      var d := if open == '[' then depth + 1 else depth;
      BodyParts(s, p, "[", lead, PrintItems(items), "]");
      BracketStep(s, p, open, depth);
      BlankOver(s, p + 1, lead, open, d);
      ItemsOver(s, p + 1 + |lead|, items, open, d);
      BracketStep(s, p + 1 + |lead| + |PrintItems(items)|, open, d);
    case Object(lead, members) =>
      var d := if open == '{' then depth + 1 else depth;
      BodyParts(s, p, "{", lead, PrintMembers(members), "}");
      BracketStep(s, p, open, depth);
      BlankOver(s, p + 1, lead, open, d);
      MembersOver(s, p + 1 + |lead|, members, open, d);
      BracketStep(s, p + 1 + |lead| + |PrintMembers(members)|, open, d);
  }

  /** Where the parts of a bracketed text stand. */
  lemma BodyParts(s: CString, p: nat, o: string, lead: string, body: string, c: string)
    requires |o| == 1 && |c| == 1 && Here(s, p, o + lead + body + c)
    ensures At(s, p) == o[0] && Here(s, p + 1, lead) && Here(s, p + 1 + |lead|, body)
    ensures p + |o + lead + body + c| == p + 2 + |lead| + |body| <= |s|
    ensures At(s, p + 1 + |lead| + |body|) == c[0]
  {
    HereSplit(s, p, o + lead + body, c);
    HereSplit(s, p, o + lead, body);
    HereSplit(s, p, o, lead);
    HereAt(s, p, o, 0);
    HereAt(s, p + 1 + |lead| + |body|, c, 0);
  }

  lemma {:induction false} ItemsOver(s: CString, p: nat, items: Items, open: char, depth: int)
    requires Here(s, p, PrintItems(items)) && ItemsWellFormed(items) && Opening(open) && depth >= 1
    ensures Brackets(s, p, open, Closing(open), depth) == Brackets(s, p + |PrintItems(items)|, open, Closing(open), depth)
    decreases items
  {
    hide Here, Brackets, AllWs, StringText, Print, PrintItems;
    match items
    case NoItem =>
      NothingPrinted();
    case Item(pre, v, post, rest) =>
      ItemParts(s, p, items);
      BlankOver(s, p, pre, open, depth);
      var q := p + |pre|;
      ValueOver(s, q, v, open, depth);
      q := q + |Print(v)|;
      BlankOver(s, q, post, open, depth);
      q := q + |post|;
      if !rest.NoItem? {
        BracketStep(s, q, open, depth);
        ItemsOver(s, q + 1, rest, open, depth);
      }
  }

  lemma NothingPrinted()
    ensures PrintItems(NoItem) == "" && PrintMembers(NoMember) == ""
  {
  }

  lemma ItemParts(s: CString, p: nat, items: Items)
    requires items.Item? && Here(s, p, PrintItems(items))
    ensures var q := p + |items.pre|;
            var t := q + |Print(items.v)|;
            var u := t + |items.post|;
            && Here(s, p, items.pre) && Here(s, q, Print(items.v)) && Here(s, t, items.post)
            && (if items.rest.NoItem? then p + |PrintItems(items)| == u
                else p + |PrintItems(items)| == u + 1 + |PrintItems(items.rest)|
                     && At(s, u) == ',' && Here(s, u + 1, PrintItems(items.rest)))
  {
    hide Here, Print, PrintItems;
    ItemText(items);
    var v, tail := Print(items.v), if items.rest.NoItem? then "" else "," + PrintItems(items.rest);
    MemberBack(s, p, items.pre, v, items.post, tail);
    if !items.rest.NoItem? {
      var u := p + |items.pre| + |v| + |items.post|;
      HereSplit(s, u, ",", PrintItems(items.rest));
      HereAt(s, u, ",", 0);
    }
  }

  lemma ItemText(items: Items)
    requires items.Item?
    ensures PrintItems(items)
         == items.pre + Print(items.v) + items.post + if items.rest.NoItem? then "" else "," + PrintItems(items.rest)
  {
    hide Print;
  }

  lemma {:induction false} MembersOver(s: CString, p: nat, members: Members, open: char, depth: int)
    requires Here(s, p, PrintMembers(members)) && MembersWellFormed(members) && Opening(open) && depth >= 1
    ensures Brackets(s, p, open, Closing(open), depth) == Brackets(s, p + |PrintMembers(members)|, open, Closing(open), depth)
    decreases members
  {
    hide Here, Brackets, AllWs, StringText, Print, PrintMembers, StrEnd;
    match members
    case NoMember =>
      NothingPrinted();
    case Member(pre, key, mid, gap, v, post, rest) =>
      MemberParts(s, p, members);
      BlankOver(s, p, pre, open, depth);
      var q := p + |pre|;
      QuotedOver(s, q, key, open, depth);
      q := q + |key| + 2;
      BlankOver(s, q, mid, open, depth);
      q := q + |mid|;
      BracketStep(s, q, open, depth);
      BlankOver(s, q + 1, gap, open, depth);
      q := q + 1 + |gap|;
      ValueOver(s, q, v, open, depth);
      q := q + |Print(v)|;
      BlankOver(s, q, post, open, depth);
      q := q + |post|;
      if !rest.NoMember? {
        BracketStep(s, q, open, depth);
        MembersOver(s, q + 1, rest, open, depth);
      }
  }

  lemma MemberParts(s: CString, p: nat, members: Members)
    requires members.Member? && Here(s, p, PrintMembers(members))
    ensures var k := p + |members.pre|;
            var m := k + |members.key| + 2;
            var c := m + |members.mid|;
            var g := c + 1;
            var q := g + |members.gap|;
            var t := q + |Print(members.v)|;
            var u := t + |members.post|;
            && Here(s, p, members.pre) && Here(s, k, Quoted(members.key)) && Here(s, m, members.mid)
            && At(s, c) == ':' && Here(s, g, members.gap) && Here(s, q, Print(members.v)) && Here(s, t, members.post)
            && (if members.rest.NoMember? then p + |PrintMembers(members)| == u
                else p + |PrintMembers(members)| == u + 1 + |PrintMembers(members.rest)|
                     && At(s, u) == ',' && Here(s, u + 1, PrintMembers(members.rest)))
  {
    hide Here, Print, PrintMembers, Quoted;
    var key, v := Quoted(members.key), Print(members.v);
    var tail := if members.rest.NoMember? then "" else "," + PrintMembers(members.rest);
    MemberText(members);
    var d := members.pre + key + members.mid + ":" + members.gap;
    MemberBack(s, p, d, v, members.post, tail);
    MemberFront(s, p, members.pre, key, members.mid, members.gap);
    if !members.rest.NoMember? {
      var u := p + |d| + |v| + |members.post|;
      HereSplit(s, u, ",", PrintMembers(members.rest));
      HereAt(s, u, ",", 0);
    }
  }

  lemma MemberBack(s: CString, p: nat, d: string, v: string, post: string, tail: string)
    requires Here(s, p, d + v + post + tail)
    ensures Here(s, p, d) && Here(s, p + |d|, v) && Here(s, p + |d| + |v|, post)
    ensures Here(s, p + |d| + |v| + |post|, tail)
  {
    hide Here;
    HereSplit(s, p, d + v + post, tail);
    HereSplit(s, p, d + v, post);
    HereSplit(s, p, d, v);
  }

  lemma MemberFront(s: CString, p: nat, pre: string, key: string, mid: string, gap: string)
    requires Here(s, p, pre + key + mid + ":" + gap)
    ensures var m := p + |pre| + |key|;
            && Here(s, p, pre) && Here(s, p + |pre|, key) && Here(s, m, mid)
            && m + |mid| <= |s| && At(s, m + |mid|) == ':' && Here(s, m + |mid| + 1, gap)
  {
    hide Here;
    HereSplit(s, p, pre + key + mid + ":", gap);
    HereSplit(s, p, pre + key + mid, ":");
    HereSplit(s, p, pre + key, mid);
    HereSplit(s, p, pre, key);
    HereAt(s, p + |pre| + |key| + |mid|, ":", 0);
  }

  lemma MemberText(members: Members)
    requires members.Member?
    ensures PrintMembers(members)
         == members.pre + Quoted(members.key) + members.mid + ":" + members.gap + Print(members.v) + members.post
            + (if members.rest.NoMember? then "" else "," + PrintMembers(members.rest))
    ensures |Quoted(members.key)| == |members.key| + 2
  {
    hide Print;
  }

  /** The character after a value ends a token. */
  predicate Ends(s: CString, p: nat) { p == |s| || (p < |s| && IsDelimiter(s[p])) }

  lemma EndsBlank(s: CString, p: nat, w: string)
    requires Here(s, p, w) && AllWs(w) && IsDelimiter(At(s, p + |w|))
    ensures Ends(s, p)
  {
    if w != "" { HereAt(s, p, w, 0); }
  }

  lemma FirstChar(s: CString, p: nat, v: Value)
    requires Here(s, p, Print(v)) && WellFormed(v)
    ensures Print(v) != "" && Ws(s, p) == p
    ensures At(s, p) != ']' && At(s, p) != '}' && At(s, p) != ','
    ensures At(s, p) == match v case Token(t) => t[0] case Text(_) => '"' case Array(_, _) => '[' case Object(_, _) => '{'
  {
    HereAt(s, p, Print(v), 0);
  }

  /** js_skip undoes the printer: from the start of any printed value it stops exactly at the
      value's end, when the end of the text or a delimiter follows. */
  lemma SkipUndoesPrint(s: CString, p: nat, v: Value)
    requires Here(s, p, Print(v)) && WellFormed(v) && Ends(s, p + |Print(v)|)
    ensures Skip(s, p) == Some(p + |Print(v)|)
  {
    hide Here, Brackets, AllWs, StringText, Quoted, PrintItems, PrintMembers, Ws, StrEnd, TokenEnd;
    FirstChar(s, p, v);
    match v
    case Token(t) =>
      assert TokenChar(t[0]);
      TokenOver(s, p, t);
    case Text(raw) =>
      QuotedOver(s, p, raw, '[', 0);
      QuotedLength(raw);
    case Array(lead, items) =>
      BodyParts(s, p, "[", lead, PrintItems(items), "]");
      BracketStep(s, p, '[', 0);
      BlankOver(s, p + 1, lead, '[', 1);
      ItemsOver(s, p + 1 + |lead|, items, '[', 1);
      BracketStep(s, p + 1 + |lead| + |PrintItems(items)|, '[', 1);
    case Object(lead, members) =>
      BodyParts(s, p, "{", lead, PrintMembers(members), "}");
      BracketStep(s, p, '{', 0);
      BlankOver(s, p + 1, lead, '{', 1);
      MembersOver(s, p + 1 + |lead|, members, '{', 1);
      BracketStep(s, p + 1 + |lead| + |PrintMembers(members)|, '{', 1);
  }

  lemma QuotedLength(raw: string)
    ensures |Quoted(raw)| == |raw| + 2
  {
  }

  // ---------------------------------------------------------------- elements

  function Length(items: Items): nat {
    if items.NoItem? then 0 else 1 + Length(items.rest)
  }

  function Nth(items: Items, i: nat): Value
    requires i < Length(items)
  {
    if i == 0 then items.v else Nth(items.rest, i - 1)
  }

  /** Offset of element i from where the elements begin. */
  function Offset(items: Items, i: nat): nat
    requires i < Length(items)
  {
    if i == 0 then |items.pre|
    else |items.pre| + |Print(items.v)| + |items.post| + 1 + Offset(items.rest, i - 1)
  }

  /** After element 0 of what stands at p: skipping it lands on its comma or on the bracket. */
  lemma AfterItem(s: CString, p: nat, items: Items)
    requires items.Item? && Here(s, p, PrintItems(items)) && ItemsWellFormed(items)
    requires At(s, p + |PrintItems(items)|) == ']'
    ensures Ws(s, p) == p + |items.pre|
    ensures Here(s, p + |items.pre|, Print(items.v)) && At(s, p + |items.pre|) != ']'
    ensures var u := p + |items.pre| + |Print(items.v)| + |items.post|;
            && Skip(s, p + |items.pre|) == Some(p + |items.pre| + |Print(items.v)|)
            && Ws(s, p + |items.pre| + |Print(items.v)|) == u
            && (if items.rest.NoItem? then At(s, u) == ']' && u == p + |PrintItems(items)|
                else At(s, u) == ',' && Here(s, u + 1, PrintItems(items.rest))
                     && u + 1 + |PrintItems(items.rest)| == p + |PrintItems(items)|)
  {
    hide Print, PrintItems, Skip, WellFormed, Here, AllWs, ItemsWellFormed;
    ItemParts(s, p, items);
    ItemsHead(items);
    var q := p + |items.pre|;
    var t := q + |Print(items.v)|;
    FirstChar(s, q, items.v);
    BlankThen(s, p, items.pre);
    BlankThen(s, t, items.post);
    EndsBlank(s, t, items.post);
    SkipUndoesPrint(s, q, items.v);
  }

  lemma ItemsHead(items: Items)
    requires items.Item? && ItemsWellFormed(items)
    ensures AllWs(items.pre) && WellFormed(items.v) && AllWs(items.post) && ItemsWellFormed(items.rest)
  {
  }

  lemma {:induction false} WalkCount(s: CString, p: nat, items: Items, n: nat)
    requires items.Item? && Here(s, p, PrintItems(items)) && ItemsWellFormed(items)
    requires At(s, p + |PrintItems(items)|) == ']'
    ensures CountFrom(s, Ws(s, p), n) == n + Length(items)
    decreases items
  {
    hide Print, PrintItems, Skip, Ws, WellFormed, Here, AllWs;
    AfterItem(s, p, items);
    if items.rest.Item? {
      WalkCount(s, p + |items.pre| + |Print(items.v)| + |items.post| + 1, items.rest, n + 1);
    }
  }

  lemma {:induction false} WalkElem(s: CString, p: nat, items: Items, i: nat, idx: int)
    requires items.Item? && Here(s, p, PrintItems(items)) && ItemsWellFormed(items)
    requires At(s, p + |PrintItems(items)|) == ']'
    ensures if i <= idx < i + Length(items) then
              ElemFrom(s, Ws(s, p), i, idx) == Some(p + Offset(items, idx - i))
              && Here(s, p + Offset(items, idx - i), Print(Nth(items, idx - i)))
            else ElemFrom(s, Ws(s, p), i, idx) == None
    decreases items
  {
    hide Print, PrintItems, Skip, Ws, WellFormed, Here, AllWs, ItemsWellFormed;
    AfterItem(s, p, items);
    ItemsHead(items);
    if i == idx {
      assert Offset(items, 0) == |items.pre| && Nth(items, 0) == items.v;
    } else if items.rest.Item? {
      var next := p + |items.pre| + |Print(items.v)| + |items.post| + 1;
      assert ElemFrom(s, Ws(s, p), i, idx) == ElemFrom(s, Ws(s, next), i + 1, idx);
      WalkElem(s, next, items.rest, i + 1, idx);
    } else {
      assert ElemFrom(s, Ws(s, p), i, idx) == None;
      assert Length(items.rest) == 0;
    }
  }

  /** js_elem and js_count on a printed array: element i is where its text stands, there is no
      other element, and the count is the number of elements. */
  lemma ElemUndoesPrint(s: CString, p: nat, v: Value, idx: int)
    requires v.Array? && Here(s, p, Print(v)) && WellFormed(v)
    ensures Count(s, p) == Length(v.items)
    ensures if 0 <= idx < Length(v.items) then
              var q := p + 1 + |v.lead| + Offset(v.items, idx);
              Elem(s, p, idx) == Some(q) && Here(s, q, Print(Nth(v.items, idx)))
            else Elem(s, p, idx) == None
  {
    hide PrintItems, PrintMembers, Here, AllWs, Skip, CountFrom, ElemFrom, Offset, Ws;
    BodyParts(s, p, "[", v.lead, PrintItems(v.items), "]");
    var q := p + 1 + |v.lead|;
    NotBlank(s, p);
    WsOver(s, p + 1, v.lead);
    if v.items.Item? {
      AfterItem(s, q, v.items);
      WalkCount(s, q, v.items, 0);
      WalkElem(s, q, v.items, 0, idx);
    } else {
      NothingPrinted();
      NotBlank(s, q);
    }
  }

  lemma {:induction false} WalkEnds(s: CString, p: nat, items: Items, i: nat)
    requires i < Length(items) && Here(s, p, PrintItems(items)) && ItemsWellFormed(items)
    requires At(s, p + |PrintItems(items)|) == ']'
    ensures var t := p + Offset(items, i) + |Print(Nth(items, i))|; t <= |s| && Ends(s, t)
    decreases items
  {
    hide Print, PrintItems, Skip, Ws, WellFormed, Here, AllWs, ItemsWellFormed, Ends;
    AfterItem(s, p, items);
    ItemsHead(items);
    if i == 0 {
      EndsHere(s, p + |items.pre| + |Print(items.v)|);
    } else {
      WalkEnds(s, p + |items.pre| + |Print(items.v)| + |items.post| + 1, items.rest, i - 1);
    }
  }

  /** Behind an element of a printed array stands what ends a token. */
  lemma ElemEnds(s: CString, p: nat, v: Value, i: nat)
    requires v.Array? && Here(s, p, Print(v)) && WellFormed(v) && i < Length(v.items)
    ensures Elem(s, p, i).Some?
    ensures var t := Elem(s, p, i).value + |Print(Nth(v.items, i))|; t <= |s| && Ends(s, t)
  {
    hide PrintItems, PrintMembers, Here, AllWs, Elem, Count, Offset, Ends;
    ElemUndoesPrint(s, p, v, i);
    BodyParts(s, p, "[", v.lead, PrintItems(v.items), "]");
    WalkEnds(s, p + 1 + |v.lead|, v.items, i);
  }

  lemma NotBlank(s: CString, p: nat)
    requires p <= |s| && !IsWs(At(s, p))
    ensures Ws(s, p) == p
  {
  }

  // ---------------------------------------------------------------- members

  /** Offset of the value of the first member with this raw key, and the value. */
  function Find(members: Members, key: string): Option<(nat, Value)> {
    match members
    case NoMember => None
    case Member(pre, k, mid, gap, v, post, rest) =>
      var value := |pre| + |k| + 2 + |mid| + 1 + |gap|;
      if k == key then Some((value, v))
      else
        match Find(rest, key)
        case None => None
        case Some((o, w)) => Some((value + |Print(v)| + |post| + 1 + o, w))
  }

  lemma MembersHead(members: Members)
    requires members.Member? && MembersWellFormed(members)
    ensures AllWs(members.pre) && StringText(members.key) && AllWs(members.mid) && AllWs(members.gap)
    ensures WellFormed(members.v) && AllWs(members.post) && MembersWellFormed(members.rest)
  {
  }

  /** One member: its key, its value, and what follows. */
  lemma AfterMember(s: CString, p: nat, members: Members)
    requires members.Member? && Here(s, p, PrintMembers(members)) && MembersWellFormed(members)
    requires At(s, p + |PrintMembers(members)|) == '}'
    ensures var k := p + |members.pre|;
            var e := k + 1 + |members.key|;
            var c := e + 1 + |members.mid|;
            var q := c + 1 + |members.gap|;
            var t := q + |Print(members.v)|;
            var u := t + |members.post|;
            && Ws(s, p) == k && At(s, k) == '"' && StrEnd(s, k + 1) == e < |s| && s[k + 1..e] == members.key
            && Ws(s, e + 1) == c && At(s, c) == ':' && Ws(s, c + 1) == q && Here(s, q, Print(members.v))
            && Skip(s, q) == Some(t) && Ws(s, t) == u
            && (if members.rest.NoMember? then At(s, u) == '}'
                else At(s, u) == ',' && Here(s, u + 1, PrintMembers(members.rest))
                     && u + 1 + |PrintMembers(members.rest)| == p + |PrintMembers(members)|)
  {
    hide Print, PrintMembers, Skip, WellFormed, Brackets, Here, AllWs, MembersWellFormed, StringText, Ws, StrEnd, Quoted;
    MemberParts(s, p, members);
    MembersHead(members);
    var k := p + |members.pre|;
    QuotedOver(s, k, members.key, '[', 0);
    BlankThen(s, p, members.pre);
    var m := k + |members.key| + 2;
    BlankThen(s, m, members.mid);
    var g := m + |members.mid| + 1;
    var q := g + |members.gap|;
    FirstChar(s, q, members.v);
    NotWs(s, q);
    BlankThen(s, g, members.gap);
    var t := q + |Print(members.v)|;
    BlankThen(s, t, members.post);
    EndsBlank(s, t, members.post);
    SkipUndoesPrint(s, q, members.v);
  }

  lemma NotWs(s: CString, p: nat)
    requires p <= |s| && Ws(s, p) == p
    ensures !IsWs(At(s, p))
  {
  }

  lemma FieldOfMember(s: CString, p: nat, members: Members)
    requires members.Member? && Here(s, p, PrintMembers(members)) && MembersWellFormed(members)
    requires At(s, p + |PrintMembers(members)|) == '}'
    ensures var k := p + |members.pre| + 1;
            var q := k + |members.key| + 1 + |members.mid| + 1 + |members.gap|;
            var u := q + |Print(members.v)| + |members.post|;
            && FieldAt(s, p) == Some(Field(k, k + |members.key|, q))
            && s[k..k + |members.key|] == members.key && Here(s, q, Print(members.v))
            && (if members.rest.NoMember? then NextField(s, q) == None
                else NextField(s, q) == Some(u + 1) && Here(s, u + 1, PrintMembers(members.rest))
                     && u + 1 + |PrintMembers(members.rest)| == p + |PrintMembers(members)|)
  {
    hide Print, PrintMembers, Skip, Ws, StrEnd, WellFormed, Here, AllWs, StringText;
    AfterMember(s, p, members);
  }

  lemma {:induction false} WalkMembers(s: CString, p: nat, members: Members, key: string)
    requires members.Member? && Here(s, p, PrintMembers(members)) && MembersWellFormed(members)
    requires At(s, p + |PrintMembers(members)|) == '}'
    ensures match Find(members, key)
            case None => GetFrom(s, p, key) == None
            case Some((o, v)) => GetFrom(s, p, key) == Some(p + o) && Here(s, p + o, Print(v))
    decreases members
  {
    hide Print, PrintMembers, FieldAt, NextField, WellFormed, Here, AllWs, StringText, GetFrom;
    FieldOfMember(s, p, members);
    GetUnfolds(s, p, key);
    if members.rest.Member? && members.key != key {
      var u := p + |members.pre| + |members.key| + 2 + |members.mid| + 1 + |members.gap| + |Print(members.v)| + |members.post|;
      WalkMembers(s, u + 1, members.rest, key);
    }
  }

  /** js_get on a printed object lands on the value of the first member whose key is written
      exactly so, and on nothing when there is none. */
  lemma GetUndoesPrint(s: CString, p: nat, v: Value, key: string)
    requires v.Object? && Here(s, p, Print(v)) && WellFormed(v)
    ensures match Find(v.members, key)
            case None => Get(s, p, key) == None
            case Some((o, w)) => var q := p + 1 + |v.lead| + o; Get(s, p, key) == Some(q) && Here(s, q, Print(w))
  {
    hide PrintItems, PrintMembers, Here, AllWs, Skip, GetFrom, Ws, StrEnd;
    BodyParts(s, p, "{", v.lead, PrintMembers(v.members), "}");
    var q := p + 1 + |v.lead|;
    NotBlank(s, p);
    WsOver(s, p + 1, v.lead);
    if v.members.Member? {
      AfterMember(s, q, v.members);
      WalkMembers(s, q, v.members, key);
      GetSkipsWs(s, q, key);
    } else {
      NothingPrinted();
      NotBlank(s, q);
    }
  }

  lemma GetSkipsWs(s: CString, p: nat, key: string)
    requires p <= |s|
    ensures GetFrom(s, Ws(s, p), key) == GetFrom(s, p, key)
  {
    hide Skip, StrEnd, NextField, GetFrom;
    assert Ws(s, Ws(s, p)) == Ws(s, p);
    assert FieldAt(s, Ws(s, p)) == FieldAt(s, p);
    GetUnfolds(s, p, key);
    GetUnfolds(s, Ws(s, p), key);
  }

  // ---------------------------------------------------------------- one reading

  /** A value without its white space. */
  function Strip(v: Value): Value {
    match v
    case Token(t) => v
    case Text(raw) => v
    case Array(lead, items) => Array("", StripItems(items))
    case Object(lead, members) => Object("", StripMembers(members))
  }

  function StripItems(items: Items): Items {
    match items
    case NoItem => NoItem
    case Item(pre, v, post, rest) => Item("", Strip(v), "", StripItems(rest))
  }

  function StripMembers(members: Members): Members {
    match members
    case NoMember => NoMember
    case Member(pre, key, mid, gap, v, post, rest) => Member("", key, "", "", Strip(v), "", StripMembers(rest))
  }

  lemma EndsHere(s: CString, t: nat)
    requires t <= |s| && IsDelimiter(At(s, Ws(s, t)))
    ensures Ends(s, t)
  {
  }

  lemma SameText(s: CString, p: nat, u: string, w: string)
    requires Here(s, p, u) && Here(s, p, w) && |u| == |w|
    ensures u == w
  {
  }

  /** A text has one reading: two values printed at the same place, both ending there, are the
      same up to white space and take up the same text. */
  lemma {:induction false} TextDeterminesValue(s: CString, p: nat, v: Value, w: Value)
    requires Here(s, p, Print(v)) && Here(s, p, Print(w)) && WellFormed(v) && WellFormed(w)
    requires Ends(s, p + |Print(v)|) && Ends(s, p + |Print(w)|)
    ensures |Print(v)| == |Print(w)| && Strip(v) == Strip(w)
    decreases v
  {
    hide Here, Skip, Ws, AllWs, StringText, Quoted, PrintItems, PrintMembers, StripItems, StripMembers;
    SkipUndoesPrint(s, p, v);
    SkipUndoesPrint(s, p, w);
    SameKind(s, p, v, w);
    match v
    case Token(t) =>
      SameText(s, p, t, w.t);
    case Text(raw) =>
      SameText(s, p, Quoted(raw), Quoted(w.raw));
      QuotedInjective(raw, w.raw);
    case Array(lead, items) =>
      BodyStarts(s, p, "[", lead, PrintItems(items), "]");
      BodyStarts(s, p, "[", w.lead, PrintItems(w.items), "]");
      TextDeterminesItems(s, p + 1 + |lead|, items, p + 1 + |w.lead|, w.items);
    case Object(lead, members) =>
      BodyStarts(s, p, "{", lead, PrintMembers(members), "}");
      BodyStarts(s, p, "{", w.lead, PrintMembers(w.members), "}");
      TextDeterminesMembers(s, p + 1 + |lead|, members, p + 1 + |w.lead|, w.members);
  }

  lemma SameKind(s: CString, p: nat, v: Value, w: Value)
    requires Here(s, p, Print(v)) && Here(s, p, Print(w)) && WellFormed(v) && WellFormed(w)
    ensures v.Token? == w.Token? && v.Text? == w.Text? && v.Array? == w.Array? && v.Object? == w.Object?
  {
    hide Here, Print, AllWs, StringText, Ws;
    FirstChar(s, p, v);
    FirstChar(s, p, w);
    if v.Token? { assert TokenChar(v.t[0]); }
    if w.Token? { assert TokenChar(w.t[0]); }
  }

  lemma QuotedInjective(a: string, b: string)
    requires Quoted(a) == Quoted(b)
    ensures a == b
  {
    assert a == Quoted(a)[1..|a| + 1] && b == Quoted(b)[1..|b| + 1];
  }

  lemma BodyStarts(s: CString, p: nat, o: string, lead: string, body: string, c: string)
    requires |o| == 1 && |c| == 1 && Here(s, p, o + lead + body + c) && AllWs(lead)
    ensures var q := p + 1 + |lead|;
            && q <= |s| && p + 1 <= |s| && Here(s, q, body) && q + |body| <= |s| && At(s, q + |body|) == c[0]
            && Ws(s, p + 1) == Ws(s, q)
  {
    hide Here, Ws, AllWs;
    BodyParts(s, p, o, lead, body, c);
    WsOver(s, p + 1, lead);
  }

  lemma {:induction false} TextDeterminesItems(s: CString, p: nat, items: Items, q: nat, other: Items)
    requires Here(s, p, PrintItems(items)) && Here(s, q, PrintItems(other))
    requires ItemsWellFormed(items) && ItemsWellFormed(other)
    requires p + |PrintItems(items)| <= |s| && At(s, p + |PrintItems(items)|) == ']'
    requires q + |PrintItems(other)| <= |s| && At(s, q + |PrintItems(other)|) == ']'
    requires Ws(s, p) == Ws(s, q)
    ensures StripItems(items) == StripItems(other)
    decreases items
  {
    hide Here, Print, PrintItems, Skip, Ws, Strip, WellFormed, ItemsWellFormed, AllWs;
    ItemsStart(s, p, items);
    ItemsStart(s, q, other);
    if items.Item? {
      AfterItem(s, p, items);
      AfterItem(s, q, other);
      ItemsHead(items);
      ItemsHead(other);
      var at := p + |items.pre|;
      EndsHere(s, at + |Print(items.v)|);
      EndsHere(s, at + |Print(other.v)|);
      TextDeterminesValue(s, at, items.v, other.v);
      var u, v := at + |Print(items.v)| + |items.post|, at + |Print(other.v)| + |other.post|;
      assert u == v;
      if items.rest.Item? {
        TextDeterminesItems(s, u + 1, items.rest, v + 1, other.rest);
      } else {
        assert StripItems(NoItem) == NoItem;
      }
    }
  }

  /** White space before the items ends on the bracket when there are none and elsewhere when
      there are. */
  lemma ItemsStart(s: CString, p: nat, items: Items)
    requires Here(s, p, PrintItems(items)) && ItemsWellFormed(items)
    requires p + |PrintItems(items)| <= |s| && At(s, p + |PrintItems(items)|) == ']'
    ensures items.NoItem? <==> At(s, Ws(s, p)) == ']'
  {
    hide Here, Print, PrintItems, Skip, WellFormed, ItemsWellFormed, AllWs;
    NothingPrinted();
    if items.Item? { AfterItem(s, p, items); }
  }

  lemma {:induction false} TextDeterminesMembers(s: CString, p: nat, members: Members, q: nat, other: Members)
    requires Here(s, p, PrintMembers(members)) && Here(s, q, PrintMembers(other))
    requires MembersWellFormed(members) && MembersWellFormed(other)
    requires p + |PrintMembers(members)| <= |s| && At(s, p + |PrintMembers(members)|) == '}'
    requires q + |PrintMembers(other)| <= |s| && At(s, q + |PrintMembers(other)|) == '}'
    requires Ws(s, p) == Ws(s, q)
    ensures StripMembers(members) == StripMembers(other)
    decreases members
  {
    hide Here, Print, PrintMembers, Skip, Ws, StrEnd, Strip, WellFormed, MembersWellFormed, AllWs, StringText, Ends;
    MembersStart(s, p, members);
    MembersStart(s, q, other);
    if members.Member? {
      MembersHead(members);
      MembersHead(other);
      var at := ValueStart(p, members);
      SameMember(s, p, members, q, other);
      TextDeterminesValue(s, at, members.v, other.v);
      if members.rest.Member? {
        var u := at + |Print(members.v)| + |members.post|;
        TextDeterminesMembers(s, u + 1, members.rest, u + 1, other.rest);
      } else {
        assert StripMembers(NoMember) == NoMember;
      }
    }
  }

  /** Where the value of a member printed at p begins. */
  function ValueStart(p: nat, members: Members): nat
    requires members.Member?
  {
    p + |members.pre| + 2 + |members.key| + |members.mid| + 1 + |members.gap|
  }

  /** Two readings of a member at the same key share that key, where the value begins, where it
      ends and what follows it. */
  lemma SameMember(s: CString, p: nat, members: Members, q: nat, other: Members)
    requires members.Member? && Here(s, p, PrintMembers(members)) && MembersWellFormed(members)
    requires other.Member? && Here(s, q, PrintMembers(other)) && MembersWellFormed(other)
    requires At(s, p + |PrintMembers(members)|) == '}' && At(s, q + |PrintMembers(other)|) == '}'
    requires p + |PrintMembers(members)| <= |s| && q + |PrintMembers(other)| <= |s|
    requires Ws(s, p) == Ws(s, q)
    ensures members.key == other.key && ValueStart(p, members) == ValueStart(q, other)
    ensures var at := ValueStart(p, members);
            && Here(s, at, Print(members.v)) && Here(s, at, Print(other.v))
            && |Print(members.v)| == |Print(other.v)| && at + |Print(members.v)| <= |s|
            && Ends(s, at + |Print(members.v)|)
            && members.rest.Member? == other.rest.Member?
            && (members.rest.Member? ==>
                  var u, w := at + |Print(members.v)| + |members.post|, at + |Print(other.v)| + |other.post|;
                  && u == w && Here(s, u + 1, PrintMembers(members.rest)) && Here(s, u + 1, PrintMembers(other.rest))
                  && u + 1 + |PrintMembers(members.rest)| == p + |PrintMembers(members)|
                  && u + 1 + |PrintMembers(other.rest)| == q + |PrintMembers(other)|)
  {
    hide Here, Print, PrintMembers, Skip, Ws, StrEnd, WellFormed, MembersWellFormed, AllWs, StringText, Ends,
      FieldAt, NextField;
    FieldOfMember(s, p, members);
    FieldOfMember(s, q, other);
    SameField(s, p, q);
    MemberValueEnds(s, p, members);
    MemberValueEnds(s, q, other);
  }

  /** Where a member is read depends on its position past the white space only. */
  lemma SameField(s: CString, p: nat, q: nat)
    requires p <= |s| && q <= |s| && Ws(s, p) == Ws(s, q)
    ensures FieldAt(s, p) == FieldAt(s, q)
  {
    hide Ws, StrEnd;
  }

  /** The scanner finds the end of a member's value, and it ends a token. */
  lemma MemberValueEnds(s: CString, p: nat, members: Members)
    requires members.Member? && Here(s, p, PrintMembers(members)) && MembersWellFormed(members)
    requires p + |PrintMembers(members)| <= |s| && At(s, p + |PrintMembers(members)|) == '}'
    ensures var at := ValueStart(p, members);
            && at + |Print(members.v)| <= |s| && Ends(s, at + |Print(members.v)|)
            && Skip(s, at) == Some(at + |Print(members.v)|)
  {
    hide Here, Print, PrintMembers, Skip, Ws, StrEnd, WellFormed, MembersWellFormed, AllWs, StringText, Ends;
    AfterMember(s, p, members);
    EndsHere(s, ValueStart(p, members) + |Print(members.v)|);
  }

  lemma MembersStart(s: CString, p: nat, members: Members)
    requires Here(s, p, PrintMembers(members)) && MembersWellFormed(members)
    requires p + |PrintMembers(members)| <= |s| && At(s, p + |PrintMembers(members)|) == '}'
    ensures members.NoMember? <==> At(s, Ws(s, p)) == '}'
  {
    hide Here, Print, PrintMembers, Skip, WellFormed, MembersWellFormed, AllWs;
    NothingPrinted();
    if members.Member? { AfterMember(s, p, members); }
  }

  /** A JSON text of RFC 8259, section 2: a value with white space around it. */
  predicate Denotes(text: string, before: string, v: Value, after: string) {
    text == before + Print(v) + after && AllWs(before) && AllWs(after) && WellFormed(v)
  }

  /** It denotes one value only. */
  lemma OneReading(text: CString, before: string, v: Value, after: string, before': string, w: Value, after': string)
    requires Denotes(text, before, v, after) && Denotes(text, before', w, after')
    ensures Strip(v) == Strip(w)
  {
    hide Here, Print, Ws, AllWs, WellFormed, Strip;
    ReadingStarts(text, before, v, after);
    ReadingStarts(text, before', w, after');
    TextDeterminesValue(text, |before|, v, w);
  }

  lemma ReadingStarts(text: CString, before: string, v: Value, after: string)
    requires Denotes(text, before, v, after)
    ensures Here(text, |before|, Print(v)) && Ws(text, 0) == |before| && Ends(text, |before| + |Print(v)|)
  {
    hide Print, Ws, WellFormed;
    FirstChar(text, |before|, v);
    assert Here(text, 0, before);
    WsOver(text, 0, before);
    if after != "" { assert text[|before| + |Print(v)|] == after[0]; }
  }
}
