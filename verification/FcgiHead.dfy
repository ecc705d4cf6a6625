/** Which byte streams begin with a request that is accepted, record by record. */
module FcgiHead {
  import opened Basics
  import opened Records
  import opened FcgiParams
  import opened FcgiRequest

  /** The header of an empty STDIN record; the reader passes over its eight bytes and expects no padding. */
  predicate IsIdle(h: Bytes) {
    |h| == HEADER_SIZE && h[0] >= 1 && h[1] == FCGI_STDIN && Word(h[4], h[5]) == 0
  }

  predicate AllIdle(hs: seq<Bytes>) {
    forall i :: 0 <= i < |hs| ==> IsIdle(hs[i])
  }

  function Flat(hs: seq<Bytes>): Bytes {
    if hs == [] then [] else hs[0] + Flat(hs[1..])
  }

  predicate IsBegin(r: Record) {
    && Representable(r) && r.kind == FCGI_BEGIN_REQUEST && |r.content| == 8
    && r.content[0] == 0 && 1 <= r.content[1] <= 3
  }

  function Role(r: Record): Bytes
    requires IsBegin(r)
  {
    [RESPONDER, AUTHORIZER, FILTER][r.content[1] - 1]
  }

  /** A PARAMS record that holds complete pairs and fits the reader's buffer with its padding. */
  predicate IsParams(r: Record) {
    && Representable(r) && r.kind == FCGI_PARAMS && r.content != []
    && |r.content| + |r.padding| <= MAX_LENGTH && Split(r.content).1
  }

  /** Eight bytes that are the header of anything but a PARAMS record with content. */
  predicate IsStop(h: Bytes) {
    |h| == HEADER_SIZE && h[0] >= 1 && (h[1] != FCGI_PARAMS || Word(h[4], h[5]) == 0)
  }

  function AllPairs(rs: seq<Record>): seq<Pair> {
    if rs == [] then [] else Split(rs[0].content).0 + AllPairs(rs[1..])
  }

  /** A request: headers of empty STDIN records, BEGIN_REQUEST, PARAMS, and the header that stops the reader. */
  datatype Shape = Shape(skipped: seq<Bytes>, begin: Record, params: seq<Record>, stop: Bytes) {
    predicate Valid() {
      && AllIdle(skipped) && AllRepresentable(params)
      && IsBegin(begin)
      && (forall i :: 0 <= i < |params| ==> IsParams(params[i]))
      && IsStop(stop)
    }

    function Wire(rest: Bytes): Bytes
      requires Valid()
    {
      Flat(skipped) + (Encode(begin) + (EncodeAll(params) + (stop + rest)))
    }

    /** The table the request stands for: the role first, then the pairs of all records in order. */
    function Meaning(): Env
      requires Valid()
    {
      ENV0.Update(Pair(FCGI_ROLE, Role(begin))).Fold(AllPairs(params))
    }
  }

  lemma {:induction false} HeadOf(r: Record, rest: Bytes)
    requires Representable(r)
    ensures DecodeHead(Encode(r) + rest) == Some(Head(r.kind, r.id, |r.content|, |r.padding|))
    ensures (Encode(r) + rest)[HEADER_SIZE..] == r.content + (r.padding + rest)
  {
    var h := Header(r.version, r.kind, r.id, |r.content|, |r.padding|, r.reserved);
    Assoc(h + r.content, r.padding, rest);
    Assoc(h, r.content, r.padding + rest);
    var s := h + (r.content + (r.padding + rest));
    assert s[..HEADER_SIZE] == h;
    assert s[0] == h[0] && s[1] == h[1] && s[2] == h[2] && s[3] == h[3] && s[4] == h[4] && s[5] == h[5] && s[6] == h[6];
    AppendDrop(h, r.content + (r.padding + rest));
  }

  lemma {:induction false} ThreeParts(a: Bytes, b: Bytes, c: Bytes)
    ensures (a + (b + c))[..|a|] == a
    ensures (a + (b + c))[|a| + |b|..] == c
  {
  }

  /** The first record of several is in front of the rest. */
  lemma {:induction false} FirstOf(rs: seq<Record>, rest: Bytes)
    requires rs != [] && AllRepresentable(rs)
    ensures AllRepresentable(rs[1..])
    ensures EncodeAll(rs) + rest == Encode(rs[0]) + (EncodeAll(rs[1..]) + rest)
  {
    assert rs == [rs[0]] + rs[1..];
    EncodeAllFront(rs[0], rs[1..]);
    Assoc(Encode(rs[0]), EncodeAll(rs[1..]), rest);
  }

  lemma {:induction false} SkipsIdle(hs: seq<Bytes>, rest: Bytes)
    requires AllIdle(hs)
    ensures FirstHead(Flat(hs) + rest) == FirstHead(rest)
    decreases |hs|
  {
    if hs == [] {
      assert Flat(hs) + rest == rest;
    } else {
      Assoc(hs[0], Flat(hs[1..]), rest);
      AppendDrop(hs[0], Flat(hs[1..]) + rest);
      SkipsIdle(hs[1..], rest);
    }
  }

  lemma {:induction false} TakesOne(env: Env, r: Record, more: Bytes)
    requires IsParams(r)
    ensures TakeParams(env, Encode(r) + more) == TakeParams(env.Fold(Split(r.content).0), more)
  {
    HeadOf(r, more);
    ThreeParts(r.content, r.padding, more);
    var h, s := Head(r.kind, r.id, |r.content|, |r.padding|), r.content + (r.padding + more);
    TakesContent(env, h, s);
    SameTake(env, s[..h.len], r.content, s[h.len + h.pad..], more);
  }

  lemma {:induction false} SameTake(env: Env, content: Bytes, content': Bytes, more: Bytes, more': Bytes)
    requires content == content' && more == more'
    ensures TakeParams(env.Fold(Split(content).0), more) == TakeParams(env.Fold(Split(content').0), more')
  {
  }

  lemma {:induction false} TakesParams(env: Env, rs: seq<Record>, stop: Bytes, rest: Bytes)
    requires AllRepresentable(rs) && (forall i :: 0 <= i < |rs| ==> IsParams(rs[i])) && IsStop(stop)
    ensures TakeParams(env, EncodeAll(rs) + (stop + rest)) == Some((env.Fold(AllPairs(rs)), rest))
    decreases |rs|
  {
    if rs == [] {
      assert EncodeAll(rs) + (stop + rest) == stop + rest;
      AppendDrop(stop, rest);
    } else {
      var pairs := Split(rs[0].content).0;
      FirstOf(rs, stop + rest);
      TakesOne(env, rs[0], EncodeAll(rs[1..]) + (stop + rest));
      FoldAppend(env, pairs, AllPairs(rs[1..]));
      TakesParams(env.Fold(pairs), rs[1..], stop, rest);
    }
  }

  lemma {:induction false} TakesBegin(r: Record, body: Bytes, env: Env, rest: Bytes)
    requires IsBegin(r)
    requires TakeParams(ENV0.Update(Pair(FCGI_ROLE, Role(r))), body) == Some((env, rest))
    ensures TakeBegin(Head(r.kind, r.id, 8, |r.padding|), r.content + (r.padding + body))
         == Some(Accepted(r.id, r.content[2] % 2, env, rest))
  {
    var t := r.content + (r.padding + body);
    ThreeParts(r.content, r.padding, body);
    RolesAreNamed(r.content[0], r.content[1]);
    assert t[0] == r.content[0] && t[1] == r.content[1] && t[2] == r.content[2];
    assert t[8 + |r.padding|..] == body;
  }

  /** A well-formed request is accepted with the table it stands for, and nothing behind it is touched. */
  lemma {:induction false} AcceptsShape(x: Shape, rest: Bytes)
    requires x.Valid()
    ensures TakeRequest(x.Wire(rest)) == Some(Accepted(x.begin.id, x.begin.content[2] % 2, x.Meaning(), rest))
  {
    var begin, body := x.begin, EncodeAll(x.params) + (x.stop + rest);
    SkipsIdle(x.skipped, Encode(begin) + body);
    HeadOf(begin, body);
    TakesParams(ENV0.Update(Pair(FCGI_ROLE, Role(begin))), x.params, x.stop, rest);
    TakesBegin(begin, body, x.Meaning(), rest);
  }

  /** An ordinary request, byte by byte: a responder, kept alive, with one pair; and what is behind it. */
  lemma {:induction false} RequestOnTheWire(begin: Bytes, params: Bytes, stop: Bytes, rest: Bytes)
    requires begin == [1, 1, 0, 7, 0, 8, 0, 0, 0, 1, 1, 0, 0, 0, 0, 0]
    requires params == [1, 4, 0, 7, 0, 4, 0, 0, 1, 1, 65, 66]
    requires stop == [1, 4, 0, 7, 0, 0, 0, 0]
    ensures TakeRequest(begin + (params + (stop + rest)))
      == Some(Accepted(7, 1, Env([FCGI_ROLE, [65]], map[FCGI_ROLE := RESPONDER, [65] := [66]]), rest))
  {
    var b := BeginOnTheWire(begin);
    var p := ParamsOnTheWire(params);
    StopOnTheWire(stop);
    RequestOfTwo(b, p, begin, params, stop, rest);
  }

  lemma {:induction false} BeginOnTheWire(s: Bytes) returns (r: Record)
    requires s == [1, 1, 0, 7, 0, 8, 0, 0, 0, 1, 1, 0, 0, 0, 0, 0]
    ensures IsBegin(r) && Encode(r) == s && r.id == 7 && r.content[1] == 1 && r.content[2] == 1
  {
    r := Record(1, 1, 7, 0, [0, 1, 1, 0, 0, 0, 0, 0], []);
    assert Encode(r) == s;
  }

  lemma {:induction false} ParamsOnTheWire(s: Bytes) returns (r: Record)
    requires s == [1, 4, 0, 7, 0, 4, 0, 0, 1, 1, 65, 66]
    ensures IsParams(r) && Encode(r) == s && r.content == [1, 1, 65, 66]
  {
    r := Record(1, 4, 7, 0, [1, 1, 65, 66], []);
    OnePair();
    assert Encode(r) == s;
  }

  lemma {:induction false} StopOnTheWire(s: Bytes)
    requires s == [1, 4, 0, 7, 0, 0, 0, 0]
    ensures IsStop(s)
  {
    assert s[4] == 0 && s[5] == 0;
  }

  lemma {:induction false} RequestOfTwo(b: Record, p: Record, begin: Bytes, params: Bytes, stop: Bytes, rest: Bytes)
    requires IsBegin(b) && IsParams(p) && IsStop(stop) && Encode(b) == begin && Encode(p) == params
    requires p.content == [1, 1, 65, 66] && b.id == 7 && b.content[1] == 1 && b.content[2] == 1
    ensures TakeRequest(begin + (params + (stop + rest)))
      == Some(Accepted(7, 1, Env([FCGI_ROLE, [65]], map[FCGI_ROLE := RESPONDER, [65] := [66]]), rest))
  {
    var x := Shape([], b, [p], stop);
    EncodeAllFront(p, []);
    assert [p] + [] == [p] && Encode(p) + EncodeAll([]) == Encode(p);
    assert Flat([]) + (begin + (params + (stop + rest))) == begin + (params + (stop + rest));
    AcceptsShape(x, rest);
    MeaningOfOne(x);
  }

  lemma {:induction false} OnePair()
    ensures Split([1, 1, 65, 66]) == ([Pair([65], [66])], true)
  {
    var s: Bytes := [1, 1, 65, 66];
    assert s[1..] == [1, 65, 66] && s[1..][1..] == [65, 66] && [65, 66][..1] == [65] && [65, 66][1..2] == [66];
    assert DecodePair(s) == Some((Pair([65], [66]), 4));
    assert s[4..] == [];
    SplitNext(s, Pair([65], [66]), 4);
    assert [Pair([65], [66])] + [] == [Pair([65], [66])];
  }

  lemma {:induction false} MeaningOfOne(x: Shape)
    requires x.Valid() && |x.params| == 1 && x.params[0].content == [1, 1, 65, 66] && x.begin.content[1] == 1
    ensures x.Meaning() == Env([FCGI_ROLE, [65]], map[FCGI_ROLE := RESPONDER, [65] := [66]])
  {
    OnePair();
    var pair := Pair([65], [66]);
    assert AllPairs(x.params[1..]) == [];
    assert AllPairs(x.params) == [pair] + [] == [pair];
    var e := ENV0.Update(Pair(FCGI_ROLE, RESPONDER));
    assert [pair][1..] == [];
    assert e.Fold([pair]) == e.Update(pair);
    assert |FCGI_ROLE| == 9 && [65] != FCGI_ROLE;
  }

  // ---- Nothing else is accepted -------------------------------------------------------------

  /** The record whose header, content and padding are at the front of a byte string. */
  lemma {:induction false} RecordAt(s: Bytes) returns (r: Record)
    requires DecodeHead(s).Some? && |s| >= HEADER_SIZE + DecodeHead(s).value.len + DecodeHead(s).value.pad
    ensures var h := DecodeHead(s).value;
      && Representable(r) && r.kind == h.kind && r.id == h.id && |r.content| == h.len && |r.padding| == h.pad
      && r.content == s[HEADER_SIZE..][..h.len]
      && s == Encode(r) + s[HEADER_SIZE..][h.len + h.pad..]
  {
    var h, t := DecodeHead(s).value, s[HEADER_SIZE..];
    r := Record(s[0], h.kind, h.id, s[7], t[..h.len], t[h.len..h.len + h.pad]);
    WordBytes(s[2], s[3]);
    WordBytes(s[4], s[5]);
    assert Header(r.version, r.kind, r.id, |r.content|, |r.padding|, r.reserved) == s[..HEADER_SIZE];
    Pieces(s, h.len, h.pad);
  }

  lemma {:induction false} WordBytes(high: Byte, low: Byte)
    ensures Word(high, low) / 256 == high && Word(high, low) % 256 == low
  {
  }

  lemma {:induction false} Pieces(s: Bytes, len: nat, pad: nat)
    requires HEADER_SIZE + len + pad <= |s|
    ensures var t := s[HEADER_SIZE..];
      s == s[..HEADER_SIZE] + t[..len] + t[len..len + pad] + t[len + pad..]
  {
  }

  lemma {:induction false} IdleOnly(s: Bytes) returns (hs: seq<Bytes>, t: Bytes)
    requires FirstHead(s).Some?
    ensures AllIdle(hs) && s == Flat(hs) + t
    ensures DecodeHead(t) == Some(FirstHead(s).value.0) && t[HEADER_SIZE..] == FirstHead(s).value.1
    decreases |s|
  {
    var h := DecodeHead(s).value;
    if h.kind == FCGI_STDIN && h.len == 0 {
      var more;
      more, t := IdleOnly(s[HEADER_SIZE..]);
      hs := [s[..HEADER_SIZE]] + more;
      assert hs[1..] == more;
      Assoc(s[..HEADER_SIZE], Flat(more), t);
    } else {
      hs, t := [], s;
    }
  }

  lemma {:induction false} ParamsOnly(env: Env, s: Bytes) returns (rs: seq<Record>, stop: Bytes, rest: Bytes)
    requires TakeParams(env, s).Some?
    ensures AllRepresentable(rs) && (forall i :: 0 <= i < |rs| ==> IsParams(rs[i])) && IsStop(stop)
    ensures s == EncodeAll(rs) + (stop + rest)
    decreases |s|
  {
    var h, t := DecodeHead(s).value, s[HEADER_SIZE..];
    if h.kind != FCGI_PARAMS || h.len == 0 {
      rs, stop, rest := [], s[..HEADER_SIZE], t;
      assert s == EncodeAll([]) + (stop + rest);
    } else {
      var r := RecordAt(s);
      assert IsParams(r);
      var more;
      more, stop, rest := ParamsOnly(env.Fold(Split(t[..h.len]).0), t[h.len + h.pad..]);
      rs := [r] + more;
      RecordsCons(r, more, stop + rest);
    }
  }

  lemma {:induction false} RecordsCons(r: Record, rs: seq<Record>, rest: Bytes)
    requires IsParams(r) && AllRepresentable(rs) && forall i :: 0 <= i < |rs| ==> IsParams(rs[i])
    ensures AllRepresentable([r] + rs) && forall i :: 0 <= i < |[r] + rs| ==> IsParams(([r] + rs)[i])
    ensures EncodeAll([r] + rs) + rest == Encode(r) + (EncodeAll(rs) + rest)
  {
    EncodeAllFront(r, rs);
    Assoc(Encode(r), EncodeAll(rs), rest);
  }

  /** A stream is accepted if and only if it begins with a well-formed request. */
  lemma {:induction false} AcceptsExactly(s: Bytes)
    ensures TakeRequest(s).Some? <==> exists x: Shape, rest: Bytes :: x.Valid() && x.Wire(rest) == s
  {
    if TakeRequest(s).Some? {
      var x, rest := ShapeOf(s);
    }
    if x: Shape, rest: Bytes :| x.Valid() && x.Wire(rest) == s {
      AcceptsShape(x, rest);
    }
  }

  lemma {:induction false} ShapeOf(s: Bytes) returns (x: Shape, rest: Bytes)
    requires TakeRequest(s).Some?
    ensures x.Valid() && x.Wire(rest) == s
  {
    var skipped, t := IdleOnly(s);
    var begin := RecordAt(t);
    var after := t[HEADER_SIZE..][8 + |begin.padding|..];
    assert begin.content[0] == t[HEADER_SIZE..][0] && begin.content[1] == t[HEADER_SIZE..][1];
    RolesAreNamed(begin.content[0], begin.content[1]);
    var params, stop;
    params, stop, rest := ParamsOnly(ENV0.Update(Pair(FCGI_ROLE, Role(begin))), after);
    x := Shape(skipped, begin, params, stop);
  }

  // ---- Queries --------------------------------------------------------------------------------

  /** A GET_VALUES record that holds complete pairs and fits the reader's buffer with its padding. */
  predicate IsQuery(r: Record) {
    Representable(r) && r.kind == FCGI_GET_VALUES && |r.content| + |r.padding| <= MAX_LENGTH && Split(r.content).1
  }

  /** Behind headers of empty STDIN records a query is recognised, with each name that it asks for once. */
  lemma {:induction false} QueryIsTaken(hs: seq<Bytes>, r: Record, rest: Bytes)
    requires AllIdle(hs) && IsQuery(r)
    ensures TakeQuery(Flat(hs) + (Encode(r) + rest)) == Some(FirstNames(Split(r.content).0))
  {
    SkipsIdle(hs, Encode(r) + rest);
    HeadOf(r, rest);
    ThreeParts(r.content, r.padding, rest);
    OrderOfFirsts(Split(r.content).0);
    QueryBehind(Flat(hs) + (Encode(r) + rest), Head(r.kind, r.id, |r.content|, |r.padding|),
                r.content + (r.padding + rest), r.content);
  }

  lemma {:induction false} QueryBehind(s: Bytes, h: Head, t: Bytes, content: Bytes)
    requires FirstHead(s) == Some((h, t)) && h.kind == FCGI_GET_VALUES && h.len + h.pad <= MAX_LENGTH
    requires |t| >= h.len + h.pad && t[..h.len] == content && Split(content).1
    ensures TakeQuery(s) == Some(ENV0.Fold(Split(content).0).order)
  {
  }

  /** One query, byte by byte. */
  lemma {:induction false} QueryOnTheWire(query: Bytes, rest: Bytes)
    requires query == [1, 9, 0, 0, 0, 3, 0, 0, 1, 0, 65]
    ensures TakeQuery(query + rest) == Some([[65]])
  {
    var r := Record(1, 9, 0, 0, [1, 0, 65], []);
    assert Encode(r) == query;
    OneName();
    assert Flat([]) + (query + rest) == query + rest;
    QueryIsTaken([], r, rest);
    var ps := [Pair([65], [])];
    assert ps[..0] == [] && FirstNames(ps) == [] + [[65]] == [[65]];
  }

  lemma {:induction false} OneName()
    ensures Split([1, 0, 65]) == ([Pair([65], [])], true)
  {
    var s: Bytes := [1, 0, 65];
    assert s[1..] == [0, 65] && s[1..][1..] == [65] && [65][..1] == [65] && [65][1..1] == [];
    assert DecodePair(s) == Some((Pair([65], []), 3));
    assert s[3..] == [];
    SplitNext(s, Pair([65], []), 3);
    assert [Pair([65], [])] + [] == [Pair([65], [])];
  }

  /** And nothing else is a query. */
  lemma {:induction false} QueriesExactly(s: Bytes)
    ensures TakeQuery(s).Some? <==>
      exists hs: seq<Bytes>, r: Record, rest: Bytes :: AllIdle(hs) && IsQuery(r) && s == Flat(hs) + (Encode(r) + rest)
  {
    if TakeQuery(s).Some? {
      var hs, t := IdleOnly(s);
      var r := RecordAt(t);
      var rest := t[HEADER_SIZE..][|r.content| + |r.padding|..];
      assert AllIdle(hs) && IsQuery(r) && s == Flat(hs) + (Encode(r) + rest);
    }
    if hs: seq<Bytes>, r: Record, rest: Bytes :| AllIdle(hs) && IsQuery(r) && s == Flat(hs) + (Encode(r) + rest) {
      QueryIsTaken(hs, r, rest);
    }
  }
}
