/** Head and body of a request together, the next request on the same connection, and a body sent and read back. */
module FcgiExchange {
  import opened Basics
  import opened Records
  import opened Transport
  import opened FcgiRequest
  import opened FcgiHead
  import opened FcgiInput
  import opened FcgiFraming
  import FcgiOutput

  /**
   * A whole request on the wire: the head is accepted with the table it stands for, and reads of any sizes behind
   * it give the first bytes of the body, however peer and kernel cut them.
   */
  lemma {:induction false} WholeRequest(x: Shape, body: seq<Record>, end: Record, tail: Bytes, sizes: seq<nat>)
    requires x.Valid() && StdinRecords(body) && AllRepresentable(body) && IsEndOfBody(end)
    ensures var got := TakeRequest(x.Wire(Ahead(body, end, tail)));
      && got == Some(Accepted(x.begin.id, x.begin.content[2] % 2, x.Meaning(), Ahead(body, end, tail)))
      && ReadMany(In(0, 0, got.value.rest), sizes) == Payload(body)[..Min(Sum(sizes), |Payload(body)|)]
  {
    AcceptsShape(x, Ahead(body, end, tail));
    var p := Place([], [], body);
    assert p.Unread() == Payload(body);
    ReadManyFramed(In(0, 0, Ahead(body, end, tail)), p, end, tail, sizes);
  }

  lemma {:induction false} PayloadNotEmpty(rs: seq<Record>)
    requires StdinRecords(rs) && rs != []
    ensures Payload(rs) != []
  {
    assert |Payload(rs)| >= |rs[0].content|;
  }

  lemma {:induction false} EndIsIdle(end: Record)
    requires IsEndOfBody(end)
    ensures IsIdle(Encode(end))
  {
    assert Encode(end) == Header(end.version, end.kind, end.id, 0, 0, end.reserved);
  }

  lemma {:induction false} SameRequest(s: Bytes, t: Bytes)
    requires FirstHead(s) == FirstHead(t)
    ensures TakeRequest(s) == TakeRequest(t)
  {
  }

  /** The header of an empty STDIN record does not keep the next request from being read. */
  lemma {:induction false} EndIsSkipped(end: Record, tail: Bytes)
    requires IsEndOfBody(end)
    ensures TakeRequest(Encode(end) + tail) == TakeRequest(tail)
  {
    EndIsIdle(end);
    var hs := [Encode(end)];
    SkipsIdle(hs, tail);
    assert hs[1..] == [] && Flat(hs) == Encode(end) + [];
    SameRequest(Encode(end) + tail, tail);
  }

  /**
   * On a connection that is kept: once the script has read the whole body, even when it never asked for the record
   * that ends it, the next request that is read is the one behind it.
   */
  lemma {:induction false} NextRequestFollows(st: In, p: Place, end: Record, tail: Bytes, rest: nat)
    requires StandsAt(st, p, end, tail) && IsEndOfBody(end) && rest >= |p.Unread()|
    ensures TakeRequest(ReadOn(st, rest, []).next.incoming) == TakeRequest(tail)
  {
    ReadFramed(st, p, end, tail, rest, []);
    if rest == |p.Unread()| {
      var q := p.Skip(rest);
      SkipPayload(p, rest);
      if q.ahead != [] {
        PayloadNotEmpty(q.ahead);
      }
      assert Ahead([], end, tail) == Encode(end) + tail;
      EndIsSkipped(end, tail);
    }
  }

  // ---- A body from the writer to the reader -------------------------------------------------

  /** One stream on the wire, as the records `body` say. */
  ghost predicate Carries(body: seq<Record>, id: nat, data: Bytes) {
    && FcgiOutput.AllMade(body, id) && FcgiOutput.Empties(body) == 0
    && Stream(Contents(body)) == Tag(FCGI_STDIN, data)
  }

  lemma {:induction false} FlatSnoc(pieces: seq<Bytes>, piece: Bytes)
    ensures Flat(pieces + [piece]) == Flat(pieces) + piece
    decreases |pieces|
  {
    var all := pieces + [piece];
    if pieces == [] {
      assert all[1..] == [];
    } else {
      assert all[0] == pieces[0] && all[1..] == pieces[1..] + [piece];
      FlatSnoc(pieces[1..], piece);
    }
  }

  /** The writer between two writes of standard input, without an empty record so far. */
  ghost predicate Sending(out: FcgiOutput.Output, data: Bytes)
    reads out, out.outBuf, out.conn
  {
    && out.Valid() && out.written == Tag(FCGI_STDIN, data)
    && out.empties == 0 && (out.outHdr == FcgiOutput.NO_PACKET ==> out.outPos == 0)
    && (out.outHdr != FcgiOutput.NO_PACKET ==> out.Open().value.kind == FCGI_STDIN)
  }

  method SendPiece(out: FcgiOutput.Output, ghost data: Bytes, piece: Bytes) returns (ok: bool)
    requires Sending(out, data)
    modifies out, out.outBuf, out.conn`sent, out.conn`patience, out.conn`faults
    ensures out.conn.faults == old(out.conn.faults) + (if ok then 0 else 1) && (out.conn.reliable ==> ok)
    ensures out.id == old(out.id) && out.start == old(out.start)
    ensures ok ==> Sending(out, data + piece)
  {
    TagAppend(FCGI_STDIN, data, piece);
    ok := FcgiOutput.WriteOne(out, FCGI_STDIN, piece, true, Some(FCGI_STDIN));
  }

  method SendRest(out: FcgiOutput.Output, ghost data: Bytes) returns (ok: bool, ghost body: seq<Record>)
    requires Sending(out, data)
    modifies out, out.outBuf, out.conn`sent, out.conn`patience, out.conn`faults
    ensures out.conn.faults == old(out.conn.faults) + (if ok then 0 else 1) && (out.conn.reliable ==> ok)
    ensures ok ==> Carries(body, old(out.id), data) && out.conn.sent == old(out.start) + EncodeAll(body)
  {
    ok := out.Drain();
    body := out.records;
  }

  /** Writes of one type, in any pieces, and a flush: non-empty records that carry the pieces. */
  method SendBody(conn: Connection, id: nat, pieces: seq<Bytes>) returns (ok: bool, ghost body: seq<Record>)
    requires id < 0x10000
    modifies conn`sent, conn`patience, conn`faults
    ensures conn.faults == old(conn.faults) + (if ok then 0 else 1) && (conn.reliable ==> ok)
    ensures ok ==> Carries(body, id, Flat(pieces)) && conn.sent == old(conn.sent) + EncodeAll(body)
  {
    var out := new FcgiOutput.Output(conn, id);
    var i := 0;
    body := [];
    assert pieces[..0] == [];
    while i < |pieces|
      invariant 0 <= i <= |pieces| && fresh(out) && fresh(out.outBuf)
      invariant out.conn == conn && out.id == id && out.start == old(conn.sent)
      invariant Sending(out, Flat(pieces[..i])) && conn.faults == old(conn.faults)
    {
      TakeSnoc(pieces, i);
      FlatSnoc(pieces[..i], pieces[i]);
      ok := SendPiece(out, Flat(pieces[..i]), pieces[i]);
      if !ok {
        return;
      }
      i := i + 1;
    }
    assert pieces[..i] == pieces;
    ok, body := SendRest(out, Flat(pieces));
  }

  /** What SendBody sent, ended by an empty record, is read back unchanged by reads of any sizes, unless one fails. */
  method ReadBack(inp: Input, sizes: seq<nat>, ghost body: seq<Record>, ghost id: nat, ghost data: Bytes,
      ghost end: Record, ghost tail: Bytes)
    returns (got: Bytes)
    requires Carries(body, id, data) && IsEndOfBody(end)
    requires inp.State() == In(0, 0, Ahead(body, end, tail))
    modifies inp, inp.conn`patience, inp.conn`incoming, inp.conn`faults
    ensures inp.conn.reliable ==> inp.conn.faults == old(inp.conn.faults)
    ensures inp.conn.faults == old(inp.conn.faults) ==> got == data[..Min(Sum(sizes), |data|)]
  {
    StreamOfOneType(body, FCGI_STDIN, data);
    ghost var p := Place([], [], body);
    assert p.Unread() == data;
    got := ReadBody(inp, sizes, p, end, tail);
  }

  /** Reads of the given sizes, until one is short, from any place in a well-formed body. */
  method ReadBody(inp: Input, sizes: seq<nat>, ghost p: Place, ghost end: Record, ghost tail: Bytes)
    returns (got: Bytes)
    requires StandsAt(inp.State(), p, end, tail) && IsEndOfBody(end)
    modifies inp, inp.conn`patience, inp.conn`incoming, inp.conn`faults
    ensures inp.conn.reliable ==> inp.conn.faults == old(inp.conn.faults)
    ensures inp.conn.faults == old(inp.conn.faults) ==> got == Wanted(p, Sum(sizes))
  {
    got := [];
    var i := 0;
    ghost var q := p;
    assert sizes[0..] == sizes;
    while i < |sizes|
      invariant 0 <= i <= |sizes| && inp.conn.faults >= old(inp.conn.faults)
      invariant inp.conn.reliable ==> inp.conn.faults == old(inp.conn.faults)
      invariant inp.conn.faults == old(inp.conn.faults) ==> StandsAt(inp.State(), q, end, tail)
      invariant inp.conn.faults == old(inp.conn.faults) ==> got + Wanted(q, Sum(sizes[i..])) == Wanted(p, Sum(sizes))
    {
      ghost var m := Sum(sizes[i + 1..]);
      assert sizes[i..][1..] == sizes[i + 1..];
      var data := ReadFrom(inp, sizes[i], q, end, tail);
      WantedOn(q, sizes[i], m);
      if |data| < sizes[i] {
        return got + data;
      }
      if inp.conn.faults == old(inp.conn.faults) {
        Assoc(got, data, Wanted(q.Skip(sizes[i]), m));
        q := q.Skip(sizes[i]);
      }
      got, i := got + data, i + 1;
    }
  }

  lemma {:induction false} WantedOn(p: Place, n: nat, m: nat)
    ensures n <= |p.Unread()| ==> Wanted(p, n) + Wanted(p.Skip(n), m) == Wanted(p, n + m)
    ensures n > |p.Unread()| ==> Wanted(p, n) == Wanted(p, n + m)
  {
    if n <= |p.Unread()| {
      WantedSplit(p, n, m);
    }
  }

  /** One read through fcgi_read; the script sees nothing when it fails. */
  method ReadFrom(inp: Input, n: nat, ghost p: Place, ghost end: Record, ghost tail: Bytes) returns (data: Bytes)
    requires IsEndOfBody(end)
    modifies inp, inp.conn`patience, inp.conn`incoming, inp.conn`faults
    ensures inp.conn.faults >= old(inp.conn.faults)
    ensures inp.conn.reliable ==> inp.conn.faults == old(inp.conn.faults)
    ensures old(StandsAt(inp.State(), p, end, tail)) && inp.conn.faults == old(inp.conn.faults) ==>
      data == Wanted(p, n) && (|data| >= n ==> n <= |p.Unread()| && StandsAt(inp.State(), p.Skip(n), end, tail))
  {
    var str := new Byte[n];
    if StandsAt(inp.State(), p, end, tail) {
      ReadFramed(inp.State(), p, end, tail, n, []);
      assert [] + Wanted(p, n) == Wanted(p, n);
    }
    ghost var st := inp.State();
    var ret, seen := inp.Read(str, n);
    NeverMore(st.(incoming := seen), n, []);
    data := if ret < 0 then [] else str[..ret];
  }
}
