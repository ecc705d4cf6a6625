/** What fcgi_read delivers does not depend on how the peer cuts the body into records. */
module FcgiFraming {
  import opened Basics
  import opened Records
  import opened FcgiInput
  import FcgiOutput

  /** Records of the standard input stream, none of them its end. */
  predicate StdinRecords(rs: seq<Record>) {
    forall i :: 0 <= i < |rs| ==> Representable(rs[i]) && rs[i].kind == FCGI_STDIN && rs[i].content != []
  }

  /** The empty record that ends the standard input stream; the reader does not expect padding on it. */
  predicate IsEndOfBody(r: Record) {
    Representable(r) && r.kind == FCGI_STDIN && r.content == [] && r.padding == []
  }

  /** A record of another type where one of the standard input stream is due. */
  predicate IsForeign(r: Record) {
    Representable(r) && r.kind != FCGI_STDIN
  }

  function Payload(rs: seq<Record>): seq<Byte> {
    if rs == [] then [] else rs[0].content + Payload(rs[1..])
  }

  /** The bytes of the records, of the end of the body, and of whatever comes then. */
  function Ahead(rs: seq<Record>, end: Record, tail: seq<Byte>): seq<Byte>
    requires AllRepresentable(rs) && Representable(end)
  {
    EncodeAll(rs) + (Encode(end) + tail)
  }

  /** Where the reader stands: the unread part of the current record, its padding, and the records behind it. */
  datatype Place = Place(current: seq<Byte>, padding: seq<Byte>, ahead: seq<Record>) {
    function Unread(): seq<Byte> {
      current + Payload(ahead)
    }

    /** The place after n more bytes of payload. The next header is read only when a byte behind it is wanted. */
    function Skip(n: nat): Place
      requires n <= |Unread()|
      decreases |ahead|
    {
      if n < |current| || n == 0 then Place(current[n..], padding, ahead)
      else if n == |current| then Place([], [], ahead)
      else Place(ahead[0].content, ahead[0].padding, ahead[1..]).Skip(n - |current|)
    }
  }

  /** The reader's state agrees with a place in a well-formed body that ends with `end`, or is cut off by it. */
  ghost predicate StandsAt(st: In, p: Place, end: Record, tail: seq<Byte>) {
    && StdinRecords(p.ahead) && AllRepresentable(p.ahead) && (IsEndOfBody(end) || IsForeign(end))
    && st.inLen == |p.current|
    && if p.current == [] then st.incoming == Ahead(p.ahead, end, tail)
       else st.inPad == |p.padding| && st.incoming == p.current + (p.padding + Ahead(p.ahead, end, tail))
  }

  lemma {:induction false} SkipPayload(p: Place, n: nat)
    requires n <= |p.Unread()|
    ensures p.Skip(n).Unread() == p.Unread()[n..]
    decreases |p.ahead|
  {
    if n < |p.current| || n == 0 {
      assert p.current[n..] + Payload(p.ahead) == p.Unread()[n..];
    } else if n == |p.current| {
      assert [] + Payload(p.ahead) == p.Unread()[n..];
    } else {
      var p' := Place(p.ahead[0].content, p.ahead[0].padding, p.ahead[1..]);
      SkipPayload(p', n - |p.current|);
      assert p'.Unread() == Payload(p.ahead) == p.Unread()[|p.current|..];
    }
  }

  lemma {:induction false} AheadFront(r: Record, rs: seq<Record>, end: Record, tail: seq<Byte>)
    requires Representable(r) && AllRepresentable(rs) && Representable(end)
    ensures AllRepresentable([r] + rs)
    ensures Ahead([r] + rs, end, tail)
      == Header(r.version, r.kind, r.id, |r.content|, |r.padding|, r.reserved)
        + (r.content + (r.padding + Ahead(rs, end, tail)))
  {
    EncodeAllFront(r, rs);
    var h := Header(r.version, r.kind, r.id, |r.content|, |r.padding|, r.reserved);
    Assoc(Encode(r), EncodeAll(rs), Encode(end) + tail);
    Assoc(h + r.content, r.padding, Ahead(rs, end, tail));
    Assoc(h, r.content, r.padding + Ahead(rs, end, tail));
  }

  /** A header at the front of what comes, taken apart. */
  lemma {:induction false} HeaderFront(r: Record, after: seq<Byte>)
    requires Representable(r)
    ensures var h := Header(r.version, r.kind, r.id, |r.content|, |r.padding|, r.reserved);
      (h + after)[..HEADER_SIZE] == h && (h + after)[HEADER_SIZE..] == after && Word(h[4], h[5]) == |r.content|
  {
  }

  /** A turn that begins with the header of r. */
  lemma {:induction false} TurnAtHeader(st: In, r: Record, after: seq<Byte>, rest: nat, n: nat)
    requires Representable(r) && r.kind == FCGI_STDIN && r.content != [] && st.inLen == 0 && rest > 0
    requires st.incoming == Header(r.version, r.kind, r.id, |r.content|, |r.padding|, r.reserved) + after
    ensures NextTurn(st, rest, n) == TakeContent(In(|r.content|, |r.padding|, after), rest, n)
  {
    HeaderFront(r, after);
  }

  /** With the current record used up, the next turn begins with the header of ahead[0]. */
  lemma {:induction false} NextRecord(st: In, p: Place, end: Record, tail: seq<Byte>, rest: nat, n: nat)
    requires StandsAt(st, p, end, tail) && p.current == [] && p.ahead != [] && rest > 0
    ensures var r := p.ahead[0];
      var st' := In(|r.content|, |r.padding|, r.content + (r.padding + Ahead(p.ahead[1..], end, tail)));
      && StandsAt(st', Place(r.content, r.padding, p.ahead[1..]), end, tail)
      && NextTurn(st, rest, n) == TakeContent(st', rest, n)
  {
    var r := p.ahead[0];
    assert p.ahead == [r] + p.ahead[1..];
    AheadFront(r, p.ahead[1..], end, tail);
    TurnAtHeader(st, r, r.content + (r.padding + Ahead(p.ahead[1..], end, tail)), rest, n);
  }

  lemma {:induction false} EndOfBody(st: In, p: Place, end: Record, tail: seq<Byte>, rest: nat, n: nat)
    requires StandsAt(st, p, end, tail) && IsEndOfBody(end) && p.current == [] && p.ahead == [] && rest > 0
    ensures NextTurn(st, rest, n) == Stop([], In(0, 0, tail), n, false)
  {
    EndFront(end, tail);
    assert st.incoming == Encode(end) + tail;
  }

  lemma {:induction false} ForeignEnd(st: In, p: Place, end: Record, tail: seq<Byte>, rest: nat, n: nat)
    requires StandsAt(st, p, end, tail) && IsForeign(end) && p.current == [] && p.ahead == [] && rest > 0
    ensures NextTurn(st, rest, n) == Stop([], In(0, st.inPad, end.content + (end.padding + tail)), 0, true)
  {
    var h := Header(end.version, end.kind, end.id, |end.content|, |end.padding|, end.reserved);
    Assoc(h + end.content, end.padding, tail);
    Assoc(h, end.content, end.padding + tail);
    Behind(h, end.content + (end.padding + tail), HEADER_SIZE);
    assert h[..HEADER_SIZE] == h;
  }

  lemma {:induction false} EndFront(end: Record, tail: seq<Byte>)
    requires IsEndOfBody(end)
    ensures var s := Encode(end) + tail;
      IsStdinHeader(s[..HEADER_SIZE]) && Word(s[4], s[5]) == 0 && s[6] == 0 && s[HEADER_SIZE..] == tail
  {
    var h := Encode(end);
    assert h == Header(end.version, end.kind, end.id, 0, 0, end.reserved);
    Behind(h, tail, HEADER_SIZE);
    assert h[..HEADER_SIZE] == h;
    assert (h + tail)[4] == h[4] == 0 && (h + tail)[5] == h[5] == 0 && (h + tail)[6] == h[6] == 0;
  }

  /** What one turn takes from the current record: a part of it, */
  lemma {:induction false} TakePart(st: In, p: Place, end: Record, tail: seq<Byte>, rest: nat, n: nat)
    requires StandsAt(st, p, end, tail) && 0 < rest < |p.current|
    ensures var st' := In(|p.current| - rest, st.inPad, p.current[rest..] + (p.padding + Ahead(p.ahead, end, tail)));
      TakeContent(st, rest, n) == Stop(p.current[..rest], st', n + rest, false)
  {
    var after := p.padding + Ahead(p.ahead, end, tail);
    assert st.incoming[..rest] == p.current[..rest];
    assert st.incoming[rest..] == p.current[rest..] + after;
  }

  /** or all of it, and the padding behind it. */
  lemma {:induction false} TakeAll(st: In, p: Place, end: Record, tail: seq<Byte>, rest: nat, n: nat) returns (next: In)
    requires StandsAt(st, p, end, tail) && p.current != [] && rest >= |p.current|
    ensures next == In(0, st.inPad, Ahead(p.ahead, end, tail)) && TakeContent(st, rest, n) == Go(p.current, next)
  {
    next := In(0, st.inPad, Ahead(p.ahead, end, tail));
    var after := p.padding + Ahead(p.ahead, end, tail);
    assert st.incoming[..|p.current|] == p.current;
    assert st.incoming[|p.current|..] == after;
    assert after[|p.padding|..] == Ahead(p.ahead, end, tail);
  }

  /**
   * A stream that ends early. Inside the content: what is there is delivered. Inside the padding: it is delivered too,
   * but the result counts only this record's bytes, and keep-alive is given up. Inside a header or in front of one:
   * the result is 0.
   */
  lemma {:induction false} CutOff(content: seq<Byte>, pad: nat, part: seq<Byte>, rest: nat, got: seq<Byte>)
    requires rest > 0
    ensures content != [] && |part| < |content| && |part| < rest && part <= content ==>
      ReadOn(In(|content|, pad, part), rest, got)
        == ReadResult(|got| + |part|, got + part, In(|content| - |part|, pad, []), false)
    ensures content != [] && |content| <= rest && |part| < pad ==>
      ReadOn(In(|content|, pad, content + part), rest, got)
        == ReadResult(|content|, got + content, In(0, pad, []), true)
    ensures content != [] && |content| <= rest && |part| == pad ==>
      ReadOn(In(|content|, pad, content + part), rest, got)
        == if rest == |content| then ReadResult(|got| + rest, got + content, In(0, pad, []), false)
           else ReadResult(0, got + content + [], In(0, pad, []), true)
    ensures |part| < 8 ==>
      ReadOn(In(0, pad, part), rest, got) == ReadResult(0, got + [], In(0, pad, []), true)
  {
    if content != [] && |part| < |content| && |part| < rest && part <= content {
      CutContent(content, pad, part, rest, got);
    }
    if content != [] && |content| <= rest && |part| < pad {
      CutPadding(content, pad, part, rest, got);
    }
    if content != [] && |content| <= rest && |part| == pad {
      CutBehind(content, pad, part, rest, got);
    }
    if |part| < 8 {
      assert part[..|part|] == part && part[|part|..] == [];
      ReadStop(In(0, pad, part), rest, got, [], In(0, pad, []), 0, true);
    }
  }

  /** A header of an unknown version or of another type: the read returns 0 and gives up keep-alive. */
  lemma {:induction false} HeaderRefused(pad: nat, header: seq<Byte>, tail: seq<Byte>, rest: nat, got: seq<Byte>)
    requires rest > 0 && |header| == 8 && (header[0] == 0 || header[1] != 5)
    ensures ReadOn(In(0, pad, header + tail), rest, got) == ReadResult(0, got + [], In(0, pad, tail), true)
  {
    Behind(header, tail, 8);
    assert header[..8] == header;
    ReadStop(In(0, pad, header + tail), rest, got, [], In(0, pad, tail), 0, true);
  }

  lemma {:induction false} CutBehind(content: seq<Byte>, pad: nat, part: seq<Byte>, rest: nat, got: seq<Byte>)
    requires content != [] && |content| <= rest && |part| == pad
    ensures ReadOn(In(|content|, pad, content + part), rest, got)
      == if rest == |content| then ReadResult(|got| + rest, got + content, In(0, pad, []), false)
         else ReadResult(0, got + content + [], In(0, pad, []), true)
  {
    var s := content + part;
    assert s[..|content|] == content && s[|content|..] == part && part[pad..] == [];
    ReadGo(In(|content|, pad, s), rest, got, content, In(0, pad, []));
    if rest > |content| {
      ReadStop(In(0, pad, []), rest - |content|, got + content, [], In(0, pad, []), 0, true);
    }
  }

  lemma {:induction false} CutContent(content: seq<Byte>, pad: nat, part: seq<Byte>, rest: nat, got: seq<Byte>)
    requires |part| < |content| && |part| < rest
    ensures ReadOn(In(|content|, pad, part), rest, got)
      == ReadResult(|got| + |part|, got + part, In(|content| - |part|, pad, []), false)
  {
    assert part[..|part|] == part && part[|part|..] == [];
    ReadStop(In(|content|, pad, part), rest, got, part, In(|content| - |part|, pad, []), |got| + |part|, false);
  }

  lemma {:induction false} CutPadding(content: seq<Byte>, pad: nat, part: seq<Byte>, rest: nat, got: seq<Byte>)
    requires content != [] && |content| <= rest && |part| < pad
    ensures ReadOn(In(|content|, pad, content + part), rest, got)
      == ReadResult(|content|, got + content, In(0, pad, []), true)
  {
    var s := content + part;
    assert s[..|content|] == content && s[|content|..] == part;
    ReadStop(In(|content|, pad, s), rest, got, content, In(0, pad, []), |content|, true);
  }

  /** One body, byte by byte: two bytes with six of padding, and the record that ends it. */
  lemma {:induction false} BodyOnTheWire(record: seq<Byte>, end: seq<Byte>, rest: seq<Byte>)
    requires record == [1, 5, 0, 7, 0, 2, 6, 0, 104, 105, 0, 0, 0, 0, 0, 0] && end == [1, 5, 0, 7, 0, 0, 0, 0]
    ensures ReadOn(In(0, 0, record + (end + rest)), 3, []) == ReadResult(2, [104, 105], In(0, 0, rest), false)
  {
    var r, e := Record(1, 5, 7, 0, [104, 105], [0, 0, 0, 0, 0, 0]), Record(1, 5, 7, 0, [], []);
    assert Encode(r) == record && Encode(e) == end;
    EncodeAllFront(r, []);
    assert [r] + [] == [r] && EncodeAll([r]) == record;
    var p := Place([], [], [r]);
    assert Payload(p.ahead[1..]) == [] && Payload(p.ahead) == r.content + [] == r.content;
    assert p.Unread() == [] + r.content == r.content;
    ReadFramed(In(0, 0, record + (end + rest)), p, e, rest, 3, []);
  }

  /** The next `rest` bytes of payload, or all that are left. */
  function Wanted(p: Place, rest: nat): seq<Byte> {
    p.Unread()[..Min(rest, |p.Unread()|)]
  }

  /**
   * A read of any size delivers the next payload bytes, however the peer cut them into records; it
   * stands then where those bytes end, so in_len is what is unread of the current record. Only a
   * read past the end is short, and it leaves what follows the body untouched; past a record of another type it
   * returns 0, whatever it has stored, and gives up keep-alive.
   */
  ghost predicate Delivers(res: ReadResult, p: Place, end: Record, tail: seq<Byte>, rest: nat, got: seq<Byte>) {
    && res.got == got + Wanted(p, rest)
    && (rest <= |p.Unread()| || IsEndOfBody(end) ==> !res.broken && res.ret == |res.got|)
    && (rest <= |p.Unread()| ==> StandsAt(res.next, p.Skip(rest), end, tail))
    && (rest > |p.Unread()| && IsEndOfBody(end) ==> res.next == In(0, 0, tail))
    && (rest > |p.Unread()| && IsForeign(end) ==>
      res.broken && res.ret == 0 && res.next.inLen == 0 && res.next.incoming == end.content + (end.padding + tail))
  }

  lemma {:induction false} ReadFramed(st: In, p: Place, end: Record, tail: seq<Byte>, rest: nat, got: seq<Byte>)
    requires StandsAt(st, p, end, tail)
    ensures Delivers(ReadOn(st, rest, got), p, end, tail, rest, got)
  {
    if p.current == [] {
      ReadBehind(st, p, end, tail, rest, got);
    } else if rest == 0 {
      assert p.Skip(0) == Place(p.current[0..], p.padding, p.ahead) == p;
      assert got + Wanted(p, 0) == got;
    } else {
      ReadCurrent(ReadOn(st, rest, got), st, st, p, end, tail, rest, got);
    }
  }

  /** The read begins with the header of ahead[0]. */
  lemma {:induction false} ReadNext(st: In, p: Place, end: Record, tail: seq<Byte>, rest: nat, got: seq<Byte>)
    requires StandsAt(st, p, end, tail) && p.current == [] && p.ahead != [] && rest > 0
    ensures Delivers(ReadOn(st, rest, got), p, end, tail, rest, got)
    decreases |p.ahead|, 0
  {
    NextRecord(st, p, end, tail, rest, |got|);
    var r := p.ahead[0];
    var p' := Place(r.content, r.padding, p.ahead[1..]);
    var st' := In(|r.content|, |r.padding|, r.content + (r.padding + Ahead(p.ahead[1..], end, tail)));
    var res := ReadOn(st, rest, got);
    ReadCurrent(res, st, st', p', end, tail, rest, got);
    DeliversHeader(res, p, p', end, tail, rest, got);
  }

  lemma {:induction false} DeliversHeader(res: ReadResult, p: Place, p': Place, end: Record, tail: seq<Byte>,
      rest: nat, got: seq<Byte>)
    requires p.current == [] && p.ahead != [] && rest > 0
    requires p' == Place(p.ahead[0].content, p.ahead[0].padding, p.ahead[1..])
    requires Delivers(res, p', end, tail, rest, got)
    ensures Delivers(res, p, end, tail, rest, got)
  {
    assert p'.Unread() == p.Unread();
  }

  lemma {:induction false} StandsBehind(st: In, p: Place, end: Record, tail: seq<Byte>)
    requires StandsAt(st, p, end, tail)
    ensures StandsAt(In(0, st.inPad, Ahead(p.ahead, end, tail)), Place([], [], p.ahead), end, tail)
  {
  }

  /** The read goes on behind the current record. */
  lemma {:induction false} ReadAfter(res: ReadResult, st: In, p: Place, end: Record, tail: seq<Byte>, rest: nat,
      got: seq<Byte>)
    requires StandsAt(st, p, end, tail)
    requires res == Result(In(0, st.inPad, Ahead(p.ahead, end, tail)), rest, got)
    ensures Delivers(res, Place([], [], p.ahead), end, tail, rest, got)
    decreases |p.ahead|, 2
  {
    StandsBehind(st, p, end, tail);
    ReadBehind(In(0, st.inPad, Ahead(p.ahead, end, tail)), Place([], [], p.ahead), end, tail, rest, got);
  }

  /** The read ends inside the current record. */
  lemma {:induction false} ReadInside(st: In, st': In, p: Place, end: Record, tail: seq<Byte>, rest: nat,
      got: seq<Byte>)
    requires StandsAt(st', p, end, tail) && 0 < rest < |p.current|
    requires NextTurn(st, rest, |got|) == TakeContent(st', rest, |got|)
    ensures Delivers(ReadOn(st, rest, got), p, end, tail, rest, got)
  {
    TakePart(st', p, end, tail, rest, |got|);
    var next := In(|p.current| - rest, st'.inPad, p.current[rest..] + (p.padding + Ahead(p.ahead, end, tail)));
    ReadStop(st, rest, got, p.current[..rest], next, |got| + rest, false);
    assert Wanted(p, rest) == p.current[..rest];
  }

  function Result(st: In, rest: nat, got: seq<Byte>): ReadResult {
    ReadOn(st, rest, got)
  }

  /** The read begins in the current record of p, whether its header is behind the reader (st' == st) or not. */
  lemma {:induction false} ReadCurrent(res: ReadResult, st: In, st': In, p: Place, end: Record, tail: seq<Byte>,
      rest: nat, got: seq<Byte>)
    requires StandsAt(st', p, end, tail) && p.current != [] && rest > 0
    requires NextTurn(st, rest, |got|) == TakeContent(st', rest, |got|) && res == Result(st, rest, got)
    ensures Delivers(res, p, end, tail, rest, got)
    decreases |p.ahead|, 4
  {
    if rest < |p.current| {
      ReadInside(st, st', p, end, tail, rest, got);
    } else {
      var next := TakeAll(st', p, end, tail, rest, |got|);
      GoneOn(res, st, rest, got, p.current, next);
      ReadOver(res, st', next, p, end, tail, rest, got);
    }
  }

  lemma {:induction false} ReadOver(res: ReadResult, st: In, next: In, p: Place, end: Record, tail: seq<Byte>,
      rest: nat, got: seq<Byte>)
    requires StandsAt(st, p, end, tail) && p.current != [] && rest >= |p.current|
    requires next == In(0, st.inPad, Ahead(p.ahead, end, tail))
    requires res == Result(next, rest - |p.current|, got + p.current)
    ensures Delivers(res, p, end, tail, rest, got)
    decreases |p.ahead|, 3
  {
    ReadAfter(res, st, p, end, tail, rest - |p.current|, got + p.current);
    DeliversBehind(res, p, Place([], [], p.ahead), end, tail, rest, got);
  }

  lemma {:induction false} GoneOn(res: ReadResult, st: In, rest: nat, got: seq<Byte>, data: seq<Byte>, next: In)
    requires rest > 0 && NextTurn(st, rest, |got|) == Go(data, next) && res == Result(st, rest, got)
    ensures |data| <= rest && res == Result(next, rest - |data|, got + data)
  {
    ReadGo(st, rest, got, data, next);
  }

  lemma {:induction false} ReadBehind(st: In, p: Place, end: Record, tail: seq<Byte>, rest: nat, got: seq<Byte>)
    requires StandsAt(st, p, end, tail) && p.current == []
    ensures Delivers(ReadOn(st, rest, got), p, end, tail, rest, got)
    decreases |p.ahead|, 1
  {
    if rest == 0 {
      assert p.Skip(0) == Place(p.current[0..], p.padding, p.ahead) == p;
      assert got + Wanted(p, 0) == got;
    } else if p.ahead == [] && IsForeign(end) {
      ForeignEnd(st, p, end, tail, rest, |got|);
      ReadStop(st, rest, got, [], In(0, st.inPad, end.content + (end.padding + tail)), 0, true);
      assert p.Unread() == [];
    } else if p.ahead == [] {
      EndOfBody(st, p, end, tail, rest, |got|);
      ReadStop(st, rest, got, [], In(0, 0, tail), |got|, false);
      assert p.Unread() == [];
    } else {
      ReadNext(st, p, end, tail, rest, got);
    }
  }

  lemma {:induction false} DeliversBehind(res: ReadResult, p: Place, p': Place, end: Record, tail: seq<Byte>,
      rest: nat, got: seq<Byte>)
    requires p.current != [] && |p.current| <= rest && p' == Place([], [], p.ahead)
    requires Delivers(res, p', end, tail, rest - |p.current|, got + p.current)
    ensures Delivers(res, p, end, tail, rest, got)
  {
    assert p'.Unread() == Payload(p.ahead);
    assert Wanted(p, rest) == p.current + Wanted(p', rest - |p.current|);
    Assoc(got, p.current, Wanted(p', rest - |p.current|));
    if rest <= |p.Unread()| {
      assert p.Skip(rest) == p'.Skip(rest - |p.current|);
    }
  }

  // ---- Whole bodies ------------------------------------------------------------------------

  /** Reads of the given sizes, one after the other, until one is short. */
  function ReadMany(st: In, sizes: seq<nat>): seq<Byte>
    decreases |sizes|
  {
    if sizes == [] then []
    else
      var res := ReadOn(st, sizes[0], []);
      if res.ret < sizes[0] then res.got else res.got + ReadMany(res.next, sizes[1..])
  }

  function Sum(sizes: seq<nat>): nat {
    if sizes == [] then 0 else sizes[0] + Sum(sizes[1..])
  }

  /** The concatenated results of any reads are the first bytes of the body. */
  lemma {:induction false} ReadManyFramed(st: In, p: Place, end: Record, tail: seq<Byte>, sizes: seq<nat>)
    requires StandsAt(st, p, end, tail)
    ensures ReadMany(st, sizes) == Wanted(p, Sum(sizes))
    decreases |sizes|
  {
    if sizes != [] {
      var n := sizes[0];
      var res := ReadOn(st, n, []);
      ReadFramed(st, p, end, tail, n, []);
      assert [] + Wanted(p, n) == Wanted(p, n);
      if n <= |p.Unread()| {
        ReadManyFramed(res.next, p.Skip(n), end, tail, sizes[1..]);
        WantedSplit(p, n, Sum(sizes[1..]));
      }
    }
  }

  lemma {:induction false} WantedSplit(p: Place, n: nat, m: nat)
    requires n <= |p.Unread()|
    ensures Wanted(p, n) + Wanted(p.Skip(n), m) == Wanted(p, n + m)
  {
    SkipPayload(p, n);
    var all := p.Unread();
    assert all[..n] + all[n..][..Min(m, |all| - n)] == all[..n + Min(m, |all| - n)];
  }

  lemma {:induction false} StreamOfOneType(rs: seq<Record>, kind: Byte, data: seq<Byte>)
    requires Stream(Contents(rs)) == Tag(kind, data) && FcgiOutput.Empties(rs) == 0
    ensures forall i :: 0 <= i < |rs| ==> rs[i].kind == kind && rs[i].content != []
    ensures Payload(rs) == data
    decreases |rs|
  {
    if rs == [] {
      assert |data| == 0;
    } else {
      var front, last := rs[..|rs| - 1], rs[|rs| - 1];
      assert rs == front + [last];
      var cut := StreamCut(front, last, kind, data);
      StreamOfOneType(front, kind, data[..cut]);
      PayloadSnoc(front, last);
    }
  }

  lemma {:induction false} StreamCut(front: seq<Record>, last: Record, kind: Byte, data: seq<Byte>) returns (cut: nat)
    requires Stream(Contents(front + [last])) == Tag(kind, data) && last.content != []
    ensures cut <= |data| && Stream(Contents(front)) == Tag(kind, data[..cut])
    ensures last.kind == kind && data[..cut] + last.content == data
  {
    ContentsSnoc(front, last);
    var s := Stream(Contents(front));
    TagCut(kind, data, s, last.kind, last.content);
    cut := |s|;
  }

  /** The end of a stream of one type that came from one record. */
  lemma {:induction false} TagCut(kind: Byte, data: seq<Byte>, s: seq<Tagged>, last: Byte, content: seq<Byte>)
    requires s + Tag(last, content) == Tag(kind, data) && content != []
    ensures |s| <= |data| && last == kind && content == data[|s|..] && s == Tag(kind, data[..|s|])
  {
    var all, n := Tag(kind, data), |s|;
    forall i | 0 <= i < |content| ensures Tagged(last, content[i]) == Tagged(kind, data[n + i]) {
      assert (s + Tag(last, content))[n + i] == all[n + i];
    }
    assert Tagged(last, content[0]) == Tagged(kind, data[n]);
    assert forall i :: 0 <= i < n ==> s[i] == all[i];
  }

  lemma {:induction false} PayloadSnoc(rs: seq<Record>, r: Record)
    ensures Payload(rs + [r]) == Payload(rs) + r.content
    decreases |rs|
  {
    if rs == [] {
      assert (rs + [r])[1..] == [];
    } else {
      assert (rs + [r])[1..] == rs[1..] + [r];
      PayloadSnoc(rs[1..], r);
    }
  }

  /**
   * What the writer sends as one stream, flushed and framed as standard input, is read back
   * unchanged, whatever the sizes of the reads.
   */
  lemma {:induction false} WrittenReadsBack(body: seq<Record>, id: nat, data: seq<Byte>, end: Record, tail: seq<Byte>,
      sizes: seq<nat>)
    requires FcgiOutput.AllMade(body, id) && FcgiOutput.Empties(body) == 0
    requires Stream(Contents(body)) == Tag(FCGI_STDIN, data)
    requires IsEndOfBody(end)
    ensures ReadMany(In(0, 0, EncodeAll(body) + (Encode(end) + tail)), sizes) == data[..Min(Sum(sizes), |data|)]
  {
    StreamOfOneType(body, FCGI_STDIN, data);
    var p := Place([], [], body);
    assert p.Unread() == data;
    ReadManyFramed(In(0, 0, Ahead(body, end, tail)), p, end, tail, sizes);
  }
}
