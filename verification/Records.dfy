/** FastCGI records (FastCGI Specification, section 3.3) and the byte streams they carry. */
module Records {
  import opened Basics

  const HEADER_SIZE := 8
  const MAX_LENGTH := 0xffff

  const FCGI_END_REQUEST: Byte := 3
  const FCGI_STDIN: Byte := 5
  const FCGI_GET_VALUES_RESULT: Byte := 10

  datatype Record = Record(
    version: Byte, kind: Byte, id: nat, reserved: Byte,
    content: seq<Byte>, padding: seq<Byte>)

  /** What the 16-bit and 8-bit header fields can hold. */
  predicate Representable(r: Record) {
    1 <= r.version && r.id < 0x10000 && |r.content| <= MAX_LENGTH && |r.padding| <= 255
  }

  /** `((len + 7) & ~7) - len`: the padding that rounds a content length up to a multiple of 8. */
  function Pad(len: nat): (p: nat)
    ensures p < 8
  {
    (len + 7) / 8 * 8 - len
  }

  function Header(version: Byte, kind: Byte, id: nat, len: nat, pad: Byte, reserved: Byte): (h: seq<Byte>)
    requires id < 0x10000 && len < 0x10000
    ensures |h| == HEADER_SIZE
  {
    [version, kind, id / 256, id % 256, len / 256, len % 256, pad, reserved]
  }

  function Encode(r: Record): (s: seq<Byte>)
    requires Representable(r)
    ensures |s| == HEADER_SIZE + |r.content| + |r.padding|
  {
    Header(r.version, r.kind, r.id, |r.content|, |r.padding|, r.reserved) + r.content + r.padding
  }

  predicate AllRepresentable(rs: seq<Record>) {
    forall i :: 0 <= i < |rs| ==> Representable(rs[i])
  }

  /** Records one after the other; the last one is split off so that appending is immediate. */
  function EncodeAll(rs: seq<Record>): seq<Byte>
    requires AllRepresentable(rs)
  {
    if rs == [] then [] else EncodeAll(rs[..|rs| - 1]) + Encode(rs[|rs| - 1])
  }

  /** The number in two header bytes, high byte first. */
  function Word(high: int, low: int): int {
    high * 256 + low
  }

  /** An independent reader of section 3.3: it takes whole records off the front until no byte is left. */
  function Parse(s: seq<Byte>): (r: Option<seq<Record>>)
  {
    if s == [] then Some([])
    else if |s| < HEADER_SIZE || s[0] < 1 then None
    else
      var len := Word(s[4], s[5]);
      var end := HEADER_SIZE + len + s[6];
      if |s| < end then None
      else
        match Parse(s[end..])
        case None => None
        case Some(rest) =>
          Some([Record(s[0], s[1], Word(s[2], s[3]), s[7],
                       s[HEADER_SIZE..HEADER_SIZE + len], s[HEADER_SIZE + len..end])] + rest)
  }

  lemma {:induction false} EncodeAllFront(r: Record, rs: seq<Record>)
    requires Representable(r) && AllRepresentable(rs)
    ensures AllRepresentable([r] + rs)
    ensures EncodeAll([r] + rs) == Encode(r) + EncodeAll(rs)
    decreases |rs|
  {
    var all := [r] + rs;
    if rs == [] {
      assert all == [r];
      assert EncodeAll(all[..0]) == [];
    } else {
      var front := rs[..|rs| - 1];
      EncodeAllFront(r, front);
      assert all[..|all| - 1] == [r] + front;
      Assoc(Encode(r), EncodeAll(front), Encode(rs[|rs| - 1]));
    }
  }

  lemma {:induction false} EncodeAllSnoc(rs: seq<Record>, r: Record)
    requires AllRepresentable(rs) && Representable(r)
    ensures AllRepresentable(rs + [r])
    ensures EncodeAll(rs + [r]) == EncodeAll(rs) + Encode(r)
  {
    var all := rs + [r];
    assert all[..|all| - 1] == rs;
  }

  lemma {:induction false} ParseOne(r: Record, rest: seq<Byte>)
    requires Representable(r)
    ensures Parse(Encode(r) + rest)
         == match Parse(rest)
            case None => None
            case Some(more) => Some([r] + more)
  {
    EncodedParts(r, rest);
    ParseParts(Encode(r) + rest, r, rest);
  }

  /** The record at the front of s, field by field. */
  predicate Begins(s: seq<Byte>, r: Record, rest: seq<Byte>) {
    var content := HEADER_SIZE + |r.content|;
    var end := content + |r.padding|;
    && |s| == end + |rest|
    && s[0] == r.version && s[1] == r.kind && Word(s[2], s[3]) == r.id && Word(s[4], s[5]) == |r.content|
    && s[6] == |r.padding| && s[7] == r.reserved
    && s[HEADER_SIZE..content] == r.content && s[content..end] == r.padding && s[end..] == rest
  }

  lemma {:induction false} EncodedParts(r: Record, rest: seq<Byte>)
    requires Representable(r)
    ensures Begins(Encode(r) + rest, r, rest)
  {
    var h := Header(r.version, r.kind, r.id, |r.content|, |r.padding|, r.reserved);
    var s := Encode(r) + rest;
    assert s[..HEADER_SIZE] == h;
    assert s[0] == h[0] && s[1] == h[1] && s[2] == h[2] && s[3] == h[3];
    assert s[4] == h[4] && s[5] == h[5] && s[6] == h[6] && s[7] == h[7];
  }

  lemma {:induction false} ParseParts(s: seq<Byte>, r: Record, rest: seq<Byte>)
    requires Begins(s, r, rest) && Representable(r)
    ensures Parse(s)
         == match Parse(rest)
            case None => None
            case Some(more) => Some([r] + more)
  {
  }

  /** Parsing a sequence of encoded records consumes every byte and gives the records back. */
  lemma {:induction false} ParseEncodeAll(rs: seq<Record>)
    requires AllRepresentable(rs)
    ensures Parse(EncodeAll(rs)) == Some(rs)
    decreases |rs|
  {
    if rs != [] {
      assert rs == [rs[0]] + rs[1..];
      EncodeAllFront(rs[0], rs[1..]);
      ParseEncodeAll(rs[1..]);
      ParseOne(rs[0], EncodeAll(rs[1..]));
    }
  }

  /** One record, byte by byte: version 1, type 6, id 258, two bytes of content and six of padding. */
  lemma {:induction false} RecordOnTheWire()
    ensures Encode(Record(1, 6, 258, 0, [104, 105], Zeros(6)))
      == [1, 6, 1, 2, 0, 2, 6, 0, 104, 105, 0, 0, 0, 0, 0, 0]
    ensures Parse([1, 6, 1, 2, 0, 2, 6, 0, 104, 105, 0, 0, 0, 0, 0, 0])
      == Some([Record(1, 6, 258, 0, [104, 105], Zeros(6))])
  {
    var r := Record(1, 6, 258, 0, [104, 105], Zeros(6));
    assert Zeros(6) == [0, 0, 0, 0, 0, 0];
    assert Encode(r) == [1, 6, 1, 2, 0, 2, 6, 0, 104, 105, 0, 0, 0, 0, 0, 0];
    ParseOne(r, []);
    assert Encode(r) + [] == Encode(r) && [r] + [] == [r];
  }

  // ---- The streams that records carry -----------------------------------------------------

  /** A run of bytes of one stream type. */
  datatype Chunk = Chunk(kind: Byte, data: seq<Byte>)

  /** A byte together with the stream it belongs to. */
  datatype Tagged = Tagged(kind: Byte, value: Byte)

  function Contents(rs: seq<Record>): (cs: seq<Chunk>)
    ensures |cs| == |rs|
    ensures forall i :: 0 <= i < |cs| ==> cs[i] == Chunk(rs[i].kind, rs[i].content)
  {
    seq(|rs|, i requires 0 <= i < |rs| => Chunk(rs[i].kind, rs[i].content))
  }

  function Tag(kind: Byte, data: seq<Byte>): (t: seq<Tagged>)
    ensures |t| == |data|
  {
    seq(|data|, i requires 0 <= i < |data| => Tagged(kind, data[i]))
  }

  function Stream(cs: seq<Chunk>): seq<Tagged>
  {
    if cs == [] then [] else Stream(cs[..|cs| - 1]) + Tag(cs[|cs| - 1].kind, cs[|cs| - 1].data)
  }

  /** Appends a chunk: an empty one is dropped, one of the same type is joined to its neighbour. */
  function Join(acc: seq<Chunk>, kind: Byte, data: seq<Byte>): seq<Chunk>
  {
    if data == [] then acc
    else if acc != [] && acc[|acc| - 1].kind == kind then
      acc[..|acc| - 1] + [Chunk(kind, acc[|acc| - 1].data + data)]
    else acc + [Chunk(kind, data)]
  }

  /** Empty chunks dropped and neighbours of one type joined. */
  function Joined(cs: seq<Chunk>): seq<Chunk>
  {
    if cs == [] then [] else Join(Joined(cs[..|cs| - 1]), cs[|cs| - 1].kind, cs[|cs| - 1].data)
  }

  /** The maximal runs of a tagged byte sequence. */
  function Runs(t: seq<Tagged>): seq<Chunk>
  {
    if t == [] then [] else Join(Runs(t[..|t| - 1]), t[|t| - 1].kind, [t[|t| - 1].value])
  }

  lemma {:induction false} JoinTwice(acc: seq<Chunk>, kind: Byte, a: seq<Byte>, b: seq<Byte>)
    ensures Join(Join(acc, kind, a), kind, b) == Join(acc, kind, a + b)
  {
    if a == [] {
      assert a + b == b;
    } else if b == [] {
      assert a + b == a;
    } else if acc != [] && acc[|acc| - 1].kind == kind {
      assert acc[|acc| - 1].data + a + b == acc[|acc| - 1].data + (a + b);
    }
  }

  lemma {:induction false} RunsSnoc(t: seq<Tagged>, x: Tagged)
    ensures Runs(t + [x]) == Join(Runs(t), x.kind, [x.value])
  {
    assert (t + [x])[..|t|] == t;
  }

  lemma {:induction false} RunsTagSnoc(t: seq<Tagged>, kind: Byte, front: seq<Byte>, last: Byte)
    ensures Runs(t + Tag(kind, front + [last])) == Join(Runs(t + Tag(kind, front)), kind, [last])
  {
    assert Tag(kind, front + [last]) == Tag(kind, front) + [Tagged(kind, last)];
    assert t + (Tag(kind, front) + [Tagged(kind, last)]) == t + Tag(kind, front) + [Tagged(kind, last)];
    RunsSnoc(t + Tag(kind, front), Tagged(kind, last));
  }

  lemma {:induction false} RunsJoin(t: seq<Tagged>, kind: Byte, data: seq<Byte>)
    ensures Runs(t + Tag(kind, data)) == Join(Runs(t), kind, data)
    decreases |data|
  {
    if data == [] {
      assert t + Tag(kind, data) == t;
    } else {
      var front, last := data[..|data| - 1], data[|data| - 1];
      assert data == front + [last];
      RunsTagSnoc(t, kind, front, last);
      RunsJoin(t, kind, front);
      JoinTwice(Runs(t), kind, front, [last]);
    }
  }

  /** Joined depends on the tagged stream only, so equal streams have equal joined chunks. */
  lemma {:induction false} JoinedIsRunsOfStream(cs: seq<Chunk>)
    ensures Joined(cs) == Runs(Stream(cs))
    decreases |cs|
  {
    if cs != [] {
      var c := cs[|cs| - 1];
      JoinedIsRunsOfStream(cs[..|cs| - 1]);
      RunsJoin(Stream(cs[..|cs| - 1]), c.kind, c.data);
    }
  }

  lemma {:induction false} StreamSnoc(cs: seq<Chunk>, c: Chunk)
    ensures Stream(cs + [c]) == Stream(cs) + Tag(c.kind, c.data)
  {
    var all := cs + [c];
    assert all[..|all| - 1] == cs;
  }

  lemma {:induction false} ContentsSnoc(rs: seq<Record>, r: Record)
    ensures Contents(rs + [r]) == Contents(rs) + [Chunk(r.kind, r.content)]
    ensures Stream(Contents(rs + [r])) == Stream(Contents(rs)) + Tag(r.kind, r.content)
  {
    assert Contents(rs + [r]) == Contents(rs) + [Chunk(r.kind, r.content)];
    StreamSnoc(Contents(rs), Chunk(r.kind, r.content));
  }

  lemma {:induction false} TagAppend(kind: Byte, a: seq<Byte>, b: seq<Byte>)
    ensures Tag(kind, a + b) == Tag(kind, a) + Tag(kind, b)
  {
  }
}
