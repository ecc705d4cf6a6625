/** The FastCGI response writer: cgi/fastcgi.c, fcgi_make_header to fcgi_write. */
module FcgiOutput {
  import opened Basics
  import opened Records
  import opened Transport

  const BUF_SIZE := 8192   // sizeof(out_buf)
  const RESERVED := 16     // sizeof(fcgi_end_request_rec)
  const NO_PACKET := -1    // out_hdr == NULL
  const DIRECT_SIZE := 0xfff8

  /** The record that the writer makes of one packet. */
  function Made(id: nat, kind: Byte, content: seq<Byte>): (r: Record)
    ensures id < 0x10000 && |content| <= MAX_LENGTH ==> Representable(r)
  {
    Record(1, kind, id, 0, content, Zeros(Pad(|content|)))
  }

  /** Every record of the writer is a multiple of 8 bytes long. */
  lemma {:induction false} MadeSize(id: nat, kind: Byte, content: seq<Byte>)
    requires id < 0x10000 && |content| <= MAX_LENGTH
    ensures |Encode(Made(id, kind, content))| % 8 == 0
  {
    assert |Encode(Made(id, kind, content))| == 8 * (1 + (|content| + 7) / 8);
  }

  /**
   * Section 5.5: application status 0, FCGI_REQUEST_COMPLETE; the three reserved bytes are whatever the buffer held.
   */
  predicate IsEndRequest(r: Record, id: nat) {
    && |r.content| == 8
    && r == Made(id, FCGI_END_REQUEST, r.content)
    && r.content[..5] == [0, 0, 0, 0, 0]
  }

  /** The end of a response, byte by byte. */
  lemma {:induction false} EndOnTheWire(r: Record, id: nat)
    requires id < 0x10000 && IsEndRequest(r, id)
    ensures |Encode(r)| == 16 && Encode(r)[..13] == [1, 3, id / 256, id % 256, 0, 8, 0, 0, 0, 0, 0, 0, 0]
  {
    var h := Header(1, 3, id, 8, 0, 0);
    assert Encode(r) == h + r.content;
    assert Encode(r)[..13] == h + r.content[..5];
    assert h == [1, 3, id / 256, id % 256, 0, 8, 0, 0];
  }

  predicate AllMade(rs: seq<Record>, id: nat) {
    && id < 0x10000
    && forall i :: 0 <= i < |rs| ==> |rs[i].content| <= MAX_LENGTH && rs[i] == Made(id, rs[i].kind, rs[i].content)
  }

  /** How many records carry no content. */
  function Empties(rs: seq<Record>): nat
  {
    if rs == [] then 0
    else Empties(rs[..|rs| - 1]) + (if rs[|rs| - 1].content == [] then 1 else 0)
  }

  /** `image` is the encoding of the records, `body` the streams they carry, `empties` how many are empty. */
  ghost predicate Recorded(records: seq<Record>, id: nat, image: seq<Byte>, body: seq<Tagged>, empties: nat)
  {
    && AllMade(records, id)
    && image == EncodeAll(records)
    && body == Stream(Contents(records))
    && empties == Empties(records)
  }

  /** Records of the given streams and one END_REQUEST, and what the wire has gained by them. */
  ghost predicate Complete(records: seq<Record>, id: nat, written: seq<Tagged>, empties: nat, start: seq<Byte>,
      sent: seq<Byte>)
  {
    && |records| > 0 && AllMade(records, id) && IsEndRequest(records[|records| - 1], id)
    && Stream(Contents(records[..|records| - 1])) == written
    && empties == Empties(records[..|records| - 1])
    && sent == start + EncodeAll(records)
  }

  lemma {:induction false} EndCompletes(records: seq<Record>, end: Record, id: nat, written: seq<Tagged>, empties: nat,
      start: seq<Byte>, sent: seq<Byte>)
    requires AllMade(records + [end], id) && IsEndRequest(end, id)
    requires Stream(Contents(records)) == written && empties == Empties(records)
    requires sent == start + EncodeAll(records + [end])
    ensures Complete(records + [end], id, written, empties, start, sent)
  {
    assert (records + [end])[..|records|] == records;
  }

  lemma {:induction false} RecordedSnoc(records: seq<Record>, id: nat, image: seq<Byte>, body: seq<Tagged>,
      empties: nat, r: Record)
    requires Recorded(records, id, image, body, empties)
    requires |r.content| <= MAX_LENGTH && r == Made(id, r.kind, r.content)
    ensures Recorded(records + [r], id, image + Encode(r), body + Tag(r.kind, r.content),
                     empties + (if r.content == [] then 1 else 0))
  {
    EncodeAllSnoc(records, r);
    ContentsSnoc(records, r);
    EmptiesSnoc(records, r);
  }

  lemma {:induction false} EmptiesSnoc(records: seq<Record>, r: Record)
    ensures Empties(records + [r]) == Empties(records) + (if r.content == [] then 1 else 0)
  {
    assert (records + [r])[..|records|] == records;
  }

  /** What the last branch of the writer holds back is what does not fill a multiple of 8. */
  lemma {:induction false} TailCut(n: nat)
    requires n >= HEADER_SIZE
    ensures var rest := if Pad(n) > 0 then 8 - Pad(n) else 0;
      rest < 8 && Pad(n - rest) == 0 && 0 < n - rest
  {
  }

  /** Writing `s` piece by piece: the first i bytes, then the bytes up to j. */
  lemma {:induction false} TagNext(before: seq<Tagged>, kind: Byte, s: seq<Byte>, i: nat, j: nat)
    requires i <= j <= |s|
    ensures before + Tag(kind, s[..i]) + Tag(kind, s[i..j]) == before + Tag(kind, s[..j])
  {
    assert s[..i] + s[i..j] == s[..j];
    TagAppend(kind, s[..i], s[i..j]);
    Assoc(before, Tag(kind, s[..i]), Tag(kind, s[i..j]));
  }

  lemma {:induction false} TagGrown(before: seq<Tagged>, was: seq<Tagged>, kind: Byte, s: seq<Byte>, i: nat,
      data: seq<Byte>, all: seq<Tagged>)
    requires i + |data| <= |s| && data == s[i..i + |data|]
    requires was == before + Tag(kind, s[..i]) && all == before + Tag(kind, s[..i + |data|])
    ensures was + Tag(kind, data) == all
  {
    TagNext(before, kind, s, i, i + |data|);
  }

  /** Bytes copied behind others. */
  lemma {:induction false} CopiedBehind(was: seq<Byte>, now: seq<Byte>, from: nat, at: nat, data: seq<Byte>)
    requires |was| == |now| && from <= at && at + |data| <= |now|
    requires forall i :: 0 <= i < at ==> now[i] == was[i]
    requires forall i :: 0 <= i < |data| ==> now[at + i] == data[i]
    ensures now[from..at + |data|] == was[from..at] + data
    ensures forall i :: 0 <= i <= from ==> now[..i] == was[..i]
  {
  }

  /** A header sent behind the buffer and a content sent behind the header. */
  lemma {:induction false} DirectSync(sent: seq<Byte>, base: seq<Byte>, header: seq<Byte>, content: seq<Byte>,
                   start: seq<Byte>, image: seq<Byte>)
    requires sent + base == start + image
    ensures sent + (base + header) + content == start + (image + (header + content))
  {
    Assoc(base, header, content);
    Assoc(sent, base + header, content);
    Assoc(sent, base, header + content);
    Assoc(start, image, header + content);
  }

  /** A header, a content and its padding side by side in the buffer are an encoded record. */
  lemma {:induction false} MadeInBuffer(buf: seq<Byte>, at: nat, id: nat, kind: Byte, content: seq<Byte>)
    requires id < 0x10000 && |content| <= MAX_LENGTH
    requires at + HEADER_SIZE + |content| + Pad(|content|) <= |buf|
    requires buf[at..at + HEADER_SIZE] == Header(1, kind, id, |content|, Pad(|content|), 0)
    requires buf[at + HEADER_SIZE..at + HEADER_SIZE + |content|] == content
    requires forall i :: at + HEADER_SIZE + |content| <= i < at + HEADER_SIZE + |content| + Pad(|content|) ==>
      buf[i] == 0
    ensures buf[..at + HEADER_SIZE + |content| + Pad(|content|)] == buf[..at] + Encode(Made(id, kind, content))
  {
    var body, end := at + HEADER_SIZE, at + HEADER_SIZE + |content|;
    var stop := end + Pad(|content|);
    assert buf[end..stop] == Zeros(Pad(|content|));
    assert buf[..stop] == buf[..at] + buf[at..body] + buf[body..end] + buf[end..stop];
  }

  /** A packet that begins at a multiple of 8 ends, with its padding, at the next one. */
  lemma {:induction false} PacketEnd(units: nat, len: nat)
    ensures var end := 8 * units + HEADER_SIZE + len + Pad(len);
      end == 8 * (end / 8) && (end - Pad(len) <= BUF_SIZE + HEADER_SIZE ==> end <= BUF_SIZE + HEADER_SIZE)
  {
    assert 8 * units + HEADER_SIZE + len + Pad(len) == 8 * (units + 1 + (len + 7) / 8);
  }

  /** What the wire says after a response began: its bytes read as records of section 3.3. */
  ghost function Received(start: seq<Byte>, sent: seq<Byte>): Option<seq<Record>>
    requires start <= sent
  {
    Parse(sent[|start|..])
  }

  lemma {:induction false} ReceivedRecords(start: seq<Byte>, sent: seq<Byte>, records: seq<Record>)
    requires AllRepresentable(records) && sent == start + EncodeAll(records)
    ensures Received(start, sent) == Some(records)
  {
    ParseEncodeAll(records);
    assert sent[|start|..] == EncodeAll(records);
  }

  lemma {:induction false} EndInBuffer(buf: seq<Byte>, at: nat, id: nat, header: seq<Byte>) returns (end: Record)
    requires id < 0x10000 && at + HEADER_SIZE + 8 <= |buf|
    requires |header| == at + HEADER_SIZE && buf[..at + HEADER_SIZE] == header
    requires header[at..] == Header(1, FCGI_END_REQUEST, id, 8, 0, 0)
    requires forall i :: at + HEADER_SIZE <= i < at + HEADER_SIZE + 5 ==> buf[i] == 0
    ensures IsEndRequest(end, id)
    ensures buf[..at + HEADER_SIZE + 8] == header[..at] + Encode(end)
  {
    var content := buf[at + HEADER_SIZE..at + HEADER_SIZE + 8];
    end := Made(id, FCGI_END_REQUEST, content);
    assert buf[at..at + HEADER_SIZE] == header[at..];
    assert buf[..at] == header[..at];
    MadeInBuffer(buf, at, id, FCGI_END_REQUEST, content);
  }

  /** fcgi_make_header: a header at `at`, and zeros behind the content up to a multiple of 8. */
  method MakeHeader(buf: array<Byte>, at: nat, kind: Byte, id: nat, len: nat) returns (pad: nat)
    requires at + HEADER_SIZE <= buf.Length && len <= MAX_LENGTH && id < 0x10000
    requires Pad(len) > 0 ==> at + HEADER_SIZE + len + Pad(len) <= buf.Length
    modifies buf
    ensures pad == Pad(len)
    ensures buf[at..at + HEADER_SIZE] == Header(1, kind, id, len, pad, 0)
    ensures forall i :: at + HEADER_SIZE + len <= i < at + HEADER_SIZE + len + pad ==> buf[i] == 0
    ensures buf[..at] == old(buf[..at])
    ensures forall i :: at + HEADER_SIZE <= i < buf.Length && i < at + HEADER_SIZE + len ==> buf[i] == old(buf[i])
    ensures forall i :: at + HEADER_SIZE + len + pad <= i < buf.Length ==> buf[i] == old(buf[i])
  {
    pad := Pad(len);
    PutHeaderBytes(buf, at, kind, id, len, pad);
    if pad > 0 {
      forall i | at + HEADER_SIZE + len <= i < at + HEADER_SIZE + len + pad {
        buf[i] := 0;
      }
    }
  }

  method PutHeaderBytes(buf: array<Byte>, at: nat, kind: Byte, id: nat, len: nat, pad: Byte)
    requires at + HEADER_SIZE <= buf.Length && len <= MAX_LENGTH && id < 0x10000
    modifies buf
    ensures buf[at..at + HEADER_SIZE] == Header(1, kind, id, len, pad, 0)
    ensures forall i :: 0 <= i < at || at + HEADER_SIZE <= i < buf.Length ==> buf[i] == old(buf[i])
  {
    buf[at + 5] := len % 256;
    buf[at + 4] := len / 256 % 256;
    buf[at + 6] := pad;
    buf[at + 3] := id % 256;
    buf[at + 2] := id / 256 % 256;
    buf[at + 7] := 0;
    buf[at + 1] := kind;
    buf[at] := 1;
    assert buf[at..at + HEADER_SIZE] ==
      [buf[at], buf[at + 1], buf[at + 2], buf[at + 3], buf[at + 4], buf[at + 5], buf[at + 6], buf[at + 7]];
  }

  class Output {
    const conn: Connection
    const outBuf: array<Byte>  // out_buf followed by the reserved tail
    var id: nat
    var keep: bool
    var outHdr: int            // offset of the open packet's header
    var outPos: nat            // offset of the first unused byte

    ghost var units: nat              // length of the finished part of the buffer, in units of 8 bytes
    ghost var start: seq<Byte>        // the wire when this response began
    ghost var records: seq<Record>    // the response's finished records, on the wire or in the buffer
    ghost var image: seq<Byte>        // their encoding
    ghost var body: seq<Tagged>       // the streams they carry
    ghost var empties: nat            // how many of them are empty
    ghost var written: seq<Tagged>    // everything the callers wrote, byte by byte with its stream

    /** Offsets are in range and records begin at multiples of 8. */
    ghost predicate Layout()
      reads this
    {
      && outBuf.Length == BUF_SIZE + RESERVED
      && id < 0x10000
      && outPos <= BUF_SIZE + HEADER_SIZE
      && if outHdr == NO_PACKET then outPos == 8 * units
         else outHdr == 8 * units && outHdr + HEADER_SIZE <= outPos
    }

    /** The buffered bytes before the open packet. */
    ghost function Finished(): seq<Byte>
      requires Layout()
      reads this, outBuf
    {
      outBuf[..8 * units]
    }

    ghost function Open(): Option<Chunk>
      requires Layout()
      reads this, outBuf
    {
      if outHdr == NO_PACKET then None
      else Some(Chunk(outBuf[outHdr + 1], outBuf[outHdr + HEADER_SIZE..outPos]))
    }

    ghost function OpenStream(): seq<Tagged>
      requires Layout()
      reads this, outBuf
    {
      if Open().None? then [] else Tag(Open().value.kind, Open().value.data)
    }

    /** Wire and buffer together hold the records; these and the open packet carry what was written. */
    ghost predicate Sync()
      requires Layout()
      reads this, outBuf, conn
    {
      && Recorded(records, id, image, body, empties)
      && conn.sent + Finished() == start + image
      && written == body + OpenStream()
    }

    /** What holds between two calls: an open packet is not empty and not full. */
    ghost predicate Valid()
      reads this, outBuf, conn
    {
      && Layout()
      && Sync()
      && if outHdr == NO_PACKET then outPos <= BUF_SIZE
         else outHdr + HEADER_SIZE < outPos < BUF_SIZE
    }

    constructor (conn: Connection, id: nat)
      requires id < 0x10000
      ensures Valid() && this.conn == conn && this.id == id && fresh(outBuf)
      ensures start == conn.sent && records == [] && written == [] && empties == 0
      ensures outHdr == NO_PACKET && outPos == 0
    {
      this.conn := conn;
      this.outBuf := new Byte[BUF_SIZE + RESERVED];
      this.id := id;
      this.keep := false;
      this.outHdr := NO_PACKET;
      this.outPos := 0;
      this.units := 0;
      this.start := conn.sent;
      this.records, this.image, this.body, this.empties := [], [], [], 0;
      this.written := [];
    }

    method OpenPacket(kind: Byte)
      requires Layout() && outHdr == NO_PACKET && outPos <= BUF_SIZE
      modifies this`outHdr, this`outPos, outBuf
      ensures Layout() && outHdr == old(outPos) && outPos == old(outPos) + HEADER_SIZE
      ensures Finished() == old(Finished()) && Open() == Some(Chunk(kind, []))
      ensures old(Sync()) ==> Sync()
    {
      outHdr := outPos;
      outBuf[outHdr + 1] := kind;
      outPos := outPos + HEADER_SIZE;
      assert Finished() == old(Finished());
      assert outBuf[outHdr + HEADER_SIZE..outPos] == [];
    }

    /** memcpy to out_pos, and out_pos moved behind the copy. */
    method Append(ghost kind: Byte, data: seq<Byte>)
      requires Layout() && outHdr != NO_PACKET && outPos + |data| <= BUF_SIZE
      requires kind == outBuf[outHdr + 1]
      modifies this`outPos, this`written, outBuf
      ensures Layout() && outPos == old(outPos) + |data|
      ensures Finished() == old(Finished())
      ensures Open() == Some(Chunk(kind, old(Open()).value.data + data))
      ensures written == old(written) + Tag(kind, data)
      ensures old(Sync()) ==> Sync()
    {
      ghost var content, was := Open().value.data, outBuf[..];
      forall i | 0 <= i < |data| {
        outBuf[outPos + i] := data[i];
      }
      CopiedBehind(was, outBuf[..], outHdr + HEADER_SIZE, outPos, data);
      outPos := outPos + |data|;
      written := written + Tag(kind, data);
      TagAppend(kind, content, data);
      Assoc(body, Tag(kind, content), Tag(kind, data));
    }

    method ClosePacket()
      requires Layout()
      modifies this`outHdr, this`outPos, this`units, this`records, this`image, this`body, this`empties, outBuf
      ensures Layout() && outHdr == NO_PACKET
      ensures old(outPos) <= outPos < old(outPos) + 8
      ensures old(outHdr) == NO_PACKET ==>
        && Finished() == old(Finished())
        && records == old(records) && image == old(image) && body == old(body)
      ensures empties == old(empties + (if Open().Some? && Open().value.data == [] then 1 else 0))
      ensures old(Sync()) ==> Sync()
    {
      if outHdr != NO_PACKET {
        ghost var base, r := Finished(), Made(id, Open().value.kind, Open().value.data);
        CompleteHeader();
        outHdr := NO_PACKET;
        units := outPos / 8;
        if old(Sync()) {
          Assoc(conn.sent, base, Encode(r));
          Assoc(start, image, Encode(r));
          assert body + Tag(r.kind, r.content) + [] == written;
        }
        Note(r);
      }
    }

    /** One more finished record. */
    ghost method Note(r: Record)
      requires id < 0x10000 && |r.content| <= MAX_LENGTH && r == Made(id, r.kind, r.content)
      modifies this`records, this`image, this`body, this`empties
      ensures records == old(records) + [r] && image == old(image) + Encode(r)
      ensures body == old(body) + Tag(r.kind, r.content)
      ensures empties == old(empties) + (if r.content == [] then 1 else 0)
      ensures old(Recorded(records, id, image, body, empties)) ==> Recorded(records, id, image, body, empties)
    {
      if Recorded(records, id, image, body, empties) {
        RecordedSnoc(records, id, image, body, empties, r);
      }
      records, image, body := records + [r], image + Encode(r), body + Tag(r.kind, r.content);
      empties := empties + (if r.content == [] then 1 else 0);
    }

    /** The open packet's header and padding are filled in, and out_pos moves behind the padding. */
    method CompleteHeader()
      requires Layout() && outHdr != NO_PACKET
      modifies this`outPos, outBuf
      ensures outPos == 8 * (outPos / 8) <= BUF_SIZE + HEADER_SIZE && old(outPos) <= outPos < old(outPos) + 8
      ensures outBuf[..outPos] == old(Finished()) + Encode(Made(id, old(Open()).value.kind, old(Open()).value.data))
    {
      ghost var at, kind, content := outHdr, outBuf[outHdr + 1], outBuf[outHdr + HEADER_SIZE..outPos];
      ghost var front := outBuf[..at];
      var len := outPos - (outHdr + HEADER_SIZE);
      var pad := MakeHeader(outBuf, outHdr, outBuf[outHdr + 1], id, len);
      PacketEnd(units, len);
      outPos := outPos + pad;
      assert outBuf[at + HEADER_SIZE..at + HEADER_SIZE + |content|] == content;
      ghost var now := outBuf[..];
      MadeInBuffer(now, at, id, kind, content);
      assert now[..at] == outBuf[..at] == front && now[..outPos] == outBuf[..outPos];
    }

    /** Puts the buffered records on the wire; with `close`, an END_REQUEST record behind them. */
    method Flush(close: bool) returns (ok: bool)
      requires Layout() && (close ==> outPos <= BUF_SIZE)
      modifies this`keep, this`outHdr, this`outPos, this`units, outBuf, conn`sent, conn`patience, conn`faults
      modifies this`records, this`image, this`body, this`empties
      ensures Layout() && outHdr == NO_PACKET
      ensures if ok then outPos == 0 && keep == old(keep) else !keep
      ensures ok && old(outHdr) == NO_PACKET && !close ==>
        && conn.sent == old(conn.sent + Finished())
        && records == old(records) && image == old(image) && body == old(body)
      ensures ok ==> empties == old(empties + (if Open().Some? && Open().value.data == [] then 1 else 0))
      ensures ok && !close && old(Sync()) ==> Sync()
      ensures ok && close && old(Sync()) ==> Ended()
      ensures conn.faults == old(conn.faults) + (if ok then 0 else 1) && (conn.reliable ==> ok)
    {
      ClosePacket();
      if close {
        ok := EmitEnd();
        return;
      }
      ok := EmitFinished();
    }

    method EmitFinished() returns (ok: bool)
      requires Layout() && outHdr == NO_PACKET
      modifies this`keep, this`outPos, this`units, conn`sent, conn`patience, conn`faults
      ensures Layout()
      ensures if ok then outPos == 0 && keep == old(keep) else !keep
      ensures ok ==> conn.sent == old(conn.sent + Finished())
      ensures ok && old(Sync()) ==> Sync()
      ensures conn.faults == old(conn.faults) + (if ok then 0 else 1) && (conn.reliable ==> ok)
    {
      ok := Emit(outPos);
      assert ok ==> conn.sent + Finished() == conn.sent;
    }

    method EmitEnd() returns (ok: bool)
      requires Layout() && outHdr == NO_PACKET && outPos <= BUF_SIZE
      modifies this`keep, this`outPos, this`units, this`records, outBuf, conn`sent, conn`patience, conn`faults
      ensures Layout()
      ensures if ok then outPos == 0 && keep == old(keep) else !keep
      ensures ok && old(Sync()) ==> Ended()
      ensures conn.faults == old(conn.faults) + (if ok then 0 else 1) && (conn.reliable ==> ok)
    {
      ghost var end := MakeEndRequest();
      ok := Emit(outPos + HEADER_SIZE + 8);
      if ok && old(Sync()) {
        assert body + [] == body;
        EndCompletes(records, end, id, written, empties, start, conn.sent);
      }
      records := records + [end];
    }

    /** Writes the first `len` bytes of the buffer and starts it afresh. */
    method Emit(len: nat) returns (ok: bool)
      requires Layout() && outHdr == NO_PACKET && len <= outBuf.Length
      modifies this`keep, this`outPos, this`units, conn`sent, conn`patience, conn`faults
      ensures Layout()
      ensures if ok then outPos == 0 && keep == old(keep) else !keep
      ensures ok ==> conn.sent == old(conn.sent) + outBuf[..len]
      ensures conn.faults == old(conn.faults) + (if ok then 0 else 1) && (conn.reliable ==> ok)
    {
      var n := SafeWrite(conn, outBuf[..len]);
      if n != len {
        keep := false;
        return false;
      }
      outPos, units := 0, 0;
      return true;
    }

    /** The response is complete: its records and one END_REQUEST are what the wire gained. */
    ghost predicate Ended()
      reads this, conn
    {
      Complete(records, id, written, empties, start, conn.sent)
    }

    method MakeEndRequest() returns (ghost end: Record)
      requires Layout() && outHdr == NO_PACKET && outPos <= BUF_SIZE
      modifies outBuf
      ensures IsEndRequest(end, id)
      ensures outBuf[..outPos + HEADER_SIZE + 8] == old(Finished()) + Encode(end)
      ensures old(Sync()) ==> AllMade(records + [end], id)
      ensures old(Sync()) ==> conn.sent + outBuf[..outPos + HEADER_SIZE + 8] == start + EncodeAll(records + [end])
    {
      ghost var base := Finished();
      end := PutEnd();
      if old(Sync()) {
        RecordedSnoc(records, id, image, body, empties, end);
        Assoc(conn.sent, base, Encode(end));
        Assoc(start, image, Encode(end));
      }
    }

    /** The END_REQUEST record behind the finished part of the buffer. */
    method PutEnd() returns (ghost end: Record)
      requires Layout() && outHdr == NO_PACKET && outPos <= BUF_SIZE
      modifies outBuf
      ensures IsEndRequest(end, id)
      ensures outBuf[..outPos + HEADER_SIZE + 8] == old(Finished()) + Encode(end)
    {
      var pad := MakeHeader(outBuf, outPos, FCGI_END_REQUEST, id, 8);
      ghost var header := outBuf[..outPos + HEADER_SIZE];
      // the application status, and FCGI_REQUEST_COMPLETE
      forall i | outPos + HEADER_SIZE <= i < outPos + HEADER_SIZE + 5 {
        outBuf[i] := 0;
      }
      end := EndInBuffer(outBuf[..], outPos, id, header);
    }

    /** After a flush, what arrived decodes to what was written. */
    method Drain() returns (ok: bool)
      requires Valid()
      modifies this`keep, this`outHdr, this`outPos, this`units, outBuf, conn`sent, conn`patience, conn`faults
      modifies this`records, this`image, this`body, this`empties
      ensures conn.faults == old(conn.faults) + (if ok then 0 else 1) && (conn.reliable ==> ok)
      ensures ok ==> Valid() && start <= conn.sent && Received(start, conn.sent) == Some(records)
      ensures ok ==> Stream(Contents(records)) == written
      ensures ok ==> AllMade(records, id) && Empties(records) == old(empties) && conn.sent == start + EncodeAll(records)
    {
      ok := Flush(false);
      if ok {
        assert conn.sent + Finished() == conn.sent;
        assert body + [] == body;
        ReceivedRecords(start, conn.sent, records);
      }
    }

    /** A new packet would begin in the last 8 bytes of the buffer, or behind it. */
    ghost predicate Cramped(kind: Byte)
      requires Layout()
      reads this, outBuf
    {
      (Open().None? || Open().value.kind != kind) && outPos > BUF_SIZE - 2 * HEADER_SIZE
    }

    /**
     * The optimized writer. The one case in which it makes an empty record is a write of less than
     * a buffer whose packet would begin where no content byte fits any more.
     */
    method Write(kind: Byte, str: seq<Byte>, len: int) returns (r: int)
      requires Valid() && len <= |str|
      modifies this`keep, this`outHdr, this`outPos, this`units, this`written, outBuf
      modifies this`records, this`image, this`body, this`empties, conn`sent, conn`patience, conn`faults
      ensures len <= 0 ==> r == 0 && unchanged(this, outBuf, conn)
      ensures conn.faults == old(conn.faults) + (if r >= 0 then 0 else 1) && (conn.reliable ==> r >= 0)
      ensures len > 0 ==> r == len || (r == -1 && !keep)
      ensures len > 0 && r == len ==> Valid() && written == old(written) + Tag(kind, str[..len])
      ensures len > 0 && r == len ==> if outHdr == NO_PACKET then outPos == 0 else Open().value.kind == kind
      ensures len > 0 && r == len ==>
        empties == old(empties) + (if old(Cramped(kind)) && len < BUF_SIZE - HEADER_SIZE then 1 else 0)
    {
      if len <= 0 {
        return 0;
      }
      ghost var cramped := Cramped(kind) && len < BUF_SIZE - HEADER_SIZE;
      SwitchTo(kind);
      assert NoRoom(len) == cramped;
      var ok := WriteOn(kind, str[..len]);
      if !ok {
        return -1;
      }
      r := len;
    }

    /** No packet is open, and one for a write of this size would begin where no content fits any more. */
    ghost predicate NoRoom(len: nat)
      reads this
    {
      outHdr == NO_PACKET && outPos > BUF_SIZE - 2 * HEADER_SIZE && len < BUF_SIZE - HEADER_SIZE
    }

    /** The optimized writer's three size regimes. */
    method WriteOn(kind: Byte, str: seq<Byte>) returns (ok: bool)
      requires Layout() && Sync() && outPos <= BUF_SIZE && str != []
      requires outHdr != NO_PACKET ==> Open().value.kind == kind && Open().value.data != [] && outPos < BUF_SIZE
      modifies this`keep, this`outHdr, this`outPos, this`units, this`written, outBuf
      modifies this`records, this`image, this`body, this`empties, conn`sent, conn`patience, conn`faults
      ensures ok ==> Valid() && written == old(written) + Tag(kind, str)
      ensures ok ==> if outHdr == NO_PACKET then outPos == 0 else Open().value.kind == kind
      ensures ok ==> empties == old(empties) + (if old(NoRoom(|str|)) then 1 else 0)
      ensures conn.faults == old(conn.faults) + (if ok then 0 else 1) && (conn.reliable ==> ok)
      ensures !ok ==> !keep
    {
      var limit := BUF_SIZE - outPos;
      if outHdr == NO_PACKET {
        limit := limit - HEADER_SIZE;
        if limit < 0 {
          limit := 0;
        }
      }
      if |str| < limit {
        FillUp(kind, str);
        return true;
      } else if |str| - limit < BUF_SIZE - HEADER_SIZE {
        ok := WriteAcross(kind, str, limit);
        return ok;
      } else {
        ok := WriteDirect(kind, str);
        return ok;
      }
    }

    /** An open packet of another type is closed. */
    method SwitchTo(kind: Byte)
      requires Valid()
      modifies this`outHdr, this`outPos, this`units, this`records, this`image, this`body, this`empties, outBuf
      ensures Layout() && Sync() && outPos <= BUF_SIZE && empties == old(empties)
      ensures if old(Open().Some? && Open().value.kind == kind)
        then
          && outHdr == old(outHdr) && outPos == old(outPos) < BUF_SIZE
          && Open() == old(Open()) && Open().value.data != []
        else outHdr == NO_PACKET && old(outPos) <= outPos < old(outPos) + 8
    {
      if outHdr != NO_PACKET && outBuf[outHdr + 1] != kind {
        ClosePacket();
      }
    }

    /** Opens a packet if none is open, and appends `data` if there is any. */
    method FillUp(kind: Byte, data: seq<Byte>)
      requires Layout() && Sync() && outPos <= BUF_SIZE
      requires outHdr != NO_PACKET ==> Open().value.kind == kind && outPos + |data| <= BUF_SIZE
      requires outHdr == NO_PACKET ==> data == [] || outPos + HEADER_SIZE + |data| <= BUF_SIZE
      modifies this`outHdr, this`outPos, this`written, outBuf
      ensures Layout() && Sync() && outHdr != NO_PACKET
      ensures outPos == old(outPos) + (if old(outHdr) == NO_PACKET then HEADER_SIZE else 0) + |data|
      ensures Open() == Some(Chunk(kind, old(if outHdr == NO_PACKET then [] else Open().value.data) + data))
      ensures written == old(written) + Tag(kind, data)
    {
      if outHdr == NO_PACKET {
        OpenPacket(kind);
      }
      ghost var open := Open().value.data;
      if data == [] {
        assert open + data == open;
        assert written + Tag(kind, data) == written;
      } else {
        Append(kind, data);
      }
    }

    /** The middle branch of the writer: `limit` bytes complete the buffer, the rest begins the next one. */
    method WriteAcross(kind: Byte, str: seq<Byte>, limit: nat) returns (ok: bool)
      requires Layout() && Sync() && outPos <= BUF_SIZE
      requires outHdr != NO_PACKET ==>
        Open().value.kind == kind && Open().value.data != [] && limit == BUF_SIZE - outPos
      requires outHdr == NO_PACKET ==>
        limit == if outPos + HEADER_SIZE <= BUF_SIZE then BUF_SIZE - outPos - HEADER_SIZE else 0
      requires limit <= |str| < limit + BUF_SIZE - HEADER_SIZE
      modifies this`keep, this`outHdr, this`outPos, this`units, this`written, outBuf
      modifies this`records, this`image, this`body, this`empties, conn`sent, conn`patience, conn`faults
      ensures ok ==> Valid() && written == old(written) + Tag(kind, str)
      ensures ok ==> if outHdr == NO_PACKET then outPos == 0 else Open().value.kind == kind
      ensures ok ==> empties == old(empties) + (if old(outHdr) == NO_PACKET && limit == 0 then 1 else 0)
      ensures conn.faults == old(conn.faults) + (if ok then 0 else 1) && (conn.reliable ==> ok)
      ensures !ok ==> !keep
    {
      TagNext(written, kind, str, limit, |str|);
      assert str[..|str|] == str;
      FillUp(kind, str[..limit]);
      ok := Flush(false);
      if ok {
        Begin(kind, str[limit..|str|]);
      }
    }

    /** Begins a packet at the front of the buffer, if there is anything to put into it. */
    method Begin(kind: Byte, data: seq<Byte>)
      requires Layout() && Sync() && outHdr == NO_PACKET && outPos == 0
      requires |data| < BUF_SIZE - HEADER_SIZE
      modifies this`outHdr, this`outPos, this`written, outBuf
      ensures Valid() && written == old(written) + Tag(kind, data)
      ensures if outHdr == NO_PACKET then outPos == 0 else Open().value.kind == kind
    {
      if data != [] {
        FillUp(kind, data);
      } else {
        assert written + Tag(kind, data) == written;
      }
    }

    /** The last branch of the writer: whole records whose content goes to the socket unbuffered. */
    method WriteDirect(kind: Byte, str: seq<Byte>) returns (ok: bool)
      requires Layout() && Sync() && outPos <= BUF_SIZE
      requires outHdr != NO_PACKET ==> Open().value.data != []
      requires |str| >= BUF_SIZE - HEADER_SIZE
      modifies this`keep, this`outHdr, this`outPos, this`units, this`written, outBuf
      modifies this`records, this`image, this`body, this`empties, conn`sent, conn`patience, conn`faults
      ensures ok ==> Valid() && written == old(written) + Tag(kind, str) && empties == old(empties)
      ensures ok ==> if outHdr == NO_PACKET then outPos == 0 else Open().value.kind == kind
      ensures conn.faults == old(conn.faults) + (if ok then 0 else 1) && (conn.reliable ==> ok)
      ensures !ok ==> !keep
    {
      ClosePacket();
      var pos := 0;
      while |str| - pos > MAX_LENGTH
        invariant 0 <= pos <= |str| && |str| - pos >= HEADER_SIZE
        invariant Layout() && Sync() && outHdr == NO_PACKET && outPos < BUF_SIZE + 8
        invariant written == old(written) + Tag(kind, str[..pos]) && empties == old(empties)
        invariant conn.faults == old(conn.faults)
      {
        TagNext(old(written), kind, str, pos, pos + DIRECT_SIZE);
        ok := SendRecord(kind, str[pos..pos + DIRECT_SIZE]);
        if !ok {
          return;
        }
        pos := pos + DIRECT_SIZE;
      }
      ok := SendTail(kind, str, pos, old(written));
    }

    /** One more unbuffered record, up to the last multiple of 8; the rest begins a packet in the buffer. */
    method SendTail(kind: Byte, str: seq<Byte>, pos: nat, ghost before: seq<Tagged>) returns (ok: bool)
      requires Layout() && Sync() && outHdr == NO_PACKET && outPos < BUF_SIZE + 8
      requires pos <= |str| && HEADER_SIZE <= |str| - pos <= MAX_LENGTH
      requires written == before + Tag(kind, str[..pos])
      modifies this`keep, this`outHdr, this`outPos, this`units, this`written, outBuf
      modifies this`records, this`image, this`body, this`empties, conn`sent, conn`patience, conn`faults
      ensures ok ==> Valid() && written == before + Tag(kind, str) && empties == old(empties)
      ensures ok ==> if outHdr == NO_PACKET then outPos == 0 else Open().value.kind == kind
      ensures conn.faults == old(conn.faults) + (if ok then 0 else 1) && (conn.reliable ==> ok)
      ensures !ok ==> !keep
    {
      var pad := Pad(|str| - pos);
      var rest := if pad > 0 then 8 - pad else 0;
      TailCut(|str| - pos);
      var cut := |str| - rest;
      TagNext(before, kind, str, pos, cut);
      TagNext(before, kind, str, cut, |str|);
      assert str[..|str|] == str;
      ok := SendRecord(kind, str[pos..cut]);
      if ok {
        Begin(kind, str[cut..|str|]);
      }
    }

    /** A header through the buffer, then `content` straight from the caller's memory. */
    method SendRecord(kind: Byte, content: seq<Byte>) returns (ok: bool)
      requires Layout() && Sync() && outHdr == NO_PACKET && outPos < BUF_SIZE + 8
      requires 0 < |content| <= MAX_LENGTH && Pad(|content|) == 0
      modifies this`keep, this`outHdr, this`outPos, this`units, this`written, outBuf
      modifies this`records, this`image, this`body, this`empties, conn`sent, conn`patience, conn`faults
      ensures ok ==> Layout() && Sync() && outHdr == NO_PACKET && outPos == 0
      ensures ok ==> written == old(written) + Tag(kind, content) && empties == old(empties)
      ensures conn.faults == old(conn.faults) + (if ok then 0 else 1) && (conn.reliable ==> ok)
      ensures !ok ==> !keep
    {
      ghost var base := Finished();
      ghost var header := PutHeader(kind, |content|);
      ok := Flush(false);
      if !ok {
        return;
      }
      var n := SafeWrite(conn, content);
      if n != |content| {
        keep := false;
        return false;
      }
      ghost var r := Made(id, kind, content);
      assert Encode(r) == header + content;
      DirectSync(old(conn.sent), base, header, content, start, image);
      assert body + [] == body;
      NoteSent(r);
    }

    /** A record that went to the wire behind all the others, with the buffer empty. */
    ghost method NoteSent(r: Record)
      requires Layout() && outHdr == NO_PACKET && outPos == 0
      requires r == Made(id, r.kind, r.content) && 0 < |r.content| <= MAX_LENGTH
      requires Recorded(records, id, image, body, empties) && written == body
      requires conn.sent == start + (image + Encode(r))
      modifies this`written, this`records, this`image, this`body, this`empties
      ensures Layout() && Sync() && written == old(written) + Tag(r.kind, r.content) && empties == old(empties)
    {
      Note(r);
      written := written + Tag(r.kind, r.content);
      assert conn.sent + Finished() == conn.sent;
      assert body + [] == body;
    }

    /** A complete header for content that does not go through the buffer. */
    method PutHeader(kind: Byte, len: nat) returns (ghost header: seq<Byte>)
      requires Layout() && outHdr == NO_PACKET && outPos < BUF_SIZE + 8
      requires len <= MAX_LENGTH && Pad(len) == 0
      modifies this`outHdr, this`outPos, this`units, outBuf
      ensures Layout() && outHdr == NO_PACKET
      ensures header == Header(1, kind, id, len, 0, 0)
      ensures Finished() == old(Finished()) + header
    {
      OpenPacket(kind);
      var pad := MakeHeader(outBuf, outHdr, kind, id, len);
      header := outBuf[outHdr..outPos];
      assert outBuf[..outPos] == outBuf[..outHdr] + header;
      outHdr, units := NO_PACKET, units + 1;
    }

    /** The writer in its unoptimized form, which the source keeps disabled beside the other one. */
    method WriteClear(kind: Byte, str: seq<Byte>, len: int) returns (r: int)
      requires Valid() && len <= |str|
      modifies this`keep, this`outHdr, this`outPos, this`units, this`written, outBuf
      modifies this`records, this`image, this`body, this`empties, conn`sent, conn`patience, conn`faults
      ensures len <= 0 ==> r == 0 && unchanged(this, outBuf, conn)
      ensures conn.faults == old(conn.faults) + (if r >= 0 then 0 else 1) && (conn.reliable ==> r >= 0)
      ensures len > 0 ==> r == len || (r == -1 && !keep)
      ensures len > 0 && r == len ==> Valid() && written == old(written) + Tag(kind, str[..len])
    {
      if len <= 0 {
        return 0;
      }
      SwitchTo(kind);
      var ok := WriteClearOn(kind, str[..len]);
      r := if ok then len else -1;
    }

    method WriteClearOn(kind: Byte, str: seq<Byte>) returns (ok: bool)
      requires Layout() && Sync() && outPos <= BUF_SIZE && str != []
      requires outHdr != NO_PACKET ==> Open().value.kind == kind && outHdr + HEADER_SIZE < outPos < BUF_SIZE
      modifies this`keep, this`outHdr, this`outPos, this`units, this`written, outBuf
      modifies this`records, this`image, this`body, this`empties, conn`sent, conn`patience, conn`faults
      ensures ok ==> Valid() && written == old(written) + Tag(kind, str)
      ensures conn.faults == old(conn.faults) + (if ok then 0 else 1) && (conn.reliable ==> ok)
      ensures !ok ==> !keep
    {
      var rest, pos := |str|, 0;
      ghost var was := written;
      assert was + Tag(kind, str[..0]) == was;
      while rest > 0
        invariant 0 <= pos <= |str| && rest == |str| - pos
        invariant Layout() && Sync() && outPos <= BUF_SIZE
        invariant outHdr != NO_PACKET ==> Open().value.kind == kind && outHdr + HEADER_SIZE < outPos < BUF_SIZE
        invariant written == was + Tag(kind, str[..pos]) && conn.faults == old(conn.faults)
        decreases rest, outPos
      {
        var n;
        ok, n := WriteSome(kind, str, pos, was);
        if !ok {
          return;
        }
        rest, pos := rest - n, pos + n;
      }
      assert str[..|str|] == str;
      ok := true;
    }

    /** One turn of the clear writer's loop: as much as fits, and a flush if that fills the buffer. */
    method WriteSome(kind: Byte, str: seq<Byte>, from: nat, ghost before: seq<Tagged>) returns (ok: bool, n: nat)
      requires Layout() && Sync() && outPos <= BUF_SIZE && from < |str|
      requires outHdr != NO_PACKET ==> Open().value.kind == kind && outHdr + HEADER_SIZE < outPos < BUF_SIZE
      requires written == before + Tag(kind, str[..from])
      modifies this`keep, this`outHdr, this`outPos, this`units, this`written, outBuf
      modifies this`records, this`image, this`body, this`empties, conn`sent, conn`patience, conn`faults
      ensures ok ==> Layout() && Sync() && outPos <= BUF_SIZE
      ensures ok ==> outHdr != NO_PACKET ==> Open().value.kind == kind && outHdr + HEADER_SIZE < outPos < BUF_SIZE
      ensures ok ==> from + n <= |str| && written == before + Tag(kind, str[..from + n])
      ensures ok && n == 0 ==> outPos < old(outPos)
      ensures conn.faults == old(conn.faults) + (if ok then 0 else 1) && (conn.reliable ==> ok)
      ensures !ok ==> !keep
    {
      n := 0;
      ok := Reserve(kind);
      if !ok {
        return;
      }
      ok, n := FillFrom(kind, str, from, before);
    }

    /** As much of the rest as fits behind the open packet. */
    method FillFrom(kind: Byte, str: seq<Byte>, from: nat, ghost before: seq<Tagged>) returns (ok: bool, n: nat)
      requires Layout() && Sync() && outHdr != NO_PACKET && Open().value.kind == kind && outPos <= BUF_SIZE
      requires from < |str| && written == before + Tag(kind, str[..from])
      modifies this`keep, this`outHdr, this`outPos, this`units, this`written, outBuf
      modifies this`records, this`image, this`body, this`empties, conn`sent, conn`patience, conn`faults
      ensures ok ==> Layout() && Sync() && outPos <= BUF_SIZE
      ensures ok ==> outHdr != NO_PACKET ==> Open().value.kind == kind && outHdr + HEADER_SIZE < outPos < BUF_SIZE
      ensures ok ==> from + n <= |str| && written == before + Tag(kind, str[..from + n])
      ensures ok && n == 0 ==> old(outPos) == BUF_SIZE && outPos == 0
      ensures conn.faults == old(conn.faults) + (if ok then 0 else 1) && (conn.reliable ==> ok)
      ensures !ok ==> !keep
    {
      n := if |str| - from < BUF_SIZE - outPos then |str| - from else BUF_SIZE - outPos;
      var data := str[from..from + n];
      TagGrown(before, written, kind, str, from, data, before + Tag(kind, str[..from + n]));
      ok := Fill(kind, data);
    }

    /** Appends, and flushes the buffer when that fills it. */
    method Fill(kind: Byte, data: seq<Byte>) returns (ok: bool)
      requires Layout() && Sync() && outHdr != NO_PACKET && Open().value.kind == kind
      requires outPos + |data| <= BUF_SIZE && (data == [] ==> outPos == BUF_SIZE)
      modifies this`keep, this`outHdr, this`outPos, this`units, this`written, outBuf
      modifies this`records, this`image, this`body, this`empties, conn`sent, conn`patience, conn`faults
      ensures ok ==> Layout() && Sync() && outPos <= BUF_SIZE
      ensures ok ==> outHdr != NO_PACKET ==> Open().value.kind == kind && outHdr + HEADER_SIZE < outPos < BUF_SIZE
      ensures ok ==> written == old(written) + Tag(kind, data)
      ensures ok && old(outPos) == BUF_SIZE ==> outPos == 0
      ensures conn.faults == old(conn.faults) + (if ok then 0 else 1) && (conn.reliable ==> ok)
      ensures !ok ==> !keep
    {
      Append(kind, data);
      if outPos < BUF_SIZE {
        return true;
      }
      ok := Flush(false);
    }

    /** Makes sure that a packet is open, flushing first when not even its header would fit. */
    method Reserve(kind: Byte) returns (ok: bool)
      requires Layout() && Sync() && outPos <= BUF_SIZE
      requires outHdr != NO_PACKET ==> Open().value.kind == kind && outPos < BUF_SIZE
      modifies this`keep, this`outHdr, this`outPos, this`units, outBuf, conn`sent, conn`patience, conn`faults
      modifies this`records, this`image, this`body, this`empties
      ensures ok ==> Layout() && Sync() && outHdr != NO_PACKET && Open().value.kind == kind && outPos <= BUF_SIZE
      ensures ok && outPos == BUF_SIZE ==> old(outPos) > 0
      ensures conn.faults == old(conn.faults) + (if ok then 0 else 1) && (conn.reliable ==> ok)
      ensures !ok ==> !keep
    {
      ok := true;
      if outHdr == NO_PACKET {
        if BUF_SIZE - outPos < HEADER_SIZE {
          ok := Flush(false);
          if !ok {
            return;
          }
        }
        OpenPacket(kind);
      }
    }

    method WriteAndDrain(kind: Byte, str: seq<Byte>, len: int) returns (r: int, ok: bool)
      requires Valid() && len <= |str|
      modifies this`keep, this`outHdr, this`outPos, this`units, this`written, outBuf
      modifies this`records, this`image, this`body, this`empties, conn`sent, conn`patience, conn`faults
      ensures conn.faults == old(conn.faults) ==> ok && r == if len > 0 then len else 0
      ensures ok ==> start <= conn.sent && Received(start, conn.sent) == Some(records)
      ensures ok ==> Stream(Contents(records)) == old(written) + Tag(kind, str[..if len > 0 then len else 0])
    {
      ok := false;
      r := Write(kind, str, len);
      if r >= 0 {
        ok := Drain();
      }
    }

    method WriteClearAndDrain(kind: Byte, str: seq<Byte>, len: int) returns (r: int, ok: bool)
      requires Valid() && len <= |str|
      modifies this`keep, this`outHdr, this`outPos, this`units, this`written, outBuf
      modifies this`records, this`image, this`body, this`empties, conn`sent, conn`patience, conn`faults
      ensures conn.faults == old(conn.faults) ==> ok && r == if len > 0 then len else 0
      ensures ok ==> start <= conn.sent && Received(start, conn.sent) == Some(records)
      ensures ok ==> Stream(Contents(records)) == old(written) + Tag(kind, str[..if len > 0 then len else 0])
    {
      ok := false;
      r := WriteClear(kind, str, len);
      if r >= 0 {
        ok := Drain();
      }
    }
  }

  /**
   * The optimized writer refines the clear one: from buffers in any valid state that carry the same
   * streams, with the same input and a flush behind it, what arrives decodes to the same streams.
   */
  method RefinesClear(a: Output, b: Output, kind: Byte, str: seq<Byte>, len: int)
      returns (ra: int, rb: int, okA: bool, okB: bool)
    requires a.Valid() && b.Valid() && a.written == b.written && len <= |str|
    requires a != b && a.outBuf != b.outBuf && a.conn != b.conn
    modifies a, a.outBuf, a.conn, b, b.outBuf, b.conn
    ensures a.conn.faults == old(a.conn.faults) && b.conn.faults == old(b.conn.faults) ==>
      ra == rb == (if len > 0 then len else 0) && okA && okB
    ensures a.start == old(a.start) && b.start == old(b.start)
    ensures okA && okB ==>
      && a.start <= a.conn.sent && b.start <= b.conn.sent
      && var fromA, fromB := Received(a.start, a.conn.sent), Received(b.start, b.conn.sent);
      && fromA.Some? && fromB.Some?
      && Stream(Contents(fromA.value)) == old(a.written) + Tag(kind, str[..if len > 0 then len else 0])
      && Stream(Contents(fromA.value)) == Stream(Contents(fromB.value))
      && Joined(Contents(fromA.value)) == Joined(Contents(fromB.value))
  {
    ra, okA := a.WriteAndDrain(kind, str, len);
    rb, okB := b.WriteClearAndDrain(kind, str, len);
    if okA && okB {
      JoinedIsRunsOfStream(Contents(a.records));
      JoinedIsRunsOfStream(Contents(b.records));
    }
  }

  // ---- Whole responses ---------------------------------------------------------------------

  datatype Op = WriteOp(kind: Byte, data: seq<Byte>) | FlushOp

  /** What the writes of a response say, in order. */
  function Wrote(ops: seq<Op>): seq<Chunk>
  {
    if ops == [] then []
    else
      var front, last := Wrote(ops[..|ops| - 1]), ops[|ops| - 1];
      match last
      case WriteOp(kind, data) => front + [Chunk(kind, data)]
      case FlushOp => front
  }

  /** The type of the last write that put something into the buffer, if no flush followed it. */
  function LastType(ops: seq<Op>): Option<Byte>
  {
    if ops == [] then None
    else
      match ops[|ops| - 1]
      case FlushOp => None
      case WriteOp(kind, data) => if data == [] then LastType(ops[..|ops| - 1]) else Some(kind)
  }

  /** Every change of type comes right after a flush. */
  predicate FlushesBeforeSwitch(ops: seq<Op>)
  {
    forall i :: 0 <= i < |ops| && ops[i].WriteOp? && ops[i].data != [] ==>
      LastType(ops[..i]).None? || LastType(ops[..i]) == Some(ops[i].kind)
  }

  /**
   * Records of section 3.3 that carry exactly what was written, in order, and end with the one
   * END_REQUEST; none of the others is empty if the types change only behind a flush.
   */
  ghost predicate IsResponse(got: Option<seq<Record>>, ops: seq<Op>, id: nat) {
    && got.Some? && |got.value| > 0
    && var body, end := got.value[..|got.value| - 1], got.value[|got.value| - 1];
    && AllMade(got.value, id) && IsEndRequest(end, id)
    && Stream(Contents(body)) == Stream(Wrote(ops))
    && Joined(Contents(body)) == Joined(Wrote(ops))
    && (FlushesBeforeSwitch(ops) ==> Empties(body) == 0)
  }

  /** A whole response: any writes and flushes, then the closing flush. Every byte that arrives belongs to it. */
  method Respond(conn: Connection, id: nat, ops: seq<Op>) returns (ok: bool)
    requires id < 0x10000
    modifies conn`sent, conn`patience, conn`faults
    ensures conn.faults == old(conn.faults) + (if ok then 0 else 1) && (conn.reliable ==> ok)
    ensures ok ==> old(conn.sent) <= conn.sent && IsResponse(Received(old(conn.sent), conn.sent), ops, id)
  {
    var out := new Output(conn, id);
    ok := PerformAll(out, ops);
    if ok {
      ok := Conclude(out, ops);
    }
  }

  method PerformAll(out: Output, ops: seq<Op>) returns (ok: bool)
    requires out.Valid() && out.written == [] && out.empties == 0 && out.outHdr == NO_PACKET && out.outPos == 0
    modifies out, out.outBuf, out.conn`sent, out.conn`patience, out.conn`faults
    ensures out.conn.faults == old(out.conn.faults) + (if ok then 0 else 1) && (out.conn.reliable ==> ok)
    ensures out.id == old(out.id) && out.start == old(out.start)
    ensures ok ==> out.Valid() && out.written == Stream(Wrote(ops)) && (FlushesBeforeSwitch(ops) ==> out.empties == 0)
  {
    var i := 0;
    ok := true;
    assert ops[..0] == [];
    while i < |ops|
      invariant 0 <= i <= |ops| && out.id == old(out.id) && out.start == old(out.start)
      invariant out.conn.faults == old(out.conn.faults)
      invariant out.Valid() && out.written == Stream(Wrote(ops[..i]))
      invariant FlushesBeforeSwitch(ops) ==> out.empties == 0 && (out.outHdr == NO_PACKET ==> out.outPos == 0)
      invariant out.outHdr != NO_PACKET ==> LastType(ops[..i]) == Some(out.Open().value.kind)
      invariant ok
    {
      ok := Perform(out, ops, i);
      if !ok {
        return;
      }
      i := i + 1;
    }
    assert ops[..|ops|] == ops;
  }

  method Conclude(out: Output, ops: seq<Op>) returns (ok: bool)
    requires out.Valid() && out.written == Stream(Wrote(ops))
    requires FlushesBeforeSwitch(ops) ==> out.empties == 0
    modifies out, out.outBuf, out.conn`sent, out.conn`patience, out.conn`faults
    ensures out.conn.faults == old(out.conn.faults) + (if ok then 0 else 1) && (out.conn.reliable ==> ok)
    ensures ok ==>
      && old(out.start) <= out.conn.sent
      && IsResponse(Received(old(out.start), out.conn.sent), ops, old(out.id))
  {
    ok := out.Flush(true);
    if ok {
      EndedIsResponse(out.start, out.conn.sent, out.records, ops, out.id);
    }
  }

  lemma {:induction false} EndedIsResponse(start: seq<Byte>, sent: seq<Byte>, records: seq<Record>, ops: seq<Op>,
      id: nat)
    requires |records| > 0 && AllMade(records, id) && IsEndRequest(records[|records| - 1], id)
    requires Stream(Contents(records[..|records| - 1])) == Stream(Wrote(ops))
    requires FlushesBeforeSwitch(ops) ==> Empties(records[..|records| - 1]) == 0
    requires sent == start + EncodeAll(records)
    ensures start <= sent && IsResponse(Received(start, sent), ops, id)
  {
    ReceivedRecords(start, sent, records);
    JoinedIsRunsOfStream(Contents(records[..|records| - 1]));
    JoinedIsRunsOfStream(Wrote(ops));
  }

  method Perform(out: Output, ops: seq<Op>, i: nat) returns (ok: bool)
    requires i < |ops| && out.Valid() && out.written == Stream(Wrote(ops[..i]))
    requires FlushesBeforeSwitch(ops) ==> out.empties == 0 && (out.outHdr == NO_PACKET ==> out.outPos == 0)
    requires out.outHdr != NO_PACKET ==> LastType(ops[..i]) == Some(out.Open().value.kind)
    modifies out, out.outBuf, out.conn`sent, out.conn`patience, out.conn`faults
    ensures out.conn.faults == old(out.conn.faults) + (if ok then 0 else 1) && (out.conn.reliable ==> ok)
    ensures out.id == old(out.id) && out.start == old(out.start)
    ensures ok ==> out.Valid() && out.written == Stream(Wrote(ops[..i + 1]))
    ensures ok ==> FlushesBeforeSwitch(ops) ==> out.empties == 0 && (out.outHdr == NO_PACKET ==> out.outPos == 0)
    ensures ok ==> out.outHdr != NO_PACKET ==> LastType(ops[..i + 1]) == Some(out.Open().value.kind)
  {
    if ops[i].FlushOp? {
      OpFlushed(ops, i);
      ok := out.Flush(false);
      return;
    }
    OpWritten(ops, i);
    ok := WriteOne(out, ops[i].kind, ops[i].data, FlushesBeforeSwitch(ops), LastType(ops[..i]));
  }

  /**
   * One write, after writes of type `last` since the last flush; `calm` if it comes right after a flush or does not
   * change the type, and no empty record was made.
   */
  method WriteOne(out: Output, kind: Byte, data: seq<Byte>, ghost calm: bool, ghost last: Option<Byte>)
    returns (ok: bool)
    requires out.Valid() && (out.outHdr != NO_PACKET ==> last == Some(out.Open().value.kind))
    requires calm ==> out.empties == 0 && (out.outHdr == NO_PACKET ==> out.outPos == 0)
    requires calm && data != [] && last.Some? ==> last.value == kind
    modifies out, out.outBuf, out.conn`sent, out.conn`patience, out.conn`faults
    ensures out.conn.faults == old(out.conn.faults) + (if ok then 0 else 1) && (out.conn.reliable ==> ok)
    ensures out.id == old(out.id) && out.start == old(out.start)
    ensures ok ==> out.Valid() && out.written == old(out.written) + Tag(kind, data)
    ensures ok && calm ==> out.empties == 0 && (out.outHdr == NO_PACKET ==> out.outPos == 0)
    ensures ok && out.outHdr != NO_PACKET ==> (if data == [] then last else Some(kind)) == Some(out.Open().value.kind)
  {
    if data == [] {
      var r := out.Write(kind, data, 0);
      assert out.written + Tag(kind, data) == out.written;
      return true;
    }
    assert data[..|data|] == data;
    var r := out.Write(kind, data, |data|);
    ok := r >= 0;
  }

  lemma {:induction false} OpFlushed(ops: seq<Op>, i: nat)
    requires i < |ops| && ops[i].FlushOp?
    ensures Stream(Wrote(ops[..i + 1])) == Stream(Wrote(ops[..i])) && LastType(ops[..i + 1]).None?
  {
    assert ops[..i + 1][..i] == ops[..i];
  }

  lemma {:induction false} OpWritten(ops: seq<Op>, i: nat)
    requires i < |ops| && ops[i].WriteOp?
    ensures Stream(Wrote(ops[..i + 1])) == Stream(Wrote(ops[..i])) + Tag(ops[i].kind, ops[i].data)
    ensures LastType(ops[..i + 1]) == if ops[i].data == [] then LastType(ops[..i]) else Some(ops[i].kind)
    ensures FlushesBeforeSwitch(ops) && ops[i].data != [] && LastType(ops[..i]).Some? ==>
      LastType(ops[..i]).value == ops[i].kind
  {
    assert ops[..i + 1][..i] == ops[..i];
    StreamSnoc(Wrote(ops[..i]), Chunk(ops[i].kind, ops[i].data));
  }
}
