/** The FastCGI request body reader: cgi/fastcgi.c, fcgi_read. */
module FcgiInput {
  import opened Basics
  import opened Records
  import opened Transport

  /** The reader's fields and the bytes that are still to come from the peer. */
  datatype In = In(inLen: nat, inPad: nat, incoming: seq<Byte>)

  /** One turn of the reader's loop: `data` is stored; either the loop goes on, or the call returns. */
  datatype Turn =
    | Go(data: seq<Byte>, next: In)
    | Stop(data: seq<Byte>, next: In, ret: nat, broken: bool)

  /** What a call of fcgi_read returns and stores; `broken` when it gives up keep-alive. */
  datatype ReadResult = ReadResult(ret: nat, got: seq<Byte>, next: In, broken: bool)

  function Min(a: nat, b: nat): nat {
    if a < b then a else b
  }

  /** A header that fcgi_read accepts. */
  predicate IsStdinHeader(h: seq<Byte>) {
    |h| == HEADER_SIZE && h[0] >= 1 && h[1] == FCGI_STDIN
  }

  /** One turn, with `rest` bytes wanted and n already stored. */
  function NextTurn(st: In, rest: nat, n: nat): (t: Turn)
    requires rest > 0
    ensures |t.data| <= rest && (t.Go? ==> t.data != [])
  {
    if st.inLen > 0 then TakeContent(st, rest, n)
    else
      var hdr, after := st.incoming[..Min(HEADER_SIZE, |st.incoming|)], st.incoming[Min(HEADER_SIZE, |st.incoming|)..];
      if !IsStdinHeader(hdr) then Stop([], st.(incoming := after), 0, true)
      else if Word(hdr[4], hdr[5]) == 0 then Stop([], In(0, hdr[6], after), n, false)
      else TakeContent(In(Word(hdr[4], hdr[5]), hdr[6], after), rest, n)
  }

  function TakeContent(st: In, rest: nat, n: nat): (t: Turn)
    requires st.inLen > 0 && rest > 0
    ensures |t.data| <= rest && (t.Go? ==> t.data != [])
  {
    var take := Min(Min(st.inLen, rest), |st.incoming|);
    var data, after := st.incoming[..take], st.incoming[take..];
    if take == 0 then Stop([], st, n, false)
    else if take < st.inLen then Stop(data, In(st.inLen - take, st.inPad, after), n + take, false)
    else if |after| < st.inPad then Stop(data, In(0, st.inPad, []), take, true)
    else Go(data, In(0, st.inPad, after[st.inPad..]))
  }

  /** The reader's loop; `got` is what the earlier turns have stored. */
  function ReadOn(st: In, rest: nat, got: seq<Byte>): ReadResult
    decreases rest, 1
  {
    if rest == 0 then ReadResult(|got|, got, st, false) else After(NextTurn(st, rest, |got|), rest, got)
  }

  function After(t: Turn, rest: nat, got: seq<Byte>): ReadResult
    requires |t.data| <= rest && (t.Go? ==> t.data != [])
    decreases rest, 0
  {
    match t
    case Go(data, next) => ReadOn(next, rest - |data|, got + data)
    case Stop(data, next, ret, broken) => ReadResult(ret, got + data, next, broken)
  }

  lemma {:induction false} ReadGo(st: In, rest: nat, got: seq<Byte>, data: seq<Byte>, next: In)
    requires rest > 0 && NextTurn(st, rest, |got|) == Go(data, next)
    ensures |data| <= rest && ReadOn(st, rest, got) == ReadOn(next, rest - |data|, got + data)
  {
  }

  lemma {:induction false} ReadStop(st: In, rest: nat, got: seq<Byte>, data: seq<Byte>, next: In, ret: nat,
      broken: bool)
    requires rest > 0 && NextTurn(st, rest, |got|) == Stop(data, next, ret, broken)
    ensures ReadOn(st, rest, got) == ReadResult(ret, got + data, next, broken)
  {
  }

  /** The result is never more than was asked for. */
  lemma {:induction false} NeverMore(st: In, rest: nat, got: seq<Byte>)
    ensures ReadOn(st, rest, got).ret <= |got| + rest
    decreases rest, 1
  {
    if rest > 0 {
      TurnReturns(st, rest, |got|);
      AfterReturns(NextTurn(st, rest, |got|), rest, got);
    }
  }

  lemma {:induction false} AfterReturns(t: Turn, rest: nat, got: seq<Byte>)
    requires |t.data| <= rest && (if t.Go? then t.data != [] else t.ret <= |got| + rest)
    ensures After(t, rest, got).ret <= |got| + rest
    decreases rest, 0
  {
    if t.Go? {
      NeverMore(t.next, rest - |t.data|, got + t.data);
    }
  }

  lemma {:induction false} TurnReturns(st: In, rest: nat, n: nat)
    requires rest > 0
    ensures NextTurn(st, rest, n).Stop? ==> NextTurn(st, rest, n).ret <= n + rest
  {
  }

  /** Some bytes were enough for a turn after which the loop goes on: then more behind them do not matter. */
  lemma {:induction false} GoLonger(st: In, more: seq<Byte>, rest: nat, n: nat)
    requires rest > 0 && NextTurn(st, rest, n).Go? && NextTurn(st, rest, n).next.incoming == []
    ensures NextTurn(st.(incoming := st.incoming + more), rest, n)
         == Go(NextTurn(st, rest, n).data, NextTurn(st, rest, n).next.(incoming := more))
  {
    if st.inLen == 0 {
      var after := st.incoming[HEADER_SIZE..];
      Behind(st.incoming, more, HEADER_SIZE);
      GoLongerContent(In(Word(st.incoming[4], st.incoming[5]), st.incoming[6], after), more, rest, n);
    } else {
      GoLongerContent(st, more, rest, n);
    }
  }

  lemma {:induction false} GoLongerContent(st: In, more: seq<Byte>, rest: nat, n: nat)
    requires st.inLen > 0 && rest > 0 && TakeContent(st, rest, n).Go? && TakeContent(st, rest, n).next.incoming == []
    ensures TakeContent(st.(incoming := st.incoming + more), rest, n)
         == Go(TakeContent(st, rest, n).data, TakeContent(st, rest, n).next.(incoming := more))
  {
    Behind(st.incoming, more, st.inLen);
    Behind(st.incoming[st.inLen..], more, st.inPad);
  }

  lemma {:induction false} Behind(s: seq<Byte>, more: seq<Byte>, n: nat)
    requires n <= |s|
    ensures (s + more)[..n] == s[..n] && (s + more)[n..] == s[n..] + more
    ensures n == |s| ==> s[n..] + more == more
  {
  }

  /** The stream of a reader that has used `came` up and that now sees s. */
  function Seen(came: seq<Byte>, s: seq<Byte>): seq<Byte> {
    came + s
  }

  /** A reader that began at `st`, with `want` bytes to read, has used the bytes `came` up and stands at the others. */
  ghost predicate Leads(st: In, came: seq<Byte>, want: nat, inLen: nat, inPad: nat, rest: nat, got: seq<Byte>) {
    forall s: seq<Byte> {:trigger Seen(came, s)} ::
      ReadOn(st.(incoming := Seen(came, s)), want, []) == ReadOn(In(inLen, inPad, s), rest, got)
  }

  lemma {:induction false} LeadsStart(st: In, want: nat)
    ensures Leads(st, [], want, st.inLen, st.inPad, want, [])
  {
    forall s: seq<Byte>
      ensures ReadOn(st.(incoming := Seen([], s)), want, []) == ReadOn(In(st.inLen, st.inPad, s), want, [])
    {
      assert Seen([], s) == s;
    }
  }

  lemma {:induction false} LeadsOn(st: In, came: seq<Byte>, want: nat, inLen: nat, inPad: nat, rest: nat,
      got: seq<Byte>, part: seq<Byte>, data: seq<Byte>, inLen': nat, inPad': nat)
    requires Leads(st, came, want, inLen, inPad, rest, got) && rest > 0
    requires NextTurn(In(inLen, inPad, part), rest, |got|) == Go(data, In(inLen', inPad', []))
    ensures Leads(st, came + part, want, inLen', inPad', rest - |data|, got + data)
  {
    var came' := came + part;
    forall s: seq<Byte>
      ensures ReadOn(st.(incoming := Seen(came', s)), want, [])
        == ReadOn(In(inLen', inPad', s), rest - |data|, got + data)
    {
      Assoc(came, part, s);
      assert Seen(came', s) == Seen(came, part + s);
      GoLonger(In(inLen, inPad, part), s, rest, |got|);
      ReadGo(In(inLen, inPad, part + s), rest, got, data, In(inLen', inPad', s));
    }
  }

  /** What a read of `want` bytes says when it ends here. */
  lemma {:induction false} LeadsTo(st: In, came: seq<Byte>, want: nat, inLen: nat, inPad: nat, rest: nat,
      got: seq<Byte>, s: seq<Byte>)
    requires Leads(st, came, want, inLen, inPad, rest, got)
    ensures ReadOn(st.(incoming := came + s), want, []) == ReadOn(In(inLen, inPad, s), rest, got)
  {
    assert Seen(came, s) == came + s;
  }

  class Input {
    const conn: Connection
    var inLen: nat
    var inPad: nat
    var keep: bool

    constructor (conn: Connection)
      ensures this.conn == conn && inLen == 0 && inPad == 0 && !keep
    {
      this.conn := conn;
      this.inLen, this.inPad, this.keep := 0, 0, false;
    }

    ghost function State(): In
      reads this, conn
    {
      In(inLen, inPad, conn.incoming)
    }

    /**
     * The reader does what ReadOn says, whatever the peer sends and however reads are cut, unless there is a hard
     * error. Then keep-alive is given up, and a result that is not negative is the one for a stream that ends early,
     * with `seen`.
     */
    method Read(str: array<Byte>, len: int) returns (ret: int, ghost seen: seq<Byte>)
      requires len <= str.Length
      modifies this`inLen, this`inPad, this`keep, str, conn`patience, conn`incoming, conn`faults
      ensures conn.faults >= old(conn.faults) && (conn.reliable ==> conn.faults == old(conn.faults))
      ensures conn.faults > old(conn.faults) ==> !keep
      ensures ret < 0 ==> !keep && conn.faults > old(conn.faults)
      ensures seen <= old(conn.incoming) && (conn.faults == old(conn.faults) ==> seen == old(conn.incoming))
      ensures var res := ReadOn(old(State()).(incoming := seen), if len > 0 then len else 0, []);
        && (ret >= 0 ==> ret == res.ret && keep == (old(keep) && !res.broken))
        && (ret >= 0 ==> inLen == res.next.inLen && inPad == res.next.inPad)
        && (ret >= 0 ==> |res.got| <= str.Length && str[..|res.got|] == res.got)
        && (conn.faults == old(conn.faults) ==>
          State() == res.next && forall i :: |res.got| <= i < str.Length ==> str[i] == old(str[i]))
    {
      var n, rest := 0, if len > 0 then len else 0;
      ghost var st, want, got, came := State(), rest, [], [];
      LeadsStart(st, want);
      assert came + conn.incoming == conn.incoming;
      while rest > 0
        invariant 0 <= n && 0 <= rest && n + rest == want <= str.Length
        invariant keep == old(keep) && conn.faults == old(conn.faults)
        invariant str[..n] == got && |got| == n
        invariant came + conn.incoming == st.incoming
        invariant Leads(st, came, want, inLen, inPad, rest, got)
        invariant forall i :: n <= i < str.Length ==> str[i] == old(str[i])
        decreases rest
      {
        var result, data, part := Turn(rest, n, st, came, want, got);
        Store(str, n, data);
        Assoc(came, part, conn.incoming);
        came := came + part;
        if result.Some? {
          return result.value, came;
        }
        got, n, rest := got + data, n + |data|, rest - |data|;
      }
      LeadsTo(st, came, want, inLen, inPad, rest, got, conn.incoming);
      return n, st.incoming;
    }

    /** One turn of the loop, as a part of the whole read. */
    method Turn(rest: nat, n: nat, ghost st: In, ghost came: seq<Byte>, ghost want: nat, ghost got: seq<Byte>)
      returns (result: Option<int>, data: seq<Byte>, ghost part: seq<Byte>)
      requires rest > 0 && |got| == n && Leads(st, came, want, inLen, inPad, rest, got)
      modifies this`inLen, this`inPad, this`keep, conn`patience, conn`incoming, conn`faults
      ensures |data| <= rest && part <= old(conn.incoming)
      ensures result.None? ==>
        && part + conn.incoming == old(conn.incoming) && keep == old(keep) && data != []
        && Leads(st, came + part, want, inLen, inPad, rest - |data|, got + data)
      ensures conn.faults >= old(conn.faults) && (conn.reliable ==> conn.faults == old(conn.faults))
      ensures conn.faults > old(conn.faults) ==> result.Some? && !keep
      ensures result.Some? && result.value < 0 ==> !keep && conn.faults > old(conn.faults)
      ensures result.Some? && result.value >= 0 ==>
        var res := ReadOn(st.(incoming := came + part), want, []);
        && res.got == got + data && result.value == res.ret && keep == (old(keep) && !res.broken)
        && inLen == res.next.inLen && inPad == res.next.inPad
        && (conn.faults == old(conn.faults) ==> part == old(conn.incoming) && State() == res.next)
    {
      result, data, part := Advance(rest, n);
      if result.None? {
        LeadsOn(st, came, want, old(inLen), old(inPad), rest, got, part, data, inLen, inPad);
      } else {
        LeadsTo(st, came, want, old(inLen), old(inPad), rest, got, part);
      }
    }

    /**
     * One turn of the loop: a header if one is due, then content, then padding behind the last byte. `part` are the
     * bytes that decided.
     */
    method Advance(rest: nat, n: nat) returns (result: Option<int>, data: seq<Byte>, ghost part: seq<Byte>)
      requires rest > 0
      modifies this`inLen, this`inPad, this`keep, conn`patience, conn`incoming, conn`faults
      ensures |data| <= rest && part <= old(conn.incoming)
      ensures result.None? ==>
        && part + conn.incoming == old(conn.incoming) && keep == old(keep)
        && NextTurn(In(old(inLen), old(inPad), part), rest, n) == Go(data, In(inLen, inPad, [])) && data != []
      ensures conn.faults >= old(conn.faults) && (conn.reliable ==> conn.faults == old(conn.faults))
      ensures conn.faults > old(conn.faults) ==> result.Some? && !keep
      ensures result.Some? && result.value < 0 ==> !keep && conn.faults > old(conn.faults)
      ensures result.Some? && result.value >= 0 ==>
        var t := NextTurn(In(old(inLen), old(inPad), part), rest, n);
        && t.Stop? && data == t.data && result.value == t.ret && keep == (old(keep) && !t.broken)
        && inLen == t.next.inLen && inPad == t.next.inPad
        && (conn.faults == old(conn.faults) ==> part == old(conn.incoming) && State() == t.next)
    {
      if inLen > 0 {
        result, data, part := ReadContent(rest, n);
        return;
      }
      ghost var all := conn.incoming;
      var got, hdr := SafeRead(conn, HEADER_SIZE);
      if got != HEADER_SIZE {
        keep := false;
        return Some(0), [], hdr;
      }
      Behind(hdr, conn.incoming, HEADER_SIZE);
      if hdr[0] < 1 || hdr[1] != FCGI_STDIN {
        keep := false;
        return Some(0), [], all;
      }
      inLen, inPad := Word(hdr[4], hdr[5]), hdr[6];
      if inLen == 0 {
        return Some(n), [], all;
      }
      ghost var content;
      result, data, content := ReadContent(rest, n);
      part := hdr + content;
      Behind(hdr, content, HEADER_SIZE);
      Assoc(hdr, content, conn.incoming);
    }

    method ReadContent(rest: nat, n: nat) returns (result: Option<int>, data: seq<Byte>, ghost part: seq<Byte>)
      requires inLen > 0 && rest > 0
      modifies this`inLen, this`keep, conn`patience, conn`incoming, conn`faults
      ensures |data| <= rest && part <= old(conn.incoming)
      ensures result.None? ==>
        && part + conn.incoming == old(conn.incoming) && keep == old(keep)
        && TakeContent(In(old(inLen), old(inPad), part), rest, n) == Go(data, In(inLen, inPad, [])) && data != []
      ensures conn.faults >= old(conn.faults) && (conn.reliable ==> conn.faults == old(conn.faults))
      ensures conn.faults > old(conn.faults) ==> result.Some? && !keep
      ensures result.Some? && result.value < 0 ==> !keep && conn.faults > old(conn.faults)
      ensures result.Some? && result.value >= 0 ==>
        var t := TakeContent(In(old(inLen), old(inPad), part), rest, n);
        && t.Stop? && data == t.data && result.value == t.ret && keep == (old(keep) && !t.broken)
        && inLen == t.next.inLen && inPad == t.next.inPad
        && (conn.faults == old(conn.faults) ==> part == old(conn.incoming) && State() == t.next)
    {
      var got;
      ghost var all := conn.incoming;
      got, data := SafeRead(conn, if inLen >= rest then rest else inLen);
      if got < 0 {
        keep := false;
        return Some(got), [], [];
      }
      if got == 0 {
        return Some(n), [], [];
      }
      Behind(data, conn.incoming, got);
      inLen := inLen - got;
      if inLen > 0 {
        return Some(n + got), data, all;
      }
      part := data;
      if inPad > 0 {
        var skipped, pad := SafeRead(conn, inPad);
        part := data + pad;
        Behind(data, pad, got);
        Assoc(data, pad, conn.incoming);
        if skipped != inPad {
          keep := false;
          return Some(got), data, part;
        }
      }
      return None, data, part;
    }
  }

  /** The bytes of one safe_read, at their place in the caller's buffer. */
  method Store(str: array<Byte>, at: nat, data: seq<Byte>)
    requires at + |data| <= str.Length
    modifies str
    ensures str[..at + |data|] == old(str[..at]) + data
    ensures forall i :: at + |data| <= i < str.Length ==> str[i] == old(str[i])
  {
    forall i | 0 <= i < |data| {
      str[at + i] := data[i];
    }
  }
}
