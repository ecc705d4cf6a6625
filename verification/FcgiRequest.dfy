/** Reading the head of a request: cgi/fastcgi.c, fcgi_get_params and fcgi_read_request. */
module FcgiRequest {
  import opened Basics
  import opened Records
  import opened Transport
  import opened FcgiParams
  import FcgiOutput
  import FcgiInput

  const FCGI_BEGIN_REQUEST: Byte := 1
  const FCGI_PARAMS: Byte := 4
  const FCGI_GET_VALUES: Byte := 9
  const SLACK := 8
  const BUFFER := MAX_LENGTH + SLACK   // sizeof(buf)

  // ---- Pairs in a buffer --------------------------------------------------------------------

  /** A C int that holds the sum of two non-negative ints. */
  function Wrap32(x: int): int {
    if x >= 0x80000000 then x - 0x100000000 else x
  }

  /** The test made on the wrapped sum rejects exactly what does not fit, even when the sum wraps. */
  lemma {:induction false} WrapRejectsExactly(n: nat, v: nat, room: int)
    requires n < 0x80000000 && v < 0x80000000 && room < 0x80000000
    ensures Wrap32(n + v) < 0 || Wrap32(n + v) > room <==> n + v > room
  {
    if n + v >= 0x80000000 {
      assert Wrap32(n + v) < 0;
    }
  }

  /**
   * A pair is decoded from a buffer whose first `room` bytes count. Lengths may be read from the slack
   * behind them; such a pair never fits.
   */
  lemma {:induction false} PairInBuffer(t: Bytes, room: nat, n: Length, v: Length, m: nat)
    requires 0 < room && room + 7 <= |t| && m == n.size + v.size
    requires DecodeLength(t) == Some(n) && DecodeLength(t[n.size..]) == Some(v)
    ensures DecodePair(t[..room])
         == (if m + n.value + v.value > room then None
             else Some((Pair(t[m..][..n.value], t[m + n.value..][..v.value]), m + n.value + v.value)))
  {
    var s := t[..room];
    if n.size > room {
      return;
    }
    LengthInPrefix(t, room, n);
    DropTake(t, n.size, room);
    if n.size == room || v.size > room - n.size {
      return;
    }
    LengthInPrefix(t[n.size..], room - n.size, v);
    DropTake(t[n.size..], v.size, room - n.size);
    DropDrop(t, n.size, v.size);
    DecodeParts(s, n, v, t[m..][..room - m]);
    if n.value + v.value > room - m {
      return;
    }
    BodyOfPair(t[m..], room - m, n.value, v.value);
    DropDrop(t, m, n.value);
  }

  lemma {:induction false} DecodeParts(s: Bytes, n: Length, v: Length, body: Bytes)
    requires DecodeLength(s) == Some(n) && DecodeLength(s[n.size..]) == Some(v) && body == s[n.size..][v.size..]
    ensures DecodePair(s)
         == (if n.value + v.value > |body| then None
             else Some((Pair(body[..n.value], body[n.value..n.value + v.value]),
                        n.size + v.size + n.value + v.value)))
  {
  }

  lemma {:induction false} DropTake(t: Bytes, i: nat, j: nat)
    requires i <= j <= |t|
    ensures t[..j][i..] == t[i..][..j - i]
  {
  }

  lemma {:induction false} DropDrop(t: Bytes, i: nat, j: nat)
    requires i + j <= |t|
    ensures t[i..][j..] == t[i + j..]
  {
  }

  lemma {:induction false} BodyOfPair(t: Bytes, room: nat, n: nat, v: nat)
    requires n + v <= room <= |t|
    ensures t[..room][..n] == t[..n]
    ensures t[..room][n..n + v] == t[n..][..v]
  {
  }

  lemma {:induction false} LengthInPrefix(t: Bytes, room: nat, n: Length)
    requires room <= |t| && DecodeLength(t) == Some(n) && n.size <= room
    ensures DecodeLength(t[..room]) == Some(n)
  {
  }

  /** One length field, as one byte or as four. */
  method ReadLength(buf: array<Byte>, p: nat) returns (n: nat, q: nat)
    requires p + 4 <= buf.Length
    ensures n < 0x80000000 && p < q <= p + 4
    ensures DecodeLength(buf[p..]) == Some(Length(n, q - p))
  {
    n, q := buf[p], p + 1;
    if n >= 128 {
      n := Long(buf[p], buf[p + 1], buf[p + 2], buf[p + 3]);
      q := p + 4;
    }
  }

  lemma {:induction false} FoldStep(env: Env, s: Bytes, pair: Pair, size: nat)
    requires 0 < size <= |s| && DecodePair(s) == Some((pair, size))
    ensures Split(s).1 == Split(s[size..]).1
    ensures env.Fold(Split(s).0) == env.Update(pair).Fold(Split(s[size..]).0)
  {
    var left, left' := Split(s).0, Split(s[size..]).0;
    assert left == [pair] + left' && left[1..] == left';
  }

  lemma {:induction false} SplitStops(s: Bytes)
    requires s != [] && DecodePair(s).None?
    ensures Split(s) == ([], false)
  {
  }

  lemma {:induction false} SliceAgain(b: Bytes, p: nat, r: nat, n: nat)
    requires p <= r && r + n <= |b|
    ensures b[p..][r - p..] == b[r..]
    ensures b[p..][r - p..][..n] == b[r..r + n]
  {
  }

  lemma {:induction false} PairAt(b: Bytes, p: nat, end: nat, n: nat, q: nat, v: nat, at: nat)
    requires p < end && end + 7 <= |b| && p < q < at <= |b|
    requires DecodeLength(b[p..]) == Some(Length(n, q - p))
    requires DecodeLength(b[q..]) == Some(Length(v, at - q))
    ensures DecodePair(b[p..end])
         == (if n + v > end - at then None
             else Some((Pair(b[at..at + n], b[at + n..at + n + v]), at + n + v - p)))
  {
    assert b[p..][..end - p] == b[p..end];
    PairAtEnd(b, p, end, Length(n, q - p), q, Length(v, at - q), at - p);
    if n + v <= end - at {
      SlicesAgain(b, p, at - p, at, n, v);
    }
  }

  lemma {:induction false} SlicesAgain(b: Bytes, p: nat, m: nat, at: nat, n: nat, v: nat)
    requires at == p + m && at + n + v <= |b|
    ensures b[p..][m..][..n] == b[at..at + n] && b[p..][m + n..][..v] == b[at + n..at + n + v]
  {
    SliceAgain(b, p, at, n);
    SliceAgain(b, p, at + n, v);
  }

  lemma {:induction false} PairAtEnd(b: Bytes, p: nat, end: nat, n: Length, q: nat, v: Length, m: nat)
    requires p < end && end + 7 <= |b| && q == p + n.size && m == n.size + v.size
    requires DecodeLength(b[p..]) == Some(n) && DecodeLength(b[q..]) == Some(v)
    ensures DecodePair(b[p..][..end - p])
         == (if m + n.value + v.value > end - p then None
             else Some((Pair(b[p..][m..][..n.value], b[p..][m + n.value..][..v.value]), m + n.value + v.value)))
  {
    SliceAgain(b, p, q, 0);
    PairInBuffer(b[p..], end - p, n, v, m);
  }

  /** The lengths of the first pair and the test whether the pair is whole; its name would begin at `at`. */
  method MeasurePair(buf: array<Byte>, p: nat, end: nat)
    returns (whole: bool, at: nat, nameLen: nat, valLen: nat, ghost pair: Pair)
    requires p < end && end + 7 <= buf.Length < 0x80000000
    ensures !whole ==> DecodePair(buf[p..end]).None?
    ensures whole ==> p < at && at + nameLen + valLen <= end
    ensures whole ==> buf[at..at + nameLen] == pair.name && buf[at + nameLen..at + nameLen + valLen] == pair.value
    ensures whole ==> DecodePair(buf[p..end]) == Some((pair, at + nameLen + valLen - p))
  {
    var q;
    nameLen, q := ReadLength(buf, p);
    valLen, at := ReadLength(buf, q);
    ghost var b := buf[..];
    assert b[p..] == buf[p..] && b[q..] == buf[q..] && b[p..end] == buf[p..end];
    PairAt(b, p, end, nameLen, q, valLen, at);
    WrapRejectsExactly(nameLen, valLen, end - at);
    whole := !(Wrap32(nameLen + valLen) < 0 || Wrap32(nameLen + valLen) > end - at);
    pair := Pair([], []);
    if whole {
      pair := Pair(b[at..at + nameLen], b[at + nameLen..at + nameLen + valLen]);
    }
  }

  /** The name is copied to a buffer that grows when the name and its final NUL do not fit. */
  method CopyName(tmp0: array<Byte>, name: Bytes) returns (tmp: array<Byte>)
    requires tmp0.Length >= 2
    modifies tmp0
    ensures tmp == tmp0 || fresh(tmp)
    ensures |name| + 1 <= tmp.Length && tmp.Length >= 2
    ensures tmp[..|name|] == name && tmp[|name|] == 0
  {
    tmp := tmp0;
    if |name| + 1 >= tmp.Length {
      tmp := new Byte[|name| + 64];
    }
    FcgiInput.Store(tmp, 0, name);
    assert tmp[..|name|] == name;
    tmp[|name|] := 0;
  }

  /** The first pair of buf[p..end], if there is a whole one. */
  method TakePair(buf: array<Byte>, tmp0: array<Byte>, p: nat, end: nat, ghost s: Bytes)
    returns (pair: Option<Pair>, size: nat, tmp: array<Byte>)
    requires p < end && end + 7 <= buf.Length < 0x80000000 && s == buf[p..end]
    requires tmp0 != buf && tmp0.Length >= 2
    modifies tmp0
    ensures (tmp == tmp0 || fresh(tmp)) && tmp.Length >= 2
    ensures pair.None? ==> DecodePair(s).None?
    ensures pair.Some? ==> 0 < size <= end - p && DecodePair(s) == Some((pair.value, size))
  {
    tmp, size := tmp0, 0;
    var whole, at, nameLen, valLen, decoded := MeasurePair(buf, p, end);
    if !whole {
      return None, size, tmp;
    }
    tmp := CopyName(tmp, buf[at..at + nameLen]);
    size := at + nameLen + valLen - p;
    pair := Some(Pair(tmp[..nameLen], buf[at + nameLen..at + nameLen + valLen]));
    assert pair.value == decoded;
  }

  /**
   * Reads the pairs of buf[start..end] into the table: true if and only if they are complete pairs to
   * the last byte. At most 7 bytes behind `end` are looked at.
   */
  method GetParams(env0: Env, buf: array<Byte>, start: nat, end: nat) returns (ok: bool, env: Env)
    requires start <= end && end + 7 <= buf.Length < 0x80000000
    ensures ok == Split(buf[start..end]).1
    ensures env == env0.Fold(Split(buf[start..end]).0)
  {
    var tmp := new Byte[128];
    var p := start;
    env := env0;
    while p < end
      invariant start <= p <= end
      invariant tmp.Length >= 2 && fresh(tmp)
      invariant Split(buf[p..end]).1 == Split(buf[start..end]).1
      invariant env.Fold(Split(buf[p..end]).0) == env0.Fold(Split(buf[start..end]).0)
    {
      var whole;
      whole, env, p, tmp := TakeInto(env, buf, tmp, p, end);
      if !whole {
        return false, env;
      }
    }
    return true, env;
  }

  /** One turn of the loop: a pair goes into the table, unless none is whole. */
  method TakeInto(env: Env, buf: array<Byte>, tmp0: array<Byte>, p: nat, end: nat)
    returns (whole: bool, env': Env, q: nat, tmp: array<Byte>)
    requires p < end && end + 7 <= buf.Length < 0x80000000
    requires tmp0 != buf && tmp0.Length >= 2
    modifies tmp0
    ensures (tmp == tmp0 || fresh(tmp)) && tmp.Length >= 2
    ensures !whole ==> Split(buf[p..end]) == ([], false) && env' == env
    ensures whole ==> p < q <= end && Split(buf[q..end]).1 == Split(buf[p..end]).1
    ensures whole ==> env'.Fold(Split(buf[q..end]).0) == env.Fold(Split(buf[p..end]).0)
  {
    ghost var s := buf[p..end];
    var pair, size;
    pair, size, tmp := TakePair(buf, tmp0, p, end, s);
    if pair.None? {
      SplitStops(s);
      return false, env, p, tmp;
    }
    q := p + size;
    assert buf[q..end] == s[size..];
    FoldStep(env, s, pair.value, size);
    return true, env.Update(pair.value), q, tmp;
  }

  // ---- The reply to GET_VALUES --------------------------------------------------------------

  /** The variables that are asked for and known, in the order in which they were first asked for. */
  function Known(order: seq<Bytes>, vars: map<Bytes, Bytes>): (r: seq<Pair>)
    ensures forall i :: 0 <= i < |r| ==> r[i].name in order && r[i].name in vars && vars[r[i].name] == r[i].value
  {
    if order == [] then []
    else
      (if order[0] in vars then [Pair(order[0], vars[order[0]])] else []) + Known(order[1..], vars)
  }

  /** The encoder's choice: one byte for a length below 128, otherwise four. */
  function Shortest(pairs: seq<Pair>): (ws: seq<Wire>)
    ensures |ws| == |pairs| && Pairs(ws) == pairs
  {
    if pairs == [] then [] else [ShortestWire(pairs[0])] + Shortest(pairs[1..])
  }

  function ShortestWire(p: Pair): Wire {
    Wire(p, |p.name| >= 128, |p.value| >= 128)
  }

  /** The bytes that the guard of the encoder's loop sets aside for a pair. */
  function SetAside(p: Pair): nat {
    4 + 4 + |p.name| + |p.value|
  }

  method PutLength(buf: array<Byte>, p: nat, n: nat) returns (q: nat)
    requires p + 4 <= buf.Length && n < 0x80000000
    modifies buf
    ensures p < q <= p + 4
    ensures buf[..q] == old(buf[..p]) + EncodeLength(n, n >= 128)
  {
    if n < 128 {
      FcgiInput.Store(buf, p, [n]);
      q := p + 1;
    } else {
      FcgiInput.Store(buf, p, [128 + n / 0x1000000, n / 0x10000 % 0x100, n / 0x100 % 0x100, n % 0x100]);
      q := p + 4;
    }
  }

  method PutPair(buf: array<Byte>, p: nat, pair: Pair) returns (q: nat)
    requires HEADER_SIZE <= p && p + SetAside(pair) <= buf.Length < 0x80000000
    modifies buf
    ensures p <= q <= p + SetAside(pair)
    ensures ShortestWire(pair).Valid() && q == p + |ShortestWire(pair).Encode()|
    ensures buf[HEADER_SIZE..q] == old(buf[HEADER_SIZE..p]) + ShortestWire(pair).Encode()
  {
    ghost var head, start := buf[..HEADER_SIZE], buf[HEADER_SIZE..p];
    assert buf[..p] == head + start;
    var name, value := pair.name, pair.value;
    ghost var n, v := EncodeLength(|name|, |name| >= 128), EncodeLength(|value|, |value| >= 128);
    ghost var code := ShortestWire(pair).Encode();
    assert code == n + (v + (name + value));
    q := PutLength(buf, p, |name|);
    q := PutLength(buf, q, |value|);
    FcgiInput.Store(buf, q, name);
    q := q + |name|;
    FcgiInput.Store(buf, q, value);
    q := q + |value|;
    ghost var now := buf[..q];
    SixParts(now, head, start, n, v, name, value);
    assert now[HEADER_SIZE..] == buf[HEADER_SIZE..q] == start + code;
  }

  lemma {:induction false} SixParts(all: Bytes, head: Bytes, start: Bytes, n: Bytes, v: Bytes, name: Bytes,
      value: Bytes)
    requires all == head + start + n + v + name + value
    ensures all[|head|..] == start + (n + (v + (name + value)))
  {
    Assoc(head + start + n + v, name, value);
    Assoc(head + start + n, v, name + value);
    Assoc(head + start, n, v + (name + value));
    Assoc(head, start, n + (v + (name + value)));
    AppendDrop(head, start + (n + (v + (name + value))));
  }

  lemma {:induction false} ShortestSnoc(pairs: seq<Pair>, p: Pair)
    requires AllValid(Shortest(pairs)) && ShortestWire(p).Valid()
    ensures AllValid(Shortest(pairs + [p]))
    ensures EncodeWires(Shortest(pairs + [p])) == EncodeWires(Shortest(pairs)) + ShortestWire(p).Encode()
    decreases |pairs|
  {
    var all := pairs + [p];
    if pairs == [] {
      assert all == [p] && Shortest(all) == [ShortestWire(p)] + Shortest([]);
    } else {
      assert all[0] == pairs[0] && all[1..] == pairs[1..] + [p];
      var w, ws := ShortestWire(pairs[0]), Shortest(pairs[1..]);
      assert Shortest(pairs) == [w] + ws;
      assert w == Shortest(pairs)[0] && forall i :: 0 <= i < |ws| ==> ws[i] == Shortest(pairs)[i + 1];
      ShortestSnoc(pairs[1..], p);
      var more := Shortest(pairs[1..] + [p]);
      assert Shortest(all) == [w] + more && ([w] + more)[1..] == more && ([w] + ws)[1..] == ws;
      Assoc(w.Encode(), EncodeWires(ws), ShortestWire(p).Encode());
    }
  }

  lemma {:induction false} KnownSnoc(order: seq<Bytes>, name: Bytes, vars: map<Bytes, Bytes>)
    ensures Known(order + [name], vars) == Known(order, vars) + (if name in vars then [Pair(name, vars[name])] else [])
    decreases |order|
  {
    var all := order + [name];
    if order == [] {
      assert all[1..] == [];
    } else {
      assert all[0] == order[0] && all[1..] == order[1..] + [name];
      KnownSnoc(order[1..], name, vars);
    }
  }

  /** What the encoder has put behind the header place after the first `asked` names. */
  ghost predicate Answered(content: Bytes, order: seq<Bytes>, vars: map<Bytes, Bytes>) {
    var ws := Shortest(Known(order, vars));
    AllValid(ws) && content == EncodeWires(ws)
  }

  lemma {:induction false} AnsweredKnown(content: Bytes, order: seq<Bytes>, vars: map<Bytes, Bytes>, name: Bytes,
      pair: Pair)
    requires Answered(content, order, vars) && name in vars && pair == Pair(name, vars[name])
    requires ShortestWire(pair).Valid()
    ensures Answered(content + ShortestWire(pair).Encode(), order + [name], vars)
  {
    KnownSnoc(order, name, vars);
    ShortestSnoc(Known(order, vars), pair);
  }

  lemma {:induction false} AnsweredUnknown(content: Bytes, order: seq<Bytes>, vars: map<Bytes, Bytes>, name: Bytes)
    requires Answered(content, order, vars) && name !in vars
    ensures Answered(content, order + [name], vars)
  {
    KnownSnoc(order, name, vars);
    assert Known(order, vars) + [] == Known(order, vars);
  }

  /** How many names are dealt with before the guard of the encoder's loop trips, with the next byte at p. */
  function Fitting(order: seq<Bytes>, vars: map<Bytes, Bytes>, p: nat): (n: nat)
    ensures n <= |order|
  {
    if order == [] then 0
    else if order[0] !in vars then 1 + Fitting(order[1..], vars, p)
    else
      var pair := Pair(order[0], vars[order[0]]);
      if p + SetAside(pair) >= BUFFER then 0 else 1 + Fitting(order[1..], vars, p + |ShortestWire(pair).Encode()|)
  }

  /** The pairs for n names fit into the buffer from p on, and the pair of the next name might not. */
  ghost predicate StopsAt(order: seq<Bytes>, vars: map<Bytes, Bytes>, p: nat, n: nat)
    requires n <= |order|
  {
    var ws := Shortest(Known(order[..n], vars));
    && AllValid(ws) && p + |EncodeWires(ws)| < BUFFER
    && (n < |order| ==> order[n] in vars && p + |EncodeWires(ws)| + SetAside(Pair(order[n], vars[order[n]])) >= BUFFER)
  }

  lemma {:induction false} FrontOfMore(order: seq<Bytes>, n: nat)
    requires 0 < n <= |order|
    ensures order[..n][0] == order[0] && order[..n][1..] == order[1..][..n - 1]
    ensures n < |order| ==> order[n] == order[1..][n - 1]
  {
  }

  lemma {:induction false} StopsBehindUnknown(order: seq<Bytes>, vars: map<Bytes, Bytes>, p: nat, m: nat, n: nat)
    requires n == m + 1 <= |order| && order[0] !in vars && StopsAt(order[1..], vars, p, m)
    ensures StopsAt(order, vars, p, n)
  {
    FrontOfMore(order, n);
    var rest := Known(order[1..][..m], vars);
    assert Known(order[..n], vars) == [] + rest == rest;
  }

  lemma {:induction false} StopsBehindKnown(order: seq<Bytes>, vars: map<Bytes, Bytes>, p: nat, m: nat, n: nat,
      pair: Pair)
    requires n == m + 1 <= |order| && order[0] in vars && pair == Pair(order[0], vars[order[0]])
    requires ShortestWire(pair).Valid() && StopsAt(order[1..], vars, p + |ShortestWire(pair).Encode()|, m)
    ensures StopsAt(order, vars, p, n)
  {
    FrontOfMore(order, n);
    var rest := Known(order[1..][..m], vars);
    assert Known(order[..n], vars) == [pair] + rest;
    ShortestCons(pair, rest);
  }

  lemma {:induction false} StopsAtOnce(order: seq<Bytes>, vars: map<Bytes, Bytes>, p: nat)
    requires p < BUFFER
    requires order != [] ==> order[0] in vars && p + SetAside(Pair(order[0], vars[order[0]])) >= BUFFER
    ensures StopsAt(order, vars, p, 0)
  {
    assert order[..0] == [];
  }

  lemma {:induction false} FittingFits(order: seq<Bytes>, vars: map<Bytes, Bytes>, p: nat)
    requires p < BUFFER
    ensures StopsAt(order, vars, p, Fitting(order, vars, p))
    decreases |order|
  {
    var n := Fitting(order, vars, p);
    if n == 0 {
      StopsAtOnce(order, vars, p);
    } else if order[0] !in vars {
      var m := Fitting(order[1..], vars, p);
      FittingFits(order[1..], vars, p);
      StopsBehindUnknown(order, vars, p, m, n);
    } else {
      var pair := Pair(order[0], vars[order[0]]);
      WireSize(pair);
      var p' := p + |ShortestWire(pair).Encode()|;
      var m := Fitting(order[1..], vars, p');
      FittingFits(order[1..], vars, p');
      StopsBehindKnown(order, vars, p, m, n, pair);
    }
  }

  lemma {:induction false} ShortestCons(p: Pair, pairs: seq<Pair>)
    requires ShortestWire(p).Valid() && AllValid(Shortest(pairs))
    ensures AllValid(Shortest([p] + pairs))
    ensures EncodeWires(Shortest([p] + pairs)) == ShortestWire(p).Encode() + EncodeWires(Shortest(pairs))
  {
    var w, ws, all := ShortestWire(p), Shortest(pairs), [p] + pairs;
    assert all[0] == p && all[1..] == pairs;
    assert Shortest(all) == [w] + ws && ([w] + ws)[0] == w && ([w] + ws)[1..] == ws;
  }

  /** The names that the reply deals with. */
  function Dealt(order: seq<Bytes>, vars: map<Bytes, Bytes>): seq<Bytes> {
    order[..Fitting(order, vars, HEADER_SIZE)]
  }

  /** The content of the reply to a query for these names. */
  ghost function Content(order: seq<Bytes>, vars: map<Bytes, Bytes>): (c: Bytes)
    ensures Answered(c, Dealt(order, vars), vars) && HEADER_SIZE + |c| < BUFFER
  {
    FittingFits(order, vars, HEADER_SIZE);
    EncodeWires(Shortest(Known(Dealt(order, vars), vars)))
  }

  /** After i names, with the next byte at p. */
  ghost predicate Answering(content: Bytes, order: seq<Bytes>, vars: map<Bytes, Bytes>, i: nat, p: nat)
    requires i <= |order|
  {
    Answered(content, order[..i], vars) && i + Fitting(order[i..], vars, p) == Fitting(order, vars, HEADER_SIZE)
  }

  lemma {:induction false} FittingFrom(order: seq<Bytes>, vars: map<Bytes, Bytes>, i: nat, p: nat)
    requires i < |order|
    ensures order[i] !in vars ==> Fitting(order[i..], vars, p) == 1 + Fitting(order[i + 1..], vars, p)
    ensures order[i] in vars ==>
      var pair := Pair(order[i], vars[order[i]]);
      if p + SetAside(pair) >= BUFFER then Fitting(order[i..], vars, p) == 0
      else
        && ShortestWire(pair).Valid()
        && Fitting(order[i..], vars, p) == 1 + Fitting(order[i + 1..], vars, p + |ShortestWire(pair).Encode()|)
  {
    assert order[i..][0] == order[i] && order[i..][1..] == order[i + 1..];
  }

  lemma {:induction false} FittingKnown(order: seq<Bytes>, vars: map<Bytes, Bytes>, i: nat, p: nat, pair: Pair)
    requires i < |order| && order[i] in vars && pair == Pair(order[i], vars[order[i]]) && p + SetAside(pair) < BUFFER
    ensures ShortestWire(pair).Valid()
    ensures Fitting(order[i..], vars, p) == 1 + Fitting(order[i + 1..], vars, p + |ShortestWire(pair).Encode()|)
  {
    FittingFrom(order, vars, i, p);
  }

  lemma {:induction false} AnsweringUnknown(content: Bytes, order: seq<Bytes>, vars: map<Bytes, Bytes>, i: nat, p: nat)
    requires i < |order| && order[i] !in vars && Answering(content, order, vars, i, p)
    ensures Answering(content, order, vars, i + 1, p)
  {
    AnsweredUnknown(content, order[..i], vars, order[i]);
    TakeSnoc(order, i);
    FittingFrom(order, vars, i, p);
  }

  lemma {:induction false} AnsweringKnown(content: Bytes, order: seq<Bytes>, vars: map<Bytes, Bytes>, i: nat, p: nat,
      pair: Pair)
    requires i < |order| && order[i] in vars && pair == Pair(order[i], vars[order[i]])
    requires Answering(content, order, vars, i, p)
    requires p + SetAside(pair) < BUFFER
    ensures ShortestWire(pair).Valid()
    ensures Answering(content + ShortestWire(pair).Encode(), order, vars, i + 1, p + |ShortestWire(pair).Encode()|)
  {
    FittingKnown(order, vars, i, p, pair);
    AnsweredNext(content, order, vars, i, pair);
  }

  lemma {:induction false} AnsweredNext(content: Bytes, order: seq<Bytes>, vars: map<Bytes, Bytes>, i: nat, pair: Pair)
    requires i < |order| && order[i] in vars && pair == Pair(order[i], vars[order[i]])
    requires Answered(content, order[..i], vars) && ShortestWire(pair).Valid()
    ensures Answered(content + ShortestWire(pair).Encode(), order[..i + 1], vars)
  {
    TakeSnoc(order, i);
    AnsweredKnown(content, order[..i], vars, order[i], pair);
  }

  /** Fills the reply: the known variables in order, up to one for which too little room is left. */
  method Answer(buf: array<Byte>, order: seq<Bytes>, vars: map<Bytes, Bytes>) returns (p: nat)
    requires buf.Length == BUFFER
    modifies buf
    ensures HEADER_SIZE <= p <= buf.Length && buf[HEADER_SIZE..p] == Content(order, vars)
  {
    p := HEADER_SIZE;
    var i := 0;
    ghost var content := [];
    assert order[..0] == [] && order[0..] == order;
    while i < |order|
      invariant HEADER_SIZE <= p <= buf.Length && i <= |order|
      invariant buf[HEADER_SIZE..p] == content && Answering(content, order, vars, i, p)
    {
      var more;
      more, p, content := AnswerOne(buf, order, vars, i, p, content);
      if !more {
        return;
      }
      i := i + 1;
    }
    assert order[..i] == order && order[i..] == [];
  }

  /** One turn of the loop: the next name. */
  method AnswerOne(buf: array<Byte>, order: seq<Bytes>, vars: map<Bytes, Bytes>, i: nat, p: nat, ghost content: Bytes)
    returns (more: bool, q: nat, ghost content': Bytes)
    requires buf.Length == BUFFER && HEADER_SIZE <= p <= buf.Length && i < |order|
    requires buf[HEADER_SIZE..p] == content && Answering(content, order, vars, i, p)
    modifies buf
    ensures HEADER_SIZE <= q <= buf.Length && buf[HEADER_SIZE..q] == content'
    ensures if more then Answering(content', order, vars, i + 1, q) else content' == Content(order, vars)
  {
    if order[i] !in vars {
      AnsweringUnknown(content, order, vars, i, p);
      return true, p, content;
    }
    var pair := Pair(order[i], vars[order[i]]);
    if p + SetAside(pair) >= buf.Length {
      FittingFrom(order, vars, i, p);
      return false, p, content;
    }
    AnsweringKnown(content, order, vars, i, p, pair);
    q := PutPair(buf, p, pair);
    return true, q, content + ShortestWire(pair).Encode();
  }

  lemma {:induction false} KnownElsewhere(order: seq<Bytes>, vars: map<Bytes, Bytes>, name: Bytes)
    requires forall i :: 0 <= i < |order| ==> order[i] != name
    ensures Known(order, vars - {name}) == Known(order, vars)
    decreases |order|
  {
    if order != [] {
      KnownElsewhere(order[1..], vars, name);
    }
  }

  lemma {:induction false} WireSize(p: Pair)
    requires ShortestWire(p).Valid()
    ensures |ShortestWire(p).Encode()| <= SetAside(p)
  {
  }

  /** The size of a pair's encoding. */
  function WireLength(p: Pair): (n: nat)
    ensures ShortestWire(p).Valid() ==> n == |ShortestWire(p).Encode()|
  {
    (if |p.name| < 128 then 1 else 4) + (if |p.value| < 128 then 1 else 4) + |p.name| + |p.value|
  }

  /** The sizes of the encodings of all variables together. */
  ghost function Total(vars: map<Bytes, Bytes>): nat
    decreases |vars|
  {
    if vars == map[] then 0
    else
      var k :| k in vars;
      Smaller(vars, k);
      WireLength(Pair(k, vars[k])) + Total(vars - {k})
  }

  lemma {:induction false} Smaller(vars: map<Bytes, Bytes>, k: Bytes)
    requires k in vars
    ensures |vars - {k}| == |vars| - 1
  {
    var others := vars - {k};
    assert vars.Keys == others.Keys + {k};
    assert |vars| == |vars.Keys| && |others| == |others.Keys|;
  }

  /** Any variable can be counted first. */
  lemma {:induction false} TotalWithout(vars: map<Bytes, Bytes>, k: Bytes)
    requires k in vars
    ensures Total(vars) == WireLength(Pair(k, vars[k])) + Total(vars - {k})
    decreases |vars|
  {
    var c :| c in vars && Total(vars) == WireLength(Pair(c, vars[c])) + Total(vars - {c});
    if c != k {
      Smaller(vars, c);
      TotalWithout(vars - {c}, k);
      TotalWithout(vars - {k}, c);
      assert vars - {c} - {k} == vars - {k} - {c};
    }
  }

  lemma {:induction false} KnownTotal(order: seq<Bytes>, vars: map<Bytes, Bytes>)
    requires Distinct(order) && AllValid(Shortest(Known(order, vars)))
    ensures |EncodeWires(Shortest(Known(order, vars)))| <= Total(vars)
    decreases |order|
  {
    if order == [] {
      return;
    }
    var name, rest := order[0], order[1..];
    if name !in vars {
      assert Known(order, vars) == [] + Known(rest, vars) == Known(rest, vars);
      KnownTotal(rest, vars);
      return;
    }
    var pair, others := Pair(name, vars[name]), vars - {name};
    var pairs := Known(rest, vars);
    assert Known(order, vars) == [pair] + pairs;
    ShortestRest(pair, pairs);
    KnownElsewhere(rest, vars, name);
    KnownTotal(rest, others);
    TotalWithout(vars, name);
    ShortestCons(pair, pairs);
  }

  lemma {:induction false} ShortestRest(p: Pair, pairs: seq<Pair>)
    requires AllValid(Shortest([p] + pairs))
    ensures ShortestWire(p).Valid() && AllValid(Shortest(pairs))
  {
    var all, ws := [p] + pairs, Shortest(pairs);
    assert all[0] == p && all[1..] == pairs && Shortest(all) == [ShortestWire(p)] + ws;
    assert forall i :: 0 <= i < |ws| ==> ws[i] == Shortest(all)[i + 1];
    assert Shortest(all)[0] == ShortestWire(p);
  }

  /** What the program registers: three variables with short names and decimal values. */
  predicate FewVars(vars: map<Bytes, Bytes>) {
    |vars| <= 3 && forall k :: k in vars ==> |k| + |vars[k]| <= 1000
  }

  predicate Distinct(order: seq<Bytes>) {
    forall i, j :: 0 <= i < j < |order| ==> order[i] != order[j]
  }

  lemma {:induction false} FewTotal(vars: map<Bytes, Bytes>)
    requires forall k :: k in vars ==> |k| + |vars[k]| <= 1000
    ensures Total(vars) <= 1008 * |vars|
    decreases |vars|
  {
    if vars != map[] {
      var k :| k in vars;
      Smaller(vars, k);
      TotalWithout(vars, k);
      FewTotal(vars - {k});
    }
  }

  lemma {:induction false} ContentTotal(order: seq<Bytes>, vars: map<Bytes, Bytes>)
    requires Distinct(order)
    ensures |Content(order, vars)| <= Total(vars)
  {
    FittingFits(order, vars, HEADER_SIZE);
    KnownTotal(Dealt(order, vars), vars);
  }

  /** With few variables and no name asked twice, the guard of the encoder never stops it. */
  lemma {:induction false} NeverFull(order: seq<Bytes>, vars: map<Bytes, Bytes>)
    requires Distinct(order) && FewVars(vars)
    ensures Dealt(order, vars) == order && |Content(order, vars)| <= 3 * 1008
  {
    ContentTotal(order, vars);
    FewTotal(vars);
    FittingFits(order, vars, HEADER_SIZE);
  }

  /** Header, content and padding of a reply stay inside the buffer exactly up to this size. */
  const MAX_REPLY := 65528

  lemma {:induction false} ReplyFits(order: seq<Bytes>, vars: map<Bytes, Bytes>)
    ensures |Encode(Reply(order, vars))| <= BUFFER <==> |Content(order, vars)| <= MAX_REPLY
  {
    FcgiOutput.MadeSize(0, FCGI_GET_VALUES_RESULT, Content(order, vars));
  }

  /** Variables with which every reply stays inside the buffer, whatever is asked. */
  ghost predicate Roomy(vars: map<Bytes, Bytes>) {
    forall order :: Distinct(order) ==> |Content(order, vars)| <= MAX_REPLY
  }

  /** So they are when the encodings of all of them together are not too long. */
  lemma {:induction false} TotalIsRoomy(vars: map<Bytes, Bytes>)
    requires Total(vars) <= MAX_REPLY
    ensures Roomy(vars)
  {
    forall order | Distinct(order) ensures |Content(order, vars)| <= MAX_REPLY {
      ContentTotal(order, vars);
    }
  }

  lemma {:induction false} FewAreRoomy(vars: map<Bytes, Bytes>)
    requires FewVars(vars)
    ensures Roomy(vars)
  {
    FewTotal(vars);
    TotalIsRoomy(vars);
  }

  /** Not all variables are: here one byte of the padding is too many. */
  lemma {:induction false} OneIsNotRoomy()
    ensures !Roomy(map[[97] := Zeros(65525)])
  {
    var name: Bytes, vars := [97], map[[97] := Zeros(65525)];
    var pair := Pair(name, Zeros(65525));
    assert Fitting([name], vars, HEADER_SIZE)
      == 1 + Fitting([name][1..], vars, HEADER_SIZE + |ShortestWire(pair).Encode()|);
    assert Dealt([name], vars) == [name] && Known([name], vars) == [pair] + Known([], vars) == [pair] + [];
    ShortestCons(pair, []);
    assert |Content([name], vars)| == 65531;
    assert Distinct([name]);
  }

  /** The record that answers a query. */
  ghost function Reply(order: seq<Bytes>, vars: map<Bytes, Bytes>): Record {
    FcgiOutput.Made(0, FCGI_GET_VALUES_RESULT, Content(order, vars))
  }

  /** The header of the answer, byte by byte. */
  lemma {:induction false} ReplyOnTheWire(order: seq<Bytes>, vars: map<Bytes, Bytes>)
    ensures var n := |Content(order, vars)|;
      && n < 0x10000 && Encode(Reply(order, vars))[8..8 + n] == Content(order, vars)
      && Encode(Reply(order, vars))[..8] == [1, 10, 0, 0, n / 256, n % 256, Pad(n), 0]
  {
    var r := Reply(order, vars);
    var h := Header(1, 10, 0, |r.content|, Pad(|r.content|), 0);
    assert Encode(r) == h + (r.content + r.padding);
    assert (h + (r.content + r.padding))[..8] == h;
    assert (h + (r.content + r.padding))[8..8 + |r.content|] == r.content;
  }

  /** A peer that decodes the answer finds the known variables it asked for, up to where the room ends. */
  lemma {:induction false} ReplyRoundTrip(order: seq<Bytes>, vars: map<Bytes, Bytes>)
    ensures Parse(Encode(Reply(order, vars))) == Some([Reply(order, vars)])
    ensures Split(Reply(order, vars).content) == (Known(Dealt(order, vars), vars), true)
  {
    ParseSingle(Reply(order, vars));
    SplitEncoded(Shortest(Known(Dealt(order, vars), vars)));
  }

  // ---- The head of a request ----------------------------------------------------------------

  const ENV0 := Env([], map[])

  datatype Head = Head(kind: Byte, id: nat, len: nat, pad: Byte)

  function DecodeHead(s: Bytes): (h: Option<Head>)
    ensures h.Some? ==> |s| >= HEADER_SIZE && h.value.len <= MAX_LENGTH && h.value.id < 0x10000
  {
    if |s| < HEADER_SIZE || s[0] < 1 then None
    else Some(Head(s[1], Word(s[2], s[3]), Word(s[4], s[5]), s[6]))
  }

  /** The first header that is not that of an empty STDIN record, and the bytes behind it. */
  function FirstHead(s: Bytes): (r: Option<(Head, Bytes)>)
    ensures r.Some? ==> r.value.0.len <= MAX_LENGTH && r.value.0.id < 0x10000 && |r.value.1| < |s|
  {
    match DecodeHead(s)
    case None => None
    case Some(h) =>
      if h.kind == FCGI_STDIN && h.len == 0 then FirstHead(s[HEADER_SIZE..]) else Some((h, s[HEADER_SIZE..]))
  }

  /** PARAMS records up to the first header that is none or that has no content; that header is read too. */
  function TakeParams(env: Env, s: Bytes): Option<(Env, Bytes)>
    decreases |s|, 1
  {
    if DecodeHead(s).None? then None else TakeParamsBehind(env, DecodeHead(s).value, s[HEADER_SIZE..])
  }

  function TakeParamsBehind(env: Env, h: Head, t: Bytes): Option<(Env, Bytes)>
    decreases |t|, 2
  {
    if h.kind != FCGI_PARAMS || h.len == 0 then Some((env, t))
    else if h.len + h.pad > MAX_LENGTH || |t| < h.len + h.pad || !Split(t[..h.len]).1 then None
    else TakeParams(env.Fold(Split(t[..h.len]).0), t[h.len + h.pad..])
  }

  lemma {:induction false} TakesContent(env: Env, h: Head, t: Bytes)
    requires h.kind == FCGI_PARAMS && 0 < h.len && h.len + h.pad <= MAX_LENGTH && h.len + h.pad <= |t|
    requires Split(t[..h.len]).1
    ensures TakeParamsBehind(env, h, t) == TakeParams(env.Fold(Split(t[..h.len]).0), t[h.len + h.pad..])
  {
  }

  function Ascii(s: string): Bytes {
    seq(|s|, i requires 0 <= i < |s| => (s[i] as int) % 256)
  }

  function RoleName(role: int): Option<Bytes> {
    if role == 1 then Some(Ascii("RESPONDER"))
    else if role == 2 then Some(Ascii("AUTHORIZER"))
    else if role == 3 then Some(Ascii("FILTER"))
    else None
  }

  // The same names as bytes.
  const FCGI_ROLE: Bytes := [70, 67, 71, 73, 95, 82, 79, 76, 69]
  const RESPONDER: Bytes := [82, 69, 83, 80, 79, 78, 68, 69, 82]
  const AUTHORIZER: Bytes := [65, 85, 84, 72, 79, 82, 73, 90, 69, 82]
  const FILTER: Bytes := [70, 73, 76, 84, 69, 82]

  /** The names are encoded as they should, and the other numbers stand for no role. */
  lemma {:induction false} RolesAreNamed(high: Byte, low: Byte)
    ensures Ascii("FCGI_ROLE") == FCGI_ROLE
    ensures RoleName(Word(high, low)) ==
      if high != 0 then None
      else if low == 1 then Some(RESPONDER)
      else if low == 2 then Some(AUTHORIZER)
      else if low == 3 then Some(FILTER)
      else None
  {
    assert Ascii("FCGI_ROLE") == FCGI_ROLE;
    assert Ascii("RESPONDER") == RESPONDER;
    assert Ascii("AUTHORIZER") == AUTHORIZER;
    assert Ascii("FILTER") == FILTER;
  }

  datatype Accepted = Accepted(id: nat, keep: nat, env: Env, rest: Bytes)

  /** What is read behind the header of a BEGIN_REQUEST record. */
  function TakeBegin(h: Head, s: Bytes): Option<Accepted>
    requires h.len == 8
  {
    if |s| < 8 + h.pad || RoleName(Word(s[0], s[1])).None? then None
    else
      match TakeParams(ENV0.Update(Pair(Ascii("FCGI_ROLE"), RoleName(Word(s[0], s[1])).value)), s[8 + h.pad..])
      case None => None
      case Some((env, rest)) => Some(Accepted(h.id, s[2] % 2, env, rest))
  }

  lemma {:induction false} TakesBegin(h: Head, s: Bytes, begin: Bytes, rest: Bytes)
    requires h.len == 8 && 8 + h.pad <= |s| && begin == s[..8] && rest == s[8 + h.pad..]
    ensures var role := RoleName(Word(begin[0], begin[1]));
      TakeBegin(h, s) ==
        if role.None? then None
        else
          match TakeParams(ENV0.Update(Pair(Ascii("FCGI_ROLE"), role.value)), rest)
          case None => None
          case Some((env, rest)) => Some(Accepted(h.id, begin[2] % 2, env, rest))
  {
    assert begin[0] == s[0] && begin[1] == s[1] && begin[2] == s[2];
  }

  /** The request at the front of the stream, if the reader accepts one. */
  function TakeRequest(s: Bytes): Option<Accepted> {
    match FirstHead(s)
    case None => None
    case Some((h, t)) =>
      if h.len + h.pad <= MAX_LENGTH && h.kind == FCGI_BEGIN_REQUEST && h.len == 8 then TakeBegin(h, t) else None
  }

  /** The pairs of the PARAMS records at the front. */
  function ParamPairs(s: Bytes): seq<Pair>
    decreases |s|
  {
    if DecodeHead(s).None? then []
    else
      var h, t := DecodeHead(s).value, s[HEADER_SIZE..];
      if h.kind != FCGI_PARAMS || h.len == 0 || |t| < h.len + h.pad then []
      else Split(t[..h.len]).0 + ParamPairs(t[h.len + h.pad..])
  }

  lemma {:induction false} ParamPairsNext(s: Bytes, h: Head, t: Bytes)
    requires DecodeHead(s) == Some(h) && t == s[HEADER_SIZE..]
    requires h.kind == FCGI_PARAMS && h.len != 0 && |t| >= h.len + h.pad
    ensures ParamPairs(s) == Split(t[..h.len]).0 + ParamPairs(t[h.len + h.pad..])
  {
  }

  lemma {:induction false} ParamsAreFolded(env: Env, s: Bytes, res: (Env, Bytes))
    requires TakeParams(env, s) == Some(res)
    ensures res.0 == env.Fold(ParamPairs(s))
    decreases |s|
  {
    var h, t := DecodeHead(s).value, s[HEADER_SIZE..];
    if h.kind == FCGI_PARAMS && h.len != 0 {
      var pairs, rest := Split(t[..h.len]).0, t[h.len + h.pad..];
      TakesContent(env, h, t);
      ParamsAreFolded(env.Fold(pairs), rest, res);
      FoldAppend(env, pairs, ParamPairs(rest));
      ParamPairsNext(s, h, t);
    }
  }

  /** What the role bytes of an accepted request are, and what its table says of them unless a pair has that name. */
  ghost predicate RoleTold(s: Bytes, env: Env) {
    FirstHead(s).Some? && RoleToldBehind(FirstHead(s).value.0, FirstHead(s).value.1, env)
  }

  ghost predicate RoleToldBehind(h: Head, t: Bytes, env: Env) {
    && |t| >= 8 + h.pad && t[0] == 0 && 1 <= t[1] <= 3
    && ((forall p :: p in ParamPairs(t[8 + h.pad..]) ==> p.name != FCGI_ROLE) ==>
      && FCGI_ROLE in env.table
      && (env.table[FCGI_ROLE] == RESPONDER <==> t[1] == 1)
      && (env.table[FCGI_ROLE] == AUTHORIZER <==> t[1] == 2)
      && (env.table[FCGI_ROLE] == FILTER <==> t[1] == 3))
  }

  lemma {:induction false} RoleIsTold(s: Bytes)
    requires TakeRequest(s).Some?
    ensures RoleTold(s, TakeRequest(s).value.env)
  {
    var (h, t) := FirstHead(s).value;
    RoleBehind(h, t, TakeRequest(s).value);
  }

  lemma {:induction false} RoleBehind(h: Head, t: Bytes, a: Accepted)
    requires h.len == 8 && TakeBegin(h, t) == Some(a)
    ensures RoleToldBehind(h, t, a.env)
  {
    var role := RoleRead(h, t, a);
    RoleInTable(role, t[8 + h.pad..], (a.env, a.rest));
    RolesDiffer(t[0], t[1]);
  }

  lemma {:induction false} RoleRead(h: Head, t: Bytes, a: Accepted) returns (role: Bytes)
    requires h.len == 8 && TakeBegin(h, t) == Some(a)
    ensures |t| >= 8 + h.pad && RoleName(Word(t[0], t[1])) == Some(role)
    ensures TakeParams(ENV0.Update(Pair(FCGI_ROLE, role)), t[8 + h.pad..]) == Some((a.env, a.rest))
  {
    RolesAreNamed(t[0], t[1]);
    role := RoleName(Word(t[0], t[1])).value;
  }

  lemma {:induction false} RolesDiffer(high: Byte, low: Byte)
    requires RoleName(Word(high, low)).Some?
    ensures var role := RoleName(Word(high, low)).value;
      && high == 0 && 1 <= low <= 3
      && (role == RESPONDER <==> low == 1) && (role == AUTHORIZER <==> low == 2) && (role == FILTER <==> low == 3)
  {
    RolesAreNamed(high, low);
    assert |RESPONDER| != |AUTHORIZER| && |RESPONDER| != |FILTER| && |AUTHORIZER| != |FILTER|;
  }

  lemma {:induction false} RoleInTable(role: Bytes, s: Bytes, res: (Env, Bytes))
    requires TakeParams(ENV0.Update(Pair(FCGI_ROLE, role)), s) == Some(res)
    ensures (forall p :: p in ParamPairs(s) ==> p.name != FCGI_ROLE) ==>
      FCGI_ROLE in res.0.table && res.0.table[FCGI_ROLE] == role
  {
    var env := ENV0.Update(Pair(FCGI_ROLE, role));
    ParamsAreFolded(env, s, res);
    LastWins(env, ParamPairs(s), FCGI_ROLE);
  }

  /** The names asked for, when the stream begins with a well-formed GET_VALUES record. */
  function TakeQuery(s: Bytes): Option<seq<Bytes>> {
    match FirstHead(s)
    case None => None
    case Some((h, t)) =>
      if h.len + h.pad <= MAX_LENGTH && h.kind == FCGI_GET_VALUES && |t| >= h.len + h.pad && Split(t[..h.len]).1
      then Some(ENV0.Fold(Split(t[..h.len]).0).order)
      else None
  }

  lemma {:induction false} ParseSingle(r: Record)
    requires Representable(r)
    ensures Parse(Encode(r)) == Some([r])
  {
    ParseOne(r, []);
    assert Encode(r) + [] == Encode(r) && [r] + [] == [r];
  }

  class Request {
    const conn: Connection
    var keep: nat
    var id: nat
    var env: Env

    constructor (conn: Connection)
      ensures this.conn == conn && keep == 0 && env == Env([], map[])
    {
      this.conn := conn;
      keep, id, env := 0, 0, ENV0;
    }

    /** No read failed since there were so many hard errors. */
    ghost predicate Unhurt(faults: nat)
      reads conn
    {
      conn.faults == faults
    }

    /** Hard errors only become more, and only on an unreliable connection. */
    ghost predicate Hurts(faults: nat)
      reads conn
    {
      conn.faults >= faults && (conn.reliable ==> conn.faults == faults)
    }

    method ReadHead() returns (head: Option<Head>)
      modifies conn`patience, conn`incoming, conn`faults
      ensures Hurts(old(conn.faults)) && (head.Some? ==> Unhurt(old(conn.faults)))
      ensures head.Some? ==>
        head.value.len <= MAX_LENGTH && head.value.id < 0x10000 && |conn.incoming| < |old(conn.incoming)|
      ensures head.None? ==> |conn.incoming| <= |old(conn.incoming)|
      ensures Unhurt(old(conn.faults)) ==> head == DecodeHead(old(conn.incoming))
      ensures head.Some? ==>
        head == DecodeHead(old(conn.incoming)) && conn.incoming == old(conn.incoming)[HEADER_SIZE..]
    {
      var n, h := SafeRead(conn, HEADER_SIZE);
      if n != HEADER_SIZE || h[0] < 1 {
        return None;
      }
      return Some(Head(h[1], Word(h[2], h[3]), Word(h[4], h[5]), h[6]));
    }

    /** Content and padding of one record into the buffer. */
    method ReadBody(buf: array<Byte>, h: Head) returns (ok: bool)
      requires h.len + h.pad <= MAX_LENGTH && buf.Length == BUFFER
      modifies buf, conn`patience, conn`incoming, conn`faults
      ensures Hurts(old(conn.faults)) && (ok ==> Unhurt(old(conn.faults)))
      ensures |conn.incoming| <= |old(conn.incoming)|
      ensures Unhurt(old(conn.faults)) ==> ok == (|old(conn.incoming)| >= h.len + h.pad)
      ensures ok ==> |old(conn.incoming)| >= h.len + h.pad && buf[..h.len] == old(conn.incoming)[..h.len]
      ensures ok ==> conn.incoming == old(conn.incoming)[h.len + h.pad..]
    {
      var n, data := SafeRead(conn, h.len + h.pad);
      ok := n == h.len + h.pad;
      if n > 0 {
        FcgiInput.Store(buf, 0, data);
        if ok {
          assert buf[..h.len] == buf[..n][..h.len];
        }
      }
    }

    /** fcgi_read_request: unless a read fails, what is delivered is accepted, answered or rejected as specified. */
    method ReadRequest(vars: map<Bytes, Bytes>) returns (ok: bool)
      requires Roomy(vars)
      modifies this, conn`patience, conn`incoming, conn`faults, conn`sent
      ensures Hurts(old(conn.faults)) && (ok ==> Unhurt(old(conn.faults)))
      ensures ok ==> conn.sent == old(conn.sent) && id < 0x10000
      ensures Unhurt(old(conn.faults)) ==> ok == TakeRequest(old(conn.incoming)).Some?
      ensures ok ==> TakeRequest(old(conn.incoming)) == Some(Accepted(id, keep, env, conn.incoming))
      ensures ok ==> RoleTold(old(conn.incoming), env)
      ensures TakeQuery(old(conn.incoming)).None? ==> conn.sent == old(conn.sent)
      ensures Unhurt(old(conn.faults)) && TakeQuery(old(conn.incoming)).Some? ==>
        conn.sent == old(conn.sent) + Encode(Reply(TakeQuery(old(conn.incoming)).value, vars))
    {
      keep, env := 0, ENV0;
      ghost var s := conn.incoming;
      var head := ReadHead();
      while head.Some? && head.value.kind == FCGI_STDIN && head.value.len == 0
        invariant head.Some? ==> head.value.len <= MAX_LENGTH && head.value.id < 0x10000
        invariant conn.sent == old(conn.sent) && keep == 0 && env == ENV0
        invariant Hurts(old(conn.faults)) && (head.Some? ==> Unhurt(old(conn.faults)))
        invariant Unhurt(old(conn.faults)) && head.None? ==> FirstHead(s).None?
        invariant head.Some? ==>
          FirstHead(s) ==
            if head.value.kind == FCGI_STDIN && head.value.len == 0 then FirstHead(conn.incoming)
            else Some((head.value, conn.incoming))
        decreases |conn.incoming|
      {
        head := ReadHead();
        if head.None? {
          return false;
        }
      }
      if head.None? || head.value.len + head.value.pad > MAX_LENGTH {
        return false;
      }
      id := head.value.id;
      if head.value.kind == FCGI_BEGIN_REQUEST && head.value.len == 8 {
        ok := BeginRequest(head.value);
        if ok {
          RoleIsTold(s);
        }
      } else if head.value.kind == FCGI_GET_VALUES {
        AnswerQuery(head.value, vars);
        ok := false;
      } else {
        ok := false;
      }
    }

    method BeginRequest(h: Head) returns (ok: bool)
      requires h.len == 8 && h.len + h.pad <= MAX_LENGTH && env == ENV0 && keep == 0
      modifies this`keep, this`env, conn`patience, conn`incoming, conn`faults
      ensures Hurts(old(conn.faults)) && (ok ==> Unhurt(old(conn.faults)))
      ensures Unhurt(old(conn.faults)) ==> ok == TakeBegin(h, old(conn.incoming)).Some?
      ensures ok ==> TakeBegin(h, old(conn.incoming)) == Some(Accepted(h.id, keep, env, conn.incoming))
    {
      var buf := new Byte[BUFFER];
      ok := ReadBody(buf, h);
      if !ok {
        return;
      }
      TakesBegin(h, old(conn.incoming), buf[..8], conn.incoming);
      keep := buf[2] % 2;
      var role := RoleName(Word(buf[0], buf[1]));
      if role.None? {
        return false;
      }
      env := env.Update(Pair(Ascii("FCGI_ROLE"), role.value));
      ok := ReadParams(buf);
    }

    method ReadParams(buf: array<Byte>) returns (ok: bool)
      requires buf.Length == BUFFER
      modifies this`keep, this`env, buf, conn`patience, conn`incoming, conn`faults
      ensures Hurts(old(conn.faults)) && (ok ==> Unhurt(old(conn.faults)))
      ensures ok ==> keep == old(keep)
      ensures Unhurt(old(conn.faults)) ==> ok == TakeParams(old(env), old(conn.incoming)).Some?
      ensures ok ==> TakeParams(old(env), old(conn.incoming)) == Some((env, conn.incoming))
    {
      ghost var result := TakeParams(env, conn.incoming);
      var head := ReadHead();
      if head.None? {
        return false;
      }
      while head.value.kind == FCGI_PARAMS && head.value.len > 0
        invariant head.Some? && keep == old(keep) && Unhurt(old(conn.faults))
        invariant head.value.len <= MAX_LENGTH
        invariant result == TakeParamsBehind(env, head.value, conn.incoming)
        decreases |conn.incoming|
      {
        var h := head.value;
        if h.len + h.pad > MAX_LENGTH {
          return false;
        }
        ghost var env', s := env, conn.incoming;
        ok := ReadPairs(buf, h);
        if !ok {
          return;
        }
        TakesContent(env', h, s);
        head := ReadHead();
        if head.None? {
          keep := 0;
          return false;
        }
      }
      return true;
    }

    /** The body of one PARAMS record into the table. */
    method ReadPairs(buf: array<Byte>, h: Head) returns (ok: bool)
      requires h.len + h.pad <= MAX_LENGTH && buf.Length == BUFFER
      modifies this`keep, this`env, buf, conn`patience, conn`incoming, conn`faults
      ensures Hurts(old(conn.faults)) && (ok ==> Unhurt(old(conn.faults)))
      ensures |conn.incoming| <= |old(conn.incoming)|
      ensures if ok then keep == old(keep) else keep == 0
      ensures old(env).Valid() ==> env.Valid()
      ensures Unhurt(old(conn.faults)) ==>
        ok == (|old(conn.incoming)| >= h.len + h.pad && Split(old(conn.incoming)[..h.len]).1)
      ensures ok ==>
        && |old(conn.incoming)| >= h.len + h.pad && Split(old(conn.incoming)[..h.len]).1
        && env == old(env).Fold(Split(old(conn.incoming)[..h.len]).0)
        && conn.incoming == old(conn.incoming)[h.len + h.pad..]
    {
      ok := ReadBody(buf, h);
      if ok {
        assert buf[0..h.len] == buf[..h.len];
        ok, env := GetParams(env, buf, 0, h.len);
      }
      if !ok {
        keep := 0;
      }
    }

    /** The reply to a GET_VALUES record; the connection is closed afterwards all the same. */
    method AnswerQuery(h: Head, vars: map<Bytes, Bytes>)
      requires h.len + h.pad <= MAX_LENGTH && env == ENV0 && Roomy(vars)
      modifies this`keep, this`env, conn`patience, conn`incoming, conn`faults, conn`sent
      ensures Hurts(old(conn.faults))
      ensures !(|old(conn.incoming)| >= h.len + h.pad && Split(old(conn.incoming)[..h.len]).1) ==>
        conn.sent == old(conn.sent)
      ensures Unhurt(old(conn.faults)) ==>
        |old(conn.incoming)| >= h.len + h.pad && Split(old(conn.incoming)[..h.len]).1 ==>
        conn.sent == old(conn.sent) + Encode(Reply(ENV0.Fold(Split(old(conn.incoming)[..h.len]).0).order, vars))
    {
      var buf := new Byte[BUFFER];
      var ok := ReadPairs(buf, h);
      if !ok {
        return;
      }
      ok := SendReply(buf, env, vars);
      if !ok {
        keep := 0;
      }
    }

    method SendReply(buf: array<Byte>, env: Env, vars: map<Bytes, Bytes>) returns (ok: bool)
      requires buf.Length == BUFFER && |Content(env.order, vars)| <= MAX_REPLY
      modifies buf, conn`patience, conn`sent, conn`faults
      ensures Hurts(old(conn.faults)) && (ok <==> Unhurt(old(conn.faults)))
      ensures ok ==> conn.sent == old(conn.sent) + Encode(Reply(env.order, vars))
    {
      var p := Answer(buf, env.order, vars);
      var size := Finish(buf, p, Content(env.order, vars));
      var n := SafeWrite(conn, buf[..size]);
      ok := n == size;
    }
  }

  /** Header and padding around an answer that ends at p. */
  method Finish(buf: array<Byte>, p: nat, ghost content: Bytes) returns (size: nat)
    requires HEADER_SIZE <= p <= HEADER_SIZE + MAX_REPLY && buf.Length == BUFFER
    requires buf[HEADER_SIZE..p] == content
    modifies buf
    ensures size <= buf.Length && buf[..size] == Encode(FcgiOutput.Made(0, FCGI_GET_VALUES_RESULT, content))
  {
    var len := p - HEADER_SIZE;
    var pad := FcgiOutput.MakeHeader(buf, 0, FCGI_GET_VALUES_RESULT, 0, len);
    assert buf[HEADER_SIZE..p] == content;
    FcgiOutput.MadeInBuffer(buf[..], 0, 0, FCGI_GET_VALUES_RESULT, content);
    size := HEADER_SIZE + len + pad;
  }
}
