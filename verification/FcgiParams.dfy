/**
 * Name-value pairs (FastCGI Specification, section 3.4): cgi/fastcgi.c, fcgi_get_params, and the reply to GET_VALUES.
 */
module FcgiParams {
  import opened Basics

  datatype Pair = Pair(name: Bytes, value: Bytes)

  /** A hash table that remembers in which order its keys first came. */
  datatype Env = Env(order: seq<Bytes>, table: map<Bytes, Bytes>) {
    ghost predicate Valid() {
      && (forall i, j :: 0 <= i < j < |order| ==> order[i] != order[j])
      && (forall k :: k in order <==> k in table)
    }

    function Update(p: Pair): (e: Env)
      ensures Valid() ==> e.Valid()
    {
      Env(if p.name in table then order else order + [p.name], table[p.name := p.value])
    }

    function Fold(pairs: seq<Pair>): (e: Env)
      ensures Valid() ==> e.Valid()
      decreases |pairs|
    {
      if pairs == [] then this else Update(pairs[0]).Fold(pairs[1..])
    }
  }

  /** The i-th pair is the last one with this name. */
  predicate LastNamed(pairs: seq<Pair>, i: nat, name: Bytes)
    requires i < |pairs|
  {
    pairs[i].name == name && forall j :: i < j < |pairs| ==> pairs[j].name != name
  }

  /** The last pair of a name wins; a name that does not occur keeps its value. */
  lemma {:induction false} LastWins(env: Env, pairs: seq<Pair>, name: Bytes)
    ensures var e := env.Fold(pairs);
      && (name in e.table <==> name in env.table || exists i :: 0 <= i < |pairs| && pairs[i].name == name)
      && ((forall i :: 0 <= i < |pairs| ==> pairs[i].name != name) && name in env.table ==>
        e.table[name] == env.table[name])
      && (forall i :: 0 <= i < |pairs| && LastNamed(pairs, i, name) ==> e.table[name] == pairs[i].value)
    decreases |pairs|
  {
    if pairs != [] {
      var env', rest := env.Update(pairs[0]), pairs[1..];
      LastWins(env', rest, name);
      assert forall i :: 0 < i < |pairs| ==> pairs[i] == rest[i - 1];
      if exists i :: 0 <= i < |pairs| && pairs[i].name == name {
        var i :| 0 <= i < |pairs| && pairs[i].name == name;
        assert i > 0 ==> rest[i - 1].name == name;
      }
    }
  }

  lemma {:induction false} FoldAppend(env: Env, a: seq<Pair>, b: seq<Pair>)
    ensures env.Fold(a + b) == env.Fold(a).Fold(b)
    decreases |a|
  {
    if a == [] {
      assert a + b == b;
    } else {
      assert (a + b)[0] == a[0] && (a + b)[1..] == a[1..] + b;
      FoldAppend(env.Update(a[0]), a[1..], b);
    }
  }

  /** The names of some pairs, each where it comes first. */
  function FirstNames(pairs: seq<Pair>): seq<Bytes> {
    if pairs == [] then []
    else
      var front, name := FirstNames(pairs[..|pairs| - 1]), pairs[|pairs| - 1].name;
      if exists i :: 0 <= i < |pairs| - 1 && pairs[i].name == name then front else front + [name]
  }

  lemma {:induction false} FoldSnoc(env: Env, front: seq<Pair>, last: Pair)
    ensures env.Fold(front + [last]) == env.Fold(front).Update(last)
  {
    FoldAppend(env, front, [last]);
    assert [last][1..] == [];
  }

  lemma {:induction false} NamesSnoc(front: seq<Pair>, last: Pair)
    ensures FirstNames(front + [last]) ==
      if exists i :: 0 <= i < |front| && front[i].name == last.name then FirstNames(front)
      else FirstNames(front) + [last.name]
  {
    var all := front + [last];
    assert all[..|front|] == front && forall i :: 0 <= i < |front| ==> all[i] == front[i];
  }

  /** A table from nothing remembers exactly the names, in the order in which they came first. */
  lemma {:induction false} OrderOfFirsts(pairs: seq<Pair>)
    ensures Env([], map[]).Fold(pairs).order == FirstNames(pairs)
    decreases |pairs|
  {
    if pairs != [] {
      var front, last := pairs[..|pairs| - 1], pairs[|pairs| - 1];
      OrderOfFirsts(front);
      FoldSnoc(Env([], map[]), front, last);
      NamesSnoc(front, last);
      assert front + [last] == pairs;
      LastWins(Env([], map[]), front, last.name);
    }
  }

  // ---- The specification: complete pairs off the front of a byte string ---------------------

  datatype Length = Length(value: nat, size: nat)

  /** One byte below 128, or four bytes whose first has the high bit set. */
  function DecodeLength(s: Bytes): (r: Option<Length>)
    ensures r.Some? ==> 1 <= r.value.size <= |s|
  {
    if s == [] then None
    else if s[0] < 128 then Some(Length(s[0], 1))
    else if |s| < 4 then None
    else Some(Length(Long(s[0], s[1], s[2], s[3]), 4))
  }

  function Long(b3: int, b2: int, b1: int, b0: int): int {
    (b3 - 128) * 0x1000000 + b2 * 0x10000 + b1 * 0x100 + b0
  }

  /** The first pair of a byte string and its size, unless the string ends before the pair does. */
  function DecodePair(s: Bytes): (r: Option<(Pair, nat)>)
    ensures r.Some? ==> 2 <= r.value.1 <= |s|
  {
    match DecodeLength(s)
    case None => None
    case Some(n) =>
      match DecodeLength(s[n.size..])
      case None => None
      case Some(v) =>
        var body := s[n.size..][v.size..];
        if n.value + v.value > |body| then None
        else Some((Pair(body[..n.value], body[n.value..n.value + v.value]), n.size + v.size + n.value + v.value))
  }

  /** The complete pairs at the front, and whether they make up the whole string. */
  function Split(s: Bytes): (seq<Pair>, bool)
  {
    if s == [] then ([], true)
    else
      match DecodePair(s)
      case None => ([], false)
      case Some((pair, size)) =>
        var rest := Split(s[size..]);
        ([pair] + rest.0, rest.1)
  }

  // ---- The encodings of section 3.4 ---------------------------------------------------------

  /** A pair on the wire: a length below 128 may take the one-byte or the four-byte form. */
  datatype Wire = Wire(pair: Pair, longName: bool, longValue: bool) {
    predicate Valid() {
      && |pair.name| < 0x80000000 && |pair.value| < 0x80000000
      && (|pair.name| >= 128 ==> longName) && (|pair.value| >= 128 ==> longValue)
    }

    function Encode(): Bytes
      requires Valid()
    {
      EncodeLength(|pair.name|, longName) + (EncodeLength(|pair.value|, longValue) + (pair.name + pair.value))
    }
  }

  function EncodeLength(n: nat, long: bool): Bytes
    requires n < 0x80000000 && (n >= 128 ==> long)
  {
    if long then [128 + n / 0x1000000, n / 0x10000 % 0x100, n / 0x100 % 0x100, n % 0x100] else [n]
  }

  function Number(a: Byte, b: Byte, c: Byte, d: Byte): nat {
    ((a * 256 + b) * 256 + c) * 256 + d
  }

  lemma {:induction false} Digits(a: Byte, b: Byte, c: Byte, d: Byte)
    ensures var n := Number(a, b, c, d);
      n / 0x1000000 == a && n / 0x10000 % 0x100 == b && n / 0x100 % 0x100 == c && n % 0x100 == d
  {
    var n := Number(a, b, c, d);
    assert n / 0x100 == (a * 256 + b) * 256 + c;
    assert n / 0x10000 == a * 256 + b && n / 0x1000000 == a;
  }

  /** Lengths, byte by byte: one byte below 128, otherwise four with the first bit set, high byte first. */
  lemma {:induction false} LengthsOnTheWire(a: Byte, b: Byte, c: Byte, d: Byte, rest: Bytes)
    requires a < 128
    ensures Number(a, b, c, d) < 0x80000000 && EncodeLength(Number(a, b, c, d), true) == [128 + a, b, c, d]
    ensures DecodeLength([128 + a, b, c, d] + rest) == Some(Length(Number(a, b, c, d), 4))
    ensures EncodeLength(a, false) == [a] && DecodeLength([a] + rest) == Some(Length(a, 1))
  {
    Digits(a, b, c, d);
    LengthRoundTrip(Number(a, b, c, d), true, rest);
  }

  predicate AllValid(ws: seq<Wire>) {
    forall i :: 0 <= i < |ws| ==> ws[i].Valid()
  }

  function EncodeWires(ws: seq<Wire>): Bytes
    requires AllValid(ws)
  {
    if ws == [] then [] else ws[0].Encode() + EncodeWires(ws[1..])
  }

  function Pairs(ws: seq<Wire>): seq<Pair> {
    if ws == [] then [] else [ws[0].pair] + Pairs(ws[1..])
  }

  lemma {:induction false} LengthRoundTrip(n: nat, long: bool, rest: Bytes)
    requires n < 0x80000000 && (n >= 128 ==> long)
    ensures DecodeLength(EncodeLength(n, long) + rest) == Some(Length(n, |EncodeLength(n, long)|))
    ensures (EncodeLength(n, long) + rest)[|EncodeLength(n, long)|..] == rest
  {
    if long {
      var s := EncodeLength(n, long) + rest;
      assert s[0] == 128 + n / 0x1000000 && s[1] == n / 0x10000 % 0x100;
      assert s[2] == n / 0x100 % 0x100 && s[3] == n % 0x100;
      LongDigits(n);
    }
  }

  lemma {:induction false} LongDigits(n: nat)
    requires n < 0x80000000
    ensures Long(128 + n / 0x1000000, n / 0x10000 % 0x100, n / 0x100 % 0x100, n % 0x100) == n
  {
    assert n / 0x10000 == n / 0x100 / 0x100 && n / 0x1000000 == n / 0x10000 / 0x100;
  }

  lemma {:induction false} PairRoundTrip(w: Wire, rest: Bytes)
    requires w.Valid()
    ensures DecodePair(w.Encode() + rest) == Some((w.pair, |w.Encode()|))
    ensures (w.Encode() + rest)[|w.Encode()|..] == rest
  {
    var n, v := EncodeLength(|w.pair.name|, w.longName), EncodeLength(|w.pair.value|, w.longValue);
    var body := w.pair.name + w.pair.value;
    Assoc(n, v + body, rest);
    Assoc(v, body, rest);
    LengthRoundTrip(|w.pair.name|, w.longName, v + (body + rest));
    LengthRoundTrip(|w.pair.value|, w.longValue, body + rest);
    assert (body + rest)[..|w.pair.name|] == w.pair.name;
    assert (body + rest)[|w.pair.name|..|body|] == w.pair.value;
    AppendDrop(w.Encode(), rest);
  }

  lemma {:induction false} AppendDrop(a: Bytes, b: Bytes)
    ensures (a + b)[|a|..] == b
  {
  }

  /** Decoding inverts every encoding of every list of pairs. */
  lemma {:induction false} SplitEncoded(ws: seq<Wire>)
    requires AllValid(ws)
    ensures Split(EncodeWires(ws)) == (Pairs(ws), true)
    decreases |ws|
  {
    if ws != [] {
      PairRoundTrip(ws[0], EncodeWires(ws[1..]));
      SplitEncoded(ws[1..]);
    }
  }

  lemma {:induction false} LengthEncoded(s: Bytes) returns (long: bool)
    requires DecodeLength(s).Some?
    ensures var n := DecodeLength(s).value;
      n.value < 0x80000000 && (n.value >= 128 ==> long) && n.size <= |s| && EncodeLength(n.value, long) == s[..n.size]
  {
    long := s[0] >= 128;
    if long {
      LongBytes(s[0], s[1], s[2], s[3]);
    }
  }

  lemma {:induction false} LongBytes(b3: Byte, b2: Byte, b1: Byte, b0: Byte)
    requires b3 >= 128
    ensures var n := Long(b3, b2, b1, b0);
      0 <= n < 0x80000000 && EncodeLength(n, true) == [b3, b2, b1, b0]
  {
    var n := Long(b3, b2, b1, b0);
    var high := (b3 - 128) * 0x100 + b2;
    assert n == (high * 0x100 + b1) * 0x100 + b0;
    assert n / 0x100 == high * 0x100 + b1 && n % 0x100 == b0;
    assert n / 0x10000 == high && n / 0x100 % 0x100 == b1;
    assert n / 0x1000000 == b3 - 128 && n / 0x10000 % 0x100 == b2;
  }

  lemma {:induction false} TakeTake(s: Bytes, i: nat, j: nat)
    requires i + j <= |s|
    ensures s[..i] + s[i..][..j] == s[..i + j]
  {
  }

  lemma {:induction false} PairEncoded(s: Bytes) returns (w: Wire)
    requires DecodePair(s).Some?
    ensures w.Valid() && w.pair == DecodePair(s).value.0 && w.Encode() == s[..DecodePair(s).value.1]
  {
    var n := DecodeLength(s).value;
    var v := DecodeLength(s[n.size..]).value;
    var longName := LengthEncoded(s);
    var longValue := LengthEncoded(s[n.size..]);
    var (pair, size) := DecodePair(s).value;
    w := Wire(pair, longName, longValue);
    var body := s[n.size..][v.size..];
    assert pair.name + pair.value == body[..n.value + v.value];
    TakeTake(s[n.size..], v.size, n.value + v.value);
    TakeTake(s, n.size, v.size + (n.value + v.value));
  }

  /**
   * Whatever the bytes are: the pairs that are delivered are a concatenation of complete pairs at the
   * front, and what follows them, if anything, does not begin with a complete pair.
   */
  lemma {:induction false} SplitNext(s: Bytes, pair: Pair, size: nat)
    requires s != [] && DecodePair(s) == Some((pair, size))
    ensures Split(s) == ([pair] + Split(s[size..]).0, Split(s[size..]).1)
  {
  }

  lemma {:induction false} SplitIsLongestPrefix(s: Bytes) returns (ws: seq<Wire>, rest: Bytes)
    ensures AllValid(ws) && s == EncodeWires(ws) + rest
    ensures Split(s) == (Pairs(ws), rest == [])
    ensures rest != [] ==> DecodePair(rest).None?
    decreases |s|
  {
    if s == [] || DecodePair(s).None? {
      ws, rest := [], s;
    } else {
      var size := DecodePair(s).value.1;
      var w := PairEncoded(s);
      var more;
      more, rest := SplitIsLongestPrefix(s[size..]);
      ws := [w] + more;
      SplitNext(s, w.pair, size);
      WiresInFront(s, size, w, more, rest);
    }
  }

  /** The encodings of all pairs, when the first one is taken apart. */
  lemma {:induction false} WiresInFront(s: Bytes, size: nat, w: Wire, more: seq<Wire>, rest: Bytes)
    requires size <= |s| && w.Valid() && AllValid(more)
    requires w.Encode() == s[..size] && EncodeWires(more) + rest == s[size..]
    ensures AllValid([w] + more) && s == EncodeWires([w] + more) + rest
    ensures Pairs([w] + more) == [w.pair] + Pairs(more)
  {
    WiresCons(w, more, rest);
    assert s[..size] + s[size..] == s;
  }

  lemma {:induction false} WiresCons(w: Wire, ws: seq<Wire>, rest: Bytes)
    requires w.Valid() && AllValid(ws)
    ensures AllValid([w] + ws)
    ensures EncodeWires([w] + ws) + rest == w.Encode() + (EncodeWires(ws) + rest)
    ensures Pairs([w] + ws) == [w.pair] + Pairs(ws)
  {
    assert ([w] + ws)[0] == w && ([w] + ws)[1..] == ws;
    Assoc(w.Encode(), EncodeWires(ws), rest);
  }

  /** A byte string is accepted if and only if it is a concatenation of complete pairs. */
  lemma {:induction false} AcceptsExactly(s: Bytes)
    ensures Split(s).1 <==> exists ws: seq<Wire> :: AllValid(ws) && EncodeWires(ws) == s
  {
    if Split(s).1 {
      var ws, rest := SplitIsLongestPrefix(s);
      assert EncodeWires(ws) + [] == EncodeWires(ws);
    }
    if ws: seq<Wire> :| AllValid(ws) && EncodeWires(ws) == s {
      SplitEncoded(ws);
    }
  }
}
