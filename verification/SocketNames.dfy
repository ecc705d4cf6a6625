/** The names of listening sockets and their way through exec in FPM_SOCKETS: fpm/fpm_sockets.c, fpm/fpm_conf.c. */
module SocketNames {
  import opened Basics

  datatype Domain = Unix | Inet

  /** struct listening_socket_s. */
  datatype Listening = Listening(refcount: nat, sock: int, kind: Domain, key: string)

  // ---- Addresses and numbers ----------------------------------------------------------------

  predicate IsDigit(c: char) {
    '0' <= c <= '9'
  }

  /** fpm_sockets_domain_from_address: with a colon, or nothing but digits, it is a network address. */
  function DomainOf(address: string): Domain {
    if ':' in address || (forall i :: 0 <= i < |address| ==> IsDigit(address[i])) then Inet else Unix
  }

  function Digit(n: nat): (c: char)
    requires n < 10
    ensures IsDigit(c) && DigitValue(c) == n
  {
    '0' + n as char
  }

  function DigitValue(c: char): nat
    requires IsDigit(c)
  {
    c as int - '0' as int
  }

  function Decimal(n: nat): (s: string)
    ensures s != [] && forall i :: 0 <= i < |s| ==> IsDigit(s[i])
  {
    if n < 10 then [Digit(n)] else Decimal(n / 10) + [Digit(n % 10)]
  }

  /** atoi, for a string without leading white space: the digits after an optional sign. */
  function Atoi(s: string): int {
    if s != [] && s[0] == '-' then 0 - Digits(s[1..], 0) as int
    else if s != [] && s[0] == '+' then Digits(s[1..], 0)
    else Digits(s, 0)
  }

  function Digits(s: string, acc: nat): nat {
    if s == [] || !IsDigit(s[0]) then acc else Digits(s[1..], acc * 10 + DigitValue(s[0]))
  }

  lemma {:induction false} DigitsSnoc(s: string, c: char, acc: nat)
    requires IsDigit(c) && forall i :: 0 <= i < |s| ==> IsDigit(s[i])
    ensures Digits(s + [c], acc) == Digits(s, acc) * 10 + DigitValue(c)
    decreases |s|
  {
    var all := s + [c];
    if s == [] {
      assert all == [c] && all[1..] == [];
    } else {
      assert all[0] == s[0] && all[1..] == s[1..] + [c];
      DigitsSnoc(s[1..], c, acc * 10 + DigitValue(s[0]));
    }
  }

  lemma {:induction false} DigitsOfDecimal(n: nat)
    ensures Digits(Decimal(n), 0) == n
  {
    if n < 10 {
      assert Decimal(n) == [Digit(n)] && [Digit(n)][1..] == [];
    } else {
      DigitsOfDecimal(n / 10);
      DigitsSnoc(Decimal(n / 10), Digit(n % 10), 0);
    }
  }

  /** sprintf with %d. */
  function Printed(n: int): (s: string)
    ensures ',' !in s
  {
    if n < 0 then "-" + Decimal(-n) else Decimal(n)
  }

  lemma {:induction false} AtoiOfPrinted(n: int)
    ensures Atoi(Printed(n)) == n
  {
    if n < 0 {
      assert Printed(n)[1..] == Decimal(-n);
      DigitsOfDecimal(-n);
    } else {
      DigitsOfDecimal(n);
    }
  }

  /** An address is a path exactly when it has no colon and something that is no digit. */
  lemma {:induction false} PathsExactly(address: string)
    ensures DomainOf(address) == Unix <==>
      ':' !in address && exists i :: 0 <= i < |address| && !('0' <= address[i] <= '9')
  {
    assert forall i :: 0 <= i < |address| ==> (IsDigit(address[i]) <==> '0' <= address[i] <= '9');
  }

  /** A port number alone, or a host with a port, is a network address. */
  lemma {:induction false} PortIsNetwork(host: string, port: nat)
    ensures DomainOf(Decimal(port)) == DomainOf(host + (":" + Decimal(port))) == Inet
  {
    assert (host + (":" + Decimal(port)))[|host|] == ':';
  }

  // ---- The variable FPM_SOCKETS -------------------------------------------------------------

  /** Where c first occurs, or the length. */
  function Find(s: string, c: char): (k: nat)
    ensures k <= |s| && (forall i :: 0 <= i < k ==> s[i] != c) && (k < |s| ==> s[k] == c)
  {
    if s == [] || s[0] == c then 0 else 1 + Find(s[1..], c)
  }

  lemma {:induction false} FindBehind(front: string, c: char, rest: string)
    requires forall i :: 0 <= i < |front| ==> front[i] != c
    ensures Find(front + rest, c) == |front| + Find(rest, c)
    decreases |front|
  {
    if front == [] {
      assert front + rest == rest;
    } else {
      assert (front + rest)[1..] == front[1..] + rest;
      FindBehind(front[1..], c, rest);
    }
  }

  /** What cleanup appends for one socket. */
  function Item(l: Listening): string {
    l.key + ("=" + Printed(l.sock))
  }

  /** The value that a table is written as. */
  function Serialise(ls: seq<Listening>): string {
    if ls == [] then "" else if |ls| == 1 then Item(ls[0]) else Item(ls[0]) + ("," + Serialise(ls[1..]))
  }

  /** What is stored for one item of an inherited value: nothing without an equals sign. */
  function ParseItem(item: string): seq<Listening> {
    var eq := Find(item, '=');
    if eq == |item| then [] else [Listening(0, Atoi(item[eq + 1..]), DomainOf(item[..eq]), item[..eq])]
  }

  /** What follows the first item. */
  function Rest(s: string): (r: string)
    ensures s != "" ==> |r| < |s|
  {
    var comma := Find(s, ',');
    if comma < |s| then s[comma + 1..] else ""
  }

  function Parse(inherited: string): seq<Listening>
    decreases |inherited|
  {
    if inherited == "" then [] else ParseItem(inherited[..Find(inherited, ',')]) + Parse(Rest(inherited))
  }

  /** As it is after exec: nobody uses it yet, and the type is read off the key. */
  function Inherited(l: Listening): Listening {
    Listening(0, l.sock, DomainOf(l.key), l.key)
  }

  function AllInherited(ls: seq<Listening>): seq<Listening> {
    if ls == [] then [] else [Inherited(ls[0])] + AllInherited(ls[1..])
  }

  predicate CleanKey(key: string) {
    ',' !in key && '=' !in key
  }

  lemma {:induction false} CutAt(item: string, tail: string)
    requires tail != ""
    ensures (item + tail)[..|item|] == item && (item + tail)[|item| + 1..] == tail[1..]
  {
  }

  lemma {:induction false} ItemCut(key: string, number: string)
    requires '=' !in key
    ensures ParseItem(key + ("=" + number)) == [Listening(0, Atoi(number), DomainOf(key), key)]
  {
    var tail := "=" + number;
    FindBehind(key, '=', tail);
    CutAt(key, tail);
    assert tail[1..] == number;
  }

  lemma {:induction false} ItemRoundTrip(l: Listening)
    requires CleanKey(l.key)
    ensures ParseItem(Item(l)) == [Inherited(l)]
    ensures ',' !in Item(l)
  {
    ItemCut(l.key, Printed(l.sock));
    AtoiOfPrinted(l.sock);
  }

  lemma {:induction false} ParseLast(item: string)
    requires ',' !in item && item != ""
    ensures Parse(item) == ParseItem(item)
  {
    FindBehind(item, ',', "");
    assert item + "" == item && item[..|item|] == item;
    assert ParseItem(item) + [] == ParseItem(item);
  }

  lemma {:induction false} ParseAt(s: string, item: string, rest: string)
    requires |item| < |s| && Find(s, ',') == |item| && s[..|item|] == item && s[|item| + 1..] == rest
    ensures Parse(s) == ParseItem(item) + Parse(rest)
  {
    var comma := Find(s, ',');
    assert Rest(s) == rest && s[..comma] == item && s != "";
  }

  lemma {:induction false} ParseFirst(item: string, rest: string)
    requires ',' !in item
    ensures Parse(item + ("," + rest)) == ParseItem(item) + Parse(rest)
  {
    var tail := "," + rest;
    FindBehind(item, ',', tail);
    CutAt(item, tail);
    assert tail[1..] == rest;
    ParseAt(item + tail, item, rest);
  }

  /** A comma separates, wherever it comes from: in front of it and behind it, values are read alone. */
  lemma {:induction false} ParseAppend(a: string, b: string)
    ensures Parse(a + ("," + b)) == Parse(a) + Parse(b)
    decreases |a|
  {
    var comma := Find(a, ',');
    if comma == |a| {
      ParseFirst(a, b);
      if a == "" {
        assert ParseItem(a) == [];
      } else {
        ParseLast(a);
      }
    } else {
      var item, rest := a[..comma], a[comma + 1..];
      assert a == item + ("," + rest);
      ParseFirst(item, rest);
      Regroup(item, ",", rest, "," + b);
      ParseFirst(item, rest + ("," + b));
      ParseAppend(rest, b);
      Joined(ParseItem(item), Parse(rest), Parse(b));
    }
  }

  lemma {:induction false} Regroup(a: string, between: string, b: string, c: string)
    ensures (a + (between + b)) + c == a + (between + (b + c))
  {
    Assoc(a, between + b, c);
    Assoc(between, b, c);
  }

  lemma {:induction false} Joined(a: seq<Listening>, b: seq<Listening>, c: seq<Listening>)
    ensures a + (b + c) == (a + b) + c
  {
  }

  /** What the next program reads of a table that was written: each socket is read alone. */
  function Reborn(ls: seq<Listening>): seq<Listening> {
    if ls == [] then [] else Parse(Item(ls[0])) + Reborn(ls[1..])
  }

  lemma {:induction false} ReadsBack(ls: seq<Listening>)
    ensures Parse(Serialise(ls)) == Reborn(ls)
    decreases |ls|
  {
    if ls == [] {
    } else if |ls| == 1 {
      assert Reborn(ls[1..]) == [] && Parse(Item(ls[0])) + [] == Parse(Item(ls[0]));
    } else {
      ReadsBack(ls[1..]);
      ParseAppend(Item(ls[0]), Serialise(ls[1..]));
    }
  }

  lemma {:induction false} OneReborn(l: Listening)
    requires CleanKey(l.key)
    ensures Parse(Item(l)) == [Inherited(l)]
  {
    ItemRoundTrip(l);
    ParseLast(Item(l));
  }

  lemma {:induction false} RoundTrip(ls: seq<Listening>)
    requires forall i :: 0 <= i < |ls| ==> CleanKey(ls[i].key)
    ensures Reborn(ls) == AllInherited(ls)
    decreases |ls|
  {
    if ls != [] {
      OneReborn(ls[0]);
      RoundTrip(ls[1..]);
    }
  }

  lemma {:induction false} ItemKeyIsClean(item: string)
    requires ',' !in item
    ensures forall i :: 0 <= i < |ParseItem(item)| ==> CleanKey(ParseItem(item)[i].key)
  {
    var eq := Find(item, '=');
    assert '=' !in item[..eq] && ',' !in item[..eq];
  }

  /** No key that was parsed contains a comma or an equals sign. */
  lemma {:induction false} ParsedKeysAreClean(s: string)
    ensures forall i :: 0 <= i < |Parse(s)| ==> CleanKey(Parse(s)[i].key)
    decreases |s|
  {
    if s != "" {
      var comma := Find(s, ',');
      ItemKeyIsClean(s[..comma]);
      ParsedKeysAreClean(Rest(s));
    }
  }

  lemma {:induction false} AllInheritedAt(ls: seq<Listening>)
    ensures |AllInherited(ls)| == |ls| && forall i :: 0 <= i < |ls| ==> AllInherited(ls)[i] == Inherited(ls[i])
    decreases |ls|
  {
    if ls != [] {
      AllInheritedAt(ls[1..]);
    }
  }

  /** The table as a fresh one with the same sockets: nobody uses them yet. */
  function Unused(ls: seq<Listening>): seq<Listening> {
    seq(|ls|, i requires 0 <= i < |ls| => ls[i].(refcount := 0))
  }

  lemma {:induction false} TypesAreKept(ls: seq<Listening>)
    ensures AllInherited(ls) == Unused(ls) <==> forall i :: 0 <= i < |ls| ==> ls[i].kind == DomainOf(ls[i].key)
  {
    AllInheritedAt(ls);
    var parsed, unused := AllInherited(ls), Unused(ls);
    forall i | 0 <= i < |ls| ensures parsed[i] == unused[i] <==> ls[i].kind == DomainOf(ls[i].key) {
      assert parsed[i] == Inherited(ls[i]);
    }
  }

  /**
   * A table comes back from exec as it was, up to its reference counts, if and only if no key contains a comma or an
   * equals sign and every type is the one that the key looks like.
   */
  lemma {:induction false} SurvivesExec(ls: seq<Listening>)
    ensures Parse(Serialise(ls)) == Unused(ls)
      <==> forall i :: 0 <= i < |ls| ==> CleanKey(ls[i].key) && ls[i].kind == DomainOf(ls[i].key)
  {
    ReadsBack(ls);
    if forall i :: 0 <= i < |ls| ==> CleanKey(ls[i].key) {
      RoundTrip(ls);
      TypesAreKept(ls);
    } else {
      var i :| 0 <= i < |ls| && !CleanKey(ls[i].key);
      ParsedKeysAreClean(Serialise(ls));
      assert Unused(ls)[i].key == ls[i].key;
    }
  }

  // ---- Keys that come back --------------------------------------------------------------------

  /** The first socket with a key, or the length. */
  function FirstWith(ls: seq<Listening>, key: string): (k: nat)
    ensures k <= |ls| && (forall i :: 0 <= i < k ==> ls[i].key != key) && (k < |ls| ==> ls[k].key == key)
  {
    if ls == [] || ls[0].key == key then 0 else 1 + FirstWith(ls[1..], key)
  }

  lemma {:induction false} FirstWithIs(ls: seq<Listening>, key: string, k: nat)
    requires k <= |ls| && (forall i :: 0 <= i < k ==> ls[i].key != key) && (k < |ls| ==> ls[k].key == key)
    ensures FirstWith(ls, key) == k
  {
    var f := FirstWith(ls, key);
    assert k <= f && f <= k;
  }

  /** The descriptor that a table has for a key. */
  function Lookup(ls: seq<Listening>, key: string): Option<int> {
    var k := FirstWith(ls, key);
    if k < |ls| then Some(ls[k].sock) else None
  }

  lemma {:induction false} LookupAppend(a: seq<Listening>, b: seq<Listening>, key: string)
    ensures Lookup(a + b, key) == if Lookup(a, key).Some? then Lookup(a, key) else Lookup(b, key)
  {
    var k := FirstWith(a, key);
    FirstWithIs(a + b, key, if k < |a| then k else |a| + FirstWith(b, key));
  }

  lemma {:induction false} RebornAppend(a: seq<Listening>, b: seq<Listening>)
    ensures Reborn(a + b) == Reborn(a) + Reborn(b)
    decreases |a|
  {
    if a == [] {
      assert a + b == b;
    } else {
      assert (a + b)[1..] == a[1..] + b;
      RebornAppend(a[1..], b);
    }
  }

  lemma {:induction false} LookupClean(ls: seq<Listening>, key: string)
    requires forall i :: 0 <= i < |ls| ==> CleanKey(ls[i].key)
    ensures Lookup(Reborn(ls), key) == Lookup(ls, key)
  {
    RoundTrip(ls);
    AllInheritedAt(ls);
    FirstWithIs(AllInherited(ls), key, FirstWith(ls, key));
  }

  /**
   * What becomes of any key in any table: with a comma or an equals sign it is lost; otherwise it has its descriptor
   * again, unless a socket in front of it with such a key comes back under this key.
   */
  lemma {:induction false} KeyComesBack(ls: seq<Listening>, key: string)
    ensures var before := ls[..FirstWith(ls, key)];
      && Lookup(Reborn(ls), key) == (
        if !CleanKey(key) then None
        else if Lookup(Reborn(before), key).Some? then Lookup(Reborn(before), key)
        else Lookup(ls, key))
      && ((forall i :: 0 <= i < |before| ==> CleanKey(before[i].key)) ==> Lookup(Reborn(before), key) == None)
  {
    var k := FirstWith(ls, key);
    var before := ls[..k];
    if forall i :: 0 <= i < |before| ==> CleanKey(before[i].key) {
      LookupClean(before, key);
    }
    if !CleanKey(key) {
      UncleanIsLost(ls, key);
    } else if k == |ls| {
      assert before == ls;
    } else {
      SplitAt(ls, k);
      LookupBehind(before, ls[k], ls[k + 1..]);
    }
  }

  lemma {:induction false} UncleanIsLost(ls: seq<Listening>, key: string)
    requires !CleanKey(key)
    ensures Lookup(Reborn(ls), key) == None
  {
    ReadsBack(ls);
    ParsedKeysAreClean(Serialise(ls));
  }

  lemma {:induction false} SplitAt(ls: seq<Listening>, k: nat)
    requires k < |ls|
    ensures ls == ls[..k] + ([ls[k]] + ls[k + 1..])
  {
  }

  lemma {:induction false} LookupBehind(before: seq<Listening>, l: Listening, behind: seq<Listening>)
    requires CleanKey(l.key)
    ensures var early := Lookup(Reborn(before), l.key);
      Lookup(Reborn(before + ([l] + behind)), l.key) == if early.Some? then early else Some(l.sock)
  {
    var rest := [l] + behind;
    RebornAppend(before, rest);
    OneReborn(l);
    assert Reborn(rest) == [Inherited(l)] + Reborn(behind);
    LookupAppend(Reborn(before), Reborn(rest), l.key);
  }

  /** A comma in a key: only what is behind the last one is left of it. */
  lemma {:induction false} CommaCuts(l: Listening, front: string, tail: string)
    requires l.key == front + ("," + tail) && CleanKey(tail)
    ensures Parse(Item(l)) == Parse(front) + [Listening(0, l.sock, DomainOf(tail), tail)]
  {
    var l' := l.(key := tail);
    Regroup(front, ",", tail, "=" + Printed(l.sock));
    ParseAppend(front, Item(l'));
    OneReborn(l');
  }

  lemma {:induction false} DigitsStop(s: string, rest: string, acc: nat)
    requires rest != "" && !IsDigit(rest[0])
    ensures Digits(s + rest, acc) == Digits(s, acc)
    decreases |s|
  {
    if s == "" {
      assert s + rest == rest;
    } else if IsDigit(s[0]) {
      assert (s + rest)[1..] == s[1..] + rest;
      DigitsStop(s[1..], rest, acc * 10 + DigitValue(s[0]));
    }
  }

  lemma {:induction false} AtoiStops(s: string, rest: string)
    requires rest != "" && rest[0] == '='
    ensures Atoi(s + rest) == Atoi(s)
  {
    DigitsStop(s, rest, 0);
    if s == "" {
      assert s + rest == rest;
    } else {
      assert (s + rest)[1..] == s[1..] + rest;
      DigitsStop(s[1..], rest, 0);
    }
  }

  /** An equals sign in a key: the key ends there, and the descriptor is what follows. */
  lemma {:induction false} EqualsCuts(l: Listening, front: string, tail: string)
    requires l.key == front + ("=" + tail) && CleanKey(front) && ',' !in tail
    ensures Parse(Item(l)) == [Listening(0, Atoi(tail), DomainOf(front), front)]
  {
    var number := tail + ("=" + Printed(l.sock));
    Regroup(front, "=", tail, "=" + Printed(l.sock));
    ItemCut(front, number);
    AtoiStops(tail, "=" + Printed(l.sock));
    ParseLast(Item(l));
  }

  /** A pool whose own key is clean gets the descriptor of a socket in front of it. */
  lemma {:induction false} AnotherDescriptor(comma: Listening, clean: Listening, path: string)
    requires CleanKey(path) && path != "" && CleanKey(clean.key) && comma.key == path + ("," + clean.key)
    ensures Lookup(Parse(Serialise([comma, clean])), clean.key) == Some(comma.sock)
  {
    ReadsBack([comma, clean]);
    OneCut(comma, path, clean.key);
    assert Reborn([comma, clean]) == Parse(Item(comma)) + Reborn([clean]);
    FirstWithIs(Reborn([comma, clean]), clean.key, 0);
  }

  lemma {:induction false} OneCut(l: Listening, path: string, other: string)
    requires CleanKey(path) && path != "" && CleanKey(other) && l.key == path + ("," + other)
    ensures Parse(Item(l)) == [Listening(0, l.sock, DomainOf(other), other)]
  {
    ParseLast(path);
    CommaCuts(l, path, other);
    assert Parse(path) == [];
  }

  /**
   * Keys that do not come back: `/tmp/a,/b` is read as `/b`, and `/tmp/a=5` as `/tmp/a` with descriptor 5; and with
   * the first of them in front, the pool of `/b` gets the descriptor of another one.
   */
  lemma {:induction false} KeysAreCut()
    ensures Parse(Serialise([Listening(1, 3, Unix, "/tmp/a,/b")])) == [Listening(0, 3, Unix, "/b")]
    ensures Parse(Serialise([Listening(1, 3, Unix, "/tmp/a=5")])) == [Listening(0, 5, Unix, "/tmp/a")]
    ensures Lookup(Parse(Serialise([Listening(1, 3, Unix, "/tmp/a,/b"), Listening(1, 4, Unix, "/b")])), "/b") == Some(3)
  {
    var comma, equals := Listening(1, 3, Unix, "/tmp/a,/b"), Listening(1, 3, Unix, "/tmp/a=5");
    assert comma.key == "/tmp/a" + ("," + "/b") && equals.key == "/tmp/a" + ("=" + "5");
    OneCut(comma, "/tmp/a", "/b");
    EqualsCuts(equals, "/tmp/a", "5");
    AnotherDescriptor(comma, Listening(1, 4, Unix, "/b"), "/tmp/a");
    PathsAreUnix();
  }

  lemma {:induction false} PathsAreUnix()
    ensures DomainOf("/b") == DomainOf("/tmp/a") == Unix && Atoi("5") == 5
  {
    SlashIsNoDigit("/b");
    assert "/tmp/a"[0] == '/';
    SlashIsNoDigit("/tmp/a");
    assert "5"[1..] == "";
  }

  // ---- Keys and types of configured addresses -----------------------------------------------

  /** What a worker pool says about its socket: the type of its address, and its key. */
  datatype PoolConfig = PoolConfig(isTemplate: bool, domain: Domain, key: string)

  /** The bytes in sun_path, a terminating NUL included. */
  const SUN_PATH := 108

  /** What a network address resolves to. */
  datatype Peer = Peer(a: Byte, b: Byte, c: Byte, d: Byte, port: nat)

  function InetKey(p: Peer): string {
    Decimal(p.a) + ("." + (Decimal(p.b) + ("." + (Decimal(p.c) + ("." + (Decimal(p.d) + (":" + Decimal(p.port))))))))
  }

  /** fpm_evaluate_full_path: a relative path is put behind PHP_PREFIX. */
  function FullPath(prefix: string, path: string): string {
    if path != "" && path[0] == '/' then path else prefix + "/" + path
  }

  /** cpystrn into sun_path. */
  function UnixKey(path: string): string {
    if |path| < SUN_PATH then path else path[..SUN_PATH - 1]
  }

  /** What becomes of the listen address of a pool: its type is fixed before a relative path is made absolute. */
  function Configured(listen: string, prefix: string, peer: Peer): PoolConfig {
    if listen == "" then PoolConfig(true, Inet, "")
    else if DomainOf(listen) == Inet then PoolConfig(false, Inet, InetKey(peer))
    else PoolConfig(false, Unix, UnixKey(FullPath(prefix, listen)))
  }

  /** A prefix that does not make a path look like a network address. */
  predicate PlainPrefix(prefix: string) {
    if |prefix| < SUN_PATH - 1 then ':' !in prefix else DomainOf(prefix[..SUN_PATH - 1]) == Unix
  }

  lemma {:induction false} InetKeyIsClean(peer: Peer)
    ensures CleanKey(InetKey(peer)) && DomainOf(InetKey(peer)) == Inet
  {
    assert ':' in InetKey(peer);
  }

  /** Only an empty address makes a template; a path is its own key, behind the prefix and a slash if it is relative. */
  lemma {:induction false} ConfiguredExactly(listen: string, prefix: string, peer: Peer)
    ensures var pool := Configured(listen, prefix, peer);
      && (pool.isTemplate <==> |listen| == 0)
      && (DomainOf(listen) == Unix ==>
        var full := if listen[0] == '/' then listen else prefix + ("/" + listen);
        pool.domain == Unix && |pool.key| <= 107 && pool.key <= full && (|pool.key| < 107 ==> pool.key == full))
  {
    if DomainOf(listen) == Unix {
      Assoc(prefix, "/", listen);
    }
  }

  /** A number in front of something else is read back, and so is what is behind it. */
  lemma {:induction false} NumberFirst(m: nat, n: nat, a: string, b: string)
    requires a != "" && b != "" && !IsDigit(a[0]) && !IsDigit(b[0]) && Decimal(m) + a == Decimal(n) + b
    ensures m == n && a[1..] == b[1..]
  {
    DigitsStop(Decimal(m), a, 0);
    DigitsStop(Decimal(n), b, 0);
    DigitsOfDecimal(m);
    DigitsOfDecimal(n);
    var k := |Decimal(m)|;
    assert (Decimal(m) + a)[k..] == a && (Decimal(n) + b)[k..] == b;
  }

  /** Different network addresses have different keys. */
  lemma {:induction false} InetKeyIsUnique(p: Peer, q: Peer)
    requires InetKey(p) == InetKey(q)
    ensures p == q
  {
    var p4, q4 := Decimal(p.d) + (":" + Decimal(p.port)), Decimal(q.d) + (":" + Decimal(q.port));
    var p3, q3 := Decimal(p.c) + ("." + p4), Decimal(q.c) + ("." + q4);
    var p2, q2 := Decimal(p.b) + ("." + p3), Decimal(q.b) + ("." + q3);
    NumberFirst(p.a, q.a, "." + p2, "." + q2);
    Tails('.', p2, q2);
    NumberFirst(p.b, q.b, "." + p3, "." + q3);
    Tails('.', p3, q3);
    NumberFirst(p.c, q.c, "." + p4, "." + q4);
    Tails('.', p4, q4);
    NumberFirst(p.d, q.d, ":" + Decimal(p.port), ":" + Decimal(q.port));
    Tails(':', Decimal(p.port), Decimal(q.port));
    DigitsOfDecimal(p.port);
    DigitsOfDecimal(q.port);
  }

  lemma {:induction false} Tails(c: char, a: string, b: string)
    ensures ([c] + a)[1..] == a && ([c] + b)[1..] == b
  {
  }

  /** A slash in a text shows that it is no port number. */
  lemma {:induction false} SlashIsNoDigit(s: string)
    requires '/' in s
    ensures DomainOf(s) == Inet <==> ':' in s
  {
    var i :| 0 <= i < |s| && s[i] == '/';
    assert !IsDigit(s[i]);
  }

  /** The key of a relative path looks like a path if and only if the prefix does. */
  lemma {:induction false} RelativeKey(prefix: string, path: string)
    requires ':' !in path
    ensures DomainOf(UnixKey(prefix + "/" + path)) == Unix <==> PlainPrefix(prefix)
  {
    var full := prefix + "/" + path;
    var key := UnixKey(full);
    if |prefix| < SUN_PATH - 1 {
      var cut := if |full| < SUN_PATH then |path| else SUN_PATH - 1 - |prefix| - 1;
      assert key == prefix + "/" + path[..cut];
      SlashIsNoDigit(key);
    } else {
      assert key == prefix[..SUN_PATH - 1] || (|full| < SUN_PATH && key == full);
      assert |full| >= SUN_PATH;
    }
  }

  /**
   * The key of a pool looks like its type, with one exception: the address is a relative path, and PHP_PREFIX makes
   * it look like a network address. Then the socket has another type after exec.
   */
  lemma {:induction false} TypeOfKey(listen: string, prefix: string, peer: Peer)
    requires listen != ""
    ensures var pool := Configured(listen, prefix, peer);
      DomainOf(pool.key) == pool.domain <==> DomainOf(listen) == Inet || listen[0] == '/' || PlainPrefix(prefix)
  {
    if DomainOf(listen) == Inet {
      InetKeyIsClean(peer);
    } else if listen[0] == '/' {
      var key := UnixKey(listen);
      assert key[0] == '/' && forall i :: 0 <= i < |key| ==> key[i] == listen[i];
      SlashIsNoDigit(key);
    } else {
      RelativeKey(prefix, listen);
    }
  }

  /** Such a socket: a path before exec, a network address after it. */
  lemma {:induction false} TypeChanges()
    ensures var pool := Configured("fpm", "/a:b", Peer(0, 0, 0, 0, 0));
      && pool == PoolConfig(false, Unix, "/a:b/fpm")
      && Parse(Serialise([Listening(1, 3, Unix, pool.key)])) == [Listening(0, 3, Inet, pool.key)]
  {
    var key := "/a:b/fpm";
    assert Configured("fpm", "/a:b", Peer(0, 0, 0, 0, 0)) == PoolConfig(false, Unix, key) by {
      assert !IsDigit("fpm"[0]);
      assert "/a:b" + "/" + "fpm" == key;
    }
    assert key[2] == ':';
    OneReborn(Listening(1, 3, Unix, key));
  }
}
