/** The table of listening sockets: fpm/fpm_sockets.c. */
module Sockets {
  import opened Basics
  import opened FpmArrays
  import opened SocketNames

  /** FPM_CLEANUP_CHILD, _PARENT_EXIT, _PARENT_EXIT_MAIN and _PARENT_EXEC. */
  datatype Cleanup = ChildProcess | ParentExit | ParentExitMain | ParentExec

  /**
   * What happens when a pool asks for its socket: whether its port is not 0, its host is known and its permissions
   * are resolved, and the descriptor of a new socket, if one can be made.
   */
  datatype Outcome = Outcome(ready: bool, created: Option<nat>)

  /** How many pools that are no templates use a key. */
  function Users(pools: seq<PoolConfig>, key: string): nat {
    if pools == [] then 0
    else
      var front, last := pools[..|pools| - 1], pools[|pools| - 1];
      Users(front, key) + (if !last.isTemplate && last.key == key then 1 else 0)
  }

  /** Some socket from `n` on has this key and descriptor. */
  ghost predicate Serves(ls: seq<Listening>, n: nat, key: string, sock: int) {
    exists i :: n <= i < |ls| && ls[i].key == key && ls[i].sock == sock
  }

  /** A key that was inherited with a negative number: its pools find it and still make sockets of their own. */
  predicate Broken(ls: seq<Listening>, key: string) {
    var sock := Lookup(ls, key);
    sock.Some? && sock.value < 0
  }

  /** The first socket with a key counts its users; another one was inherited and has none, or was made for one pool. */
  predicate CountedAt(ls: seq<Listening>, n: nat, pools: seq<PoolConfig>, i: nat)
    requires i < |ls|
  {
    var users := Users(pools, ls[i].key);
    if FirstWith(ls, ls[i].key) == i then ls[i].refcount == users
    else if i < n then ls[i].refcount == 0
    else ls[i].refcount == 1 && users > 0
  }

  ghost predicate Refs(ls: seq<Listening>, n: nat, pools: seq<PoolConfig>) {
    forall i :: 0 <= i < |ls| ==> CountedAt(ls, n, pools, i)
  }

  /** The sockets from `n` on were made; one of them is not the first with its key only if that key is broken. */
  ghost predicate Made(ls: seq<Listening>, n: nat) {
    forall i :: n <= i < |ls| ==>
      ls[i].sock >= 0 && (FirstWith(ls, ls[i].key) == i || Broken(ls, ls[i].key))
  }

  /** A pool with this key has this descriptor. */
  ghost predicate Has(ls: seq<Listening>, n: nat, key: string, sock: int) {
    && Lookup(ls, key).Some?
    && if Broken(ls, key) then Serves(ls, n, key, sock) else Lookup(ls, key) == Some(sock)
  }

  ghost predicate Given(ls: seq<Listening>, n: nat, pools: seq<PoolConfig>, socks: seq<int>) {
    |socks| == |pools| && forall p :: 0 <= p < |pools| ==> pools[p].isTemplate || Has(ls, n, pools[p].key, socks[p])
  }

  /** After these pools, with n inherited sockets. */
  ghost predicate Counted(ls: seq<Listening>, n: nat, pools: seq<PoolConfig>, socks: seq<int>) {
    Refs(ls, n, pools) && Made(ls, n) && Given(ls, n, pools, socks)
  }

  /** Every key with users is in the table. */
  lemma {:induction false} UsersAreListed(ls: seq<Listening>, n: nat, pools: seq<PoolConfig>, socks: seq<int>,
      key: string)
    requires Given(ls, n, pools, socks) && Lookup(ls, key).None?
    ensures Users(pools, key) == 0
    decreases |pools|
  {
    if pools != [] {
      UsersAreListed(ls, n, pools[..|pools| - 1], socks[..|pools| - 1], key);
      var last := pools[|pools| - 1];
      assert last.isTemplate || Has(ls, n, last.key, socks[|pools| - 1]);
    }
  }

  lemma {:induction false} UsersSnoc(pools: seq<PoolConfig>, pool: PoolConfig, key: string)
    ensures Users(pools + [pool], key) == Users(pools, key) + (if !pool.isTemplate && pool.key == key then 1 else 0)
  {
    assert (pools + [pool])[..|pools|] == pools;
  }

  function WithUser(ls: seq<Listening>, k: nat): seq<Listening>
    requires k < |ls|
  {
    ls[k := ls[k].(refcount := ls[k].refcount + 1)]
  }

  lemma {:induction false} SameFirst(ls: seq<Listening>, ls': seq<Listening>, key: string)
    requires |ls| == |ls'| && forall i :: 0 <= i < |ls| ==> ls[i].key == ls'[i].key
    ensures FirstWith(ls, key) == FirstWith(ls', key)
  {
    FirstWithIs(ls', key, FirstWith(ls, key));
  }

  /** One more user: the counts. */
  lemma {:induction false} UseCounts(ls: seq<Listening>, n: nat, pools: seq<PoolConfig>, pool: PoolConfig)
    requires Refs(ls, n, pools) && !pool.isTemplate && FirstWith(ls, pool.key) < |ls|
    ensures Refs(WithUser(ls, FirstWith(ls, pool.key)), n, pools + [pool])
  {
    var ls' := WithUser(ls, FirstWith(ls, pool.key));
    forall i | 0 <= i < |ls'| ensures CountedAt(ls', n, pools + [pool], i) {
      SameFirst(ls, ls', ls[i].key);
      UsersSnoc(pools, pool, ls[i].key);
      assert CountedAt(ls, n, pools, i);
    }
  }

  /** One more user: who has what. */
  lemma {:induction false} UseGives(ls: seq<Listening>, n: nat, pools: seq<PoolConfig>, socks: seq<int>, k: nat)
    requires Made(ls, n) && Given(ls, n, pools, socks) && k < |ls|
    ensures Made(WithUser(ls, k), n) && Given(WithUser(ls, k), n, pools, socks)
  {
    var ls' := WithUser(ls, k);
    forall i | n <= i < |ls'| ensures ls'[i].sock >= 0 && (FirstWith(ls', ls'[i].key) == i || Broken(ls', ls'[i].key)) {
      SameFirst(ls, ls', ls[i].key);
    }
    forall p | 0 <= p < |pools| && !pools[p].isTemplate ensures Has(ls', n, pools[p].key, socks[p]) {
      UseHas(ls, n, k, pools[p].key, socks[p]);
    }
  }

  lemma {:induction false} UseHas(ls: seq<Listening>, n: nat, k: nat, key: string, sock: int)
    requires Has(ls, n, key, sock) && k < |ls|
    ensures Has(WithUser(ls, k), n, key, sock)
  {
    var ls' := WithUser(ls, k);
    SameFirst(ls, ls', key);
    if Broken(ls, key) {
      var i :| n <= i < |ls| && ls[i].key == key && ls[i].sock == sock;
      assert ls'[i].key == key && ls'[i].sock == sock;
    }
  }

  lemma {:induction false} FirstAppend(ls: seq<Listening>, l: Listening, key: string)
    ensures FirstWith(ls + [l], key) ==
      if FirstWith(ls, key) < |ls| || l.key == key then FirstWith(ls, key) else |ls| + 1
  {
    FirstWithIs(ls + [l], key,
                if FirstWith(ls, key) < |ls| || l.key == key then FirstWith(ls, key) else |ls| + 1);
  }

  /** A new socket, for a key that is not there or is broken: who has what. */
  lemma {:induction false} NewGives(ls: seq<Listening>, n: nat, pools: seq<PoolConfig>, socks: seq<int>, l: Listening)
    requires Made(ls, n) && Given(ls, n, pools, socks) && n <= |ls|
    requires l.sock >= 0 && (Lookup(ls, l.key).None? || Broken(ls, l.key))
    ensures Made(ls + [l], n) && Given(ls + [l], n, pools, socks) && Has(ls + [l], n, l.key, l.sock)
  {
    var ls' := ls + [l];
    forall i | n <= i < |ls'| ensures ls'[i].sock >= 0 && (FirstWith(ls', ls'[i].key) == i || Broken(ls', ls'[i].key)) {
      FirstAppend(ls, l, ls'[i].key);
    }
    forall p | 0 <= p < |pools| && !pools[p].isTemplate ensures Has(ls', n, pools[p].key, socks[p]) {
      NewHas(ls, n, l, pools[p].key, socks[p]);
    }
    FirstAppend(ls, l, l.key);
    assert ls'[|ls|] == l;
  }

  lemma {:induction false} NewHas(ls: seq<Listening>, n: nat, l: Listening, key: string, sock: int)
    requires Has(ls, n, key, sock)
    ensures Has(ls + [l], n, key, sock)
  {
    FirstAppend(ls, l, key);
    if Broken(ls, key) {
      var i :| n <= i < |ls| && ls[i].key == key && ls[i].sock == sock;
      assert (ls + [l])[i] == ls[i];
    }
  }

  /** A new socket for one pool: the counts. The pool is counted here if its key was not there before. */
  lemma {:induction false} NewCounts(ls: seq<Listening>, n: nat, pools: seq<PoolConfig>, pools': seq<PoolConfig>,
      l: Listening)
    requires Refs(ls, n, pools) && n <= |ls| && l.refcount == 1
    requires if Lookup(ls, l.key).Some? then pools' == pools && Users(pools, l.key) > 0
      else Users(pools, l.key) == 0 && exists pool :: pools' == pools + [pool] && !pool.isTemplate && pool.key == l.key
    ensures Refs(ls + [l], n, pools')
  {
    var ls' := ls + [l];
    forall i | 0 <= i < |ls'| ensures CountedAt(ls', n, pools', i) {
      FirstAppend(ls, l, ls'[i].key);
      if Lookup(ls, l.key).None? {
        var pool :| pools' == pools + [pool] && !pool.isTemplate && pool.key == l.key;
        UsersSnoc(pools, pool, ls'[i].key);
      }
      assert i < |ls| ==> ls'[i] == ls[i] && CountedAt(ls, n, pools, i);
    }
  }

  lemma {:induction false} GivenSnoc(ls: seq<Listening>, n: nat, pools: seq<PoolConfig>, socks: seq<int>,
      pool: PoolConfig, sock: int)
    requires Given(ls, n, pools, socks) && (pool.isTemplate || Has(ls, n, pool.key, sock))
    ensures Given(ls, n, pools + [pool], socks + [sock])
  {
    var pools', socks' := pools + [pool], socks + [sock];
    forall p | 0 <= p < |pools'| ensures pools'[p].isTemplate || Has(ls, n, pools'[p].key, socks'[p]) {
      assert p < |pools| ==> pools'[p] == pools[p] && socks'[p] == socks[p];
    }
  }

  /** A pool's socket and the table afterwards. */
  datatype Got = Got(sock: int, ls: seq<Listening>)

  function Taken(ls: seq<Listening>, pool: PoolConfig, created: int): Got {
    var k := FirstWith(ls, pool.key);
    var used := if k < |ls| then WithUser(ls, k) else ls;
    if k < |ls| && ls[k].sock >= 0 then Got(ls[k].sock, used)
    else Got(created, used + [Listening(1, created, pool.domain, pool.key)])
  }

  /** The same sockets at the front, apart from their users; those behind them have users. */
  predicate Extends(ls: seq<Listening>, base: seq<Listening>) {
    && |base| <= |ls|
    && (forall i :: 0 <= i < |base| ==> ls[i].(refcount := base[i].refcount) == base[i])
    && forall i :: |base| <= i < |ls| ==> ls[i].refcount > 0
  }

  /** A key that needs no new socket: it was inherited with a descriptor, or an earlier pool has it. */
  predicate Known(base: seq<Listening>, earlier: seq<PoolConfig>, key: string) {
    var sock := Lookup(base, key);
    if sock.Some? then sock.value >= 0 else Users(earlier, key) > 0
  }

  predicate Obtainable(base: seq<Listening>, earlier: seq<PoolConfig>, pool: PoolConfig, outcome: Outcome) {
    pool.isTemplate || (outcome.ready && (Known(base, earlier, pool.key) || outcome.created.Some?))
  }

  /** Where the socket of a pool comes from, unless it shares the one that an earlier pool made. */
  predicate From(base: seq<Listening>, earlier: seq<PoolConfig>, pool: PoolConfig, outcome: Outcome, sock: int) {
    var had := Lookup(base, pool.key);
    if pool.isTemplate then sock == 0
    else if had.Some? && had.value >= 0 then sock == had.value
    else Users(earlier, pool.key) == 0 || had.Some? ==> outcome.created == Some(sock)
  }

  lemma {:induction false} FrontLookup(ls: seq<Listening>, base: seq<Listening>, key: string)
    requires Extends(ls, base) && Lookup(base, key).Some?
    ensures Lookup(ls, key) == Lookup(base, key)
  {
    var k := FirstWith(base, key);
    assert ls[k].(refcount := base[k].refcount) == base[k];
    FirstWithIs(ls, key, k);
  }

  lemma {:induction false} NotInFront(ls: seq<Listening>, base: seq<Listening>, key: string)
    requires Extends(ls, base) && Lookup(base, key).None?
    ensures FirstWith(ls, key) >= |base|
  {
    forall i | 0 <= i < |base| ensures ls[i].key != key {
      assert ls[i].(refcount := base[i].refcount) == base[i];
    }
  }

  /** The table has a descriptor for a key if and only if it was inherited with one, or has a user and was not. */
  lemma {:induction false} FoundIsKnown(ls: seq<Listening>, base: seq<Listening>, pools: seq<PoolConfig>,
      socks: seq<int>, key: string)
    requires Counted(ls, |base|, pools, socks) && Extends(ls, base)
    ensures Lookup(ls, key).Some? && !Broken(ls, key) <==> Known(base, pools, key)
    ensures Broken(ls, key) <==> Broken(base, key)
  {
    var k := FirstWith(ls, key);
    if Lookup(base, key).Some? {
      FrontLookup(ls, base, key);
    } else if k == |ls| {
      UsersAreListed(ls, |base|, pools, socks, key);
    } else {
      NotInFront(ls, base, key);
      assert CountedAt(ls, |base|, pools, k);
    }
  }

  lemma {:induction false} TakenExtends(ls: seq<Listening>, base: seq<Listening>, pool: PoolConfig, created: int)
    requires Extends(ls, base)
    ensures Extends(Taken(ls, pool, created).ls, base)
  {
  }

  /** One more pool, whether it shares a socket or has a new one. */
  lemma {:induction false} CountedTaken(ls: seq<Listening>, n: nat, pools: seq<PoolConfig>, socks: seq<int>,
      pool: PoolConfig, created: int)
    requires Counted(ls, n, pools, socks) && n <= |ls| && !pool.isTemplate && created >= -1
    ensures var got := Taken(ls, pool, created);
      got.sock != -1 ==> Counted(got.ls, n, pools + [pool], socks + [got.sock])
  {
    var k, got := FirstWith(ls, pool.key), Taken(ls, pool, created);
    if k < |ls| {
      UseCounts(ls, n, pools, pool);
      UseGives(ls, n, pools, socks, k);
      SameFirst(ls, WithUser(ls, k), pool.key);
    } else {
      UsersAreListed(ls, n, pools, socks, pool.key);
    }
    if k < |ls| && ls[k].sock >= 0 {
      GivenSnoc(got.ls, n, pools, socks, pool, got.sock);
    } else if created >= 0 {
      CountedNew(if k < |ls| then WithUser(ls, k) else ls, n, pools, socks, pool, created);
    }
  }

  lemma {:induction false} CountedNew(used: seq<Listening>, n: nat, pools: seq<PoolConfig>, socks: seq<int>,
      pool: PoolConfig, created: nat)
    requires Made(used, n) && Given(used, n, pools, socks) && n <= |used| && !pool.isTemplate
    requires if Lookup(used, pool.key).Some? then Broken(used, pool.key) && Refs(used, n, pools + [pool])
      else Refs(used, n, pools) && Users(pools, pool.key) == 0
    ensures Counted(used + [Listening(1, created, pool.domain, pool.key)], n, pools + [pool], socks + [created])
  {
    var l := Listening(1, created, pool.domain, pool.key);
    UsersSnoc(pools, pool, pool.key);
    NewCounts(used, n, if Lookup(used, pool.key).Some? then pools + [pool] else pools, pools + [pool], l);
    NewGives(used, n, pools, socks, l);
    GivenSnoc(used + [l], n, pools, socks, pool, created);
  }

  lemma {:induction false} TakenFrom(ls: seq<Listening>, base: seq<Listening>, pools: seq<PoolConfig>, socks: seq<int>,
      pool: PoolConfig, outcome: Outcome)
    requires Counted(ls, |base|, pools, socks) && Extends(ls, base) && !pool.isTemplate && outcome.ready
    ensures var sock := Taken(ls, pool, if outcome.created.Some? then outcome.created.value else -1).sock;
      && (sock != -1 <==> Obtainable(base, pools, pool, outcome))
      && (sock != -1 ==> From(base, pools, pool, outcome, sock))
  {
    FoundIsKnown(ls, base, pools, socks, pool.key);
    if Lookup(base, pool.key).Some? {
      FrontLookup(ls, base, pool.key);
    }
  }

  lemma {:induction false} CountedTemplate(ls: seq<Listening>, n: nat, pools: seq<PoolConfig>, socks: seq<int>,
      pool: PoolConfig)
    requires Counted(ls, n, pools, socks) && pool.isTemplate
    ensures Counted(ls, n, pools + [pool], socks + [0])
  {
    forall i | 0 <= i < |ls| ensures CountedAt(ls, n, pools + [pool], i) {
      UsersSnoc(pools, pool, ls[i].key);
      assert CountedAt(ls, n, pools, i);
    }
    GivenSnoc(ls, n, pools, socks, pool, 0);
  }

  /** What From says, for the first pools. */
  predicate AllFrom(base: seq<Listening>, pools: seq<PoolConfig>, outcomes: seq<Outcome>, socks: seq<int>) {
    && |socks| <= |pools| == |outcomes|
    && forall p :: 0 <= p < |socks| ==> From(base, pools[..p], pools[p], outcomes[p], socks[p])
  }

  lemma {:induction false} AllFromSnoc(base: seq<Listening>, pools: seq<PoolConfig>, outcomes: seq<Outcome>,
      socks: seq<int>, sock: int)
    requires AllFrom(base, pools, outcomes, socks) && |socks| < |pools|
    requires From(base, pools[..|socks|], pools[|socks|], outcomes[|socks|], sock)
    ensures AllFrom(base, pools, outcomes, socks + [sock])
  {
    var socks' := socks + [sock];
    forall p | 0 <= p < |socks'| ensures From(base, pools[..p], pools[p], outcomes[p], socks'[p]) {
      assert p < |socks| ==> socks'[p] == socks[p];
    }
  }

  /** Each of the first w pools can have its socket, after those before it have theirs. */
  predicate ObtainableTo(base: seq<Listening>, pools: seq<PoolConfig>, outcomes: seq<Outcome>, w: nat)
    requires w <= |outcomes| == |pools|
  {
    forall p :: 0 <= p < w ==> Obtainable(base, pools[..p], pools[p], outcomes[p])
  }

  predicate AllObtainable(base: seq<Listening>, pools: seq<PoolConfig>, outcomes: seq<Outcome>)
    requires |outcomes| == |pools|
  {
    ObtainableTo(base, pools, outcomes, |pools|)
  }

  /** One more pool; if it cannot have its socket then not all can. */
  lemma {:induction false} ObtainableSnoc(base: seq<Listening>, pools: seq<PoolConfig>, outcomes: seq<Outcome>, w: nat)
    requires w < |pools| == |outcomes| && ObtainableTo(base, pools, outcomes, w)
    ensures if Obtainable(base, pools[..w], pools[w], outcomes[w]) then ObtainableTo(base, pools, outcomes, w + 1)
      else !AllObtainable(base, pools, outcomes)
  {
  }

  /** After the first pools, from the inherited sockets `base`. */
  ghost predicate Acquired(ls: seq<Listening>, base: seq<Listening>, pools: seq<PoolConfig>, outcomes: seq<Outcome>,
      socks: seq<int>)
  {
    && AllFrom(base, pools, outcomes, socks)
    && Counted(ls, |base|, pools[..|socks|], socks) && Extends(ls, base)
  }

  /** Every type is the one that the key looks like. */
  predicate AllTyped(ls: seq<Listening>) {
    forall i :: 0 <= i < |ls| ==> ls[i].kind == DomainOf(ls[i].key)
  }

  lemma {:induction false} TakenTyped(ls: seq<Listening>, pool: PoolConfig, created: int)
    requires AllTyped(ls) && pool.domain == DomainOf(pool.key)
    ensures AllTyped(Taken(ls, pool, created).ls)
  {
  }

  lemma {:induction false} NothingAcquired(base: seq<Listening>, pools: seq<PoolConfig>, outcomes: seq<Outcome>)
    requires NoUsers(base) && |outcomes| == |pools|
    ensures Acquired(base, base, pools, outcomes, [])
  {
    assert pools[..0] == [];
  }

  predicate PoolsTyped(pools: seq<PoolConfig>) {
    forall p :: 0 <= p < |pools| && !pools[p].isTemplate ==> pools[p].domain == DomainOf(pools[p].key)
  }

  predicate NoUsers(ls: seq<Listening>) {
    forall i :: 0 <= i < |ls| ==> ls[i].refcount == 0
  }

  lemma {:induction false} NoUsersSnoc(ls: seq<Listening>, l: Listening)
    requires NoUsers(ls) && l.refcount == 0
    ensures NoUsers(ls + [l])
  {
  }

  /** Closed descriptors, in order. */
  function Socks(ls: seq<Listening>): seq<int> {
    seq(|ls|, i requires 0 <= i < |ls| => ls[i].sock)
  }

  /** The paths among the keys. */
  function Paths(ls: seq<Listening>): seq<string> {
    if ls == [] then [] else Paths(ls[..|ls| - 1]) + (if ls[|ls| - 1].kind == Unix then [ls[|ls| - 1].key] else [])
  }

  class Table {
    const list: FpmArray<Listening>
    var env: Option<string>           // FPM_SOCKETS
    ghost var closed: seq<int>
    ghost var unlinked: seq<string>

    constructor (env: Option<string>)
      ensures Valid() && list.items == [] && this.env == env && closed == [] && unlinked == []
      ensures fresh(list) && fresh(list.data)
    {
      list := new FpmArray<Listening>(Listening(0, 0, Inet, ""), 10);
      this.env := env;
      closed, unlinked := [], [];
    }

    ghost predicate Valid()
      reads this, list, list.data
    {
      list.Valid()
    }

    /** fpm_sockets_hash_op with FPM_GET_USE_SOCKET: the first socket with the key gets a user; -1 without one. */
    method GetUse(key: string) returns (sock: int)
      requires Valid()
      modifies list`items, list.data
      ensures Valid()
      ensures var k := FirstWith(old(list.items), key);
        if k < |old(list.items)| then
          sock == old(list.items)[k].sock && list.items == WithUser(old(list.items), k)
        else sock == -1 && list.items == old(list.items)
    {
      var i := 0;
      while i < list.used
        invariant 0 <= i <= list.used && Valid() && list.items == old(list.items)
        invariant forall j :: 0 <= j < i ==> list.items[j].key != key
      {
        var ls := list.Item(i);
        if ls.key == key {
          FirstWithIs(list.items, key, i);
          list.SetItem(i, ls.(refcount := ls.refcount + 1));
          return ls.sock;
        }
        i := i + 1;
      }
      FirstWithIs(list.items, key, i);
      return -1;
    }

    /** FPM_STORE_SOCKET for an inherited one, FPM_STORE_USE_SOCKET for a new one. */
    method Store(sock: int, key: string, kind: Domain, use: bool)
      requires Valid()
      modifies list, list.data
      ensures Valid() && list.items == old(list.items) + [Listening(if use then 1 else 0, sock, kind, key)]
      ensures list.data == old(list.data) || fresh(list.data)
    {
      list.Push(Listening(if use then 1 else 0, sock, kind, key));
    }

    /** One item of the inherited value. */
    method ImportOne(item: string)
      requires Valid()
      modifies list, list.data
      ensures Valid() && list.items == old(list.items) + ParseItem(item)
      ensures list.data == old(list.data) || fresh(list.data)
    {
      var eq := Find(item, '=');
      if eq < |item| {
        Store(Atoi(item[eq + 1..]), item[..eq], DomainOf(item[..eq]), false);
      } else {
        assert list.items + [] == list.items;
      }
    }

    /** The import of the inherited sockets. */
    method Import(value: string)
      requires Valid()
      modifies list, list.data
      ensures Valid() && list.items == old(list.items) + Parse(value)
      ensures list.data == old(list.data) || fresh(list.data)
    {
      var inherited := value;
      ghost var all := list.items + Parse(value);
      while inherited != ""
        invariant Valid() && list.items + Parse(inherited) == all
        invariant list.data == old(list.data) || fresh(list.data)
        decreases |inherited|
      {
        var comma := Find(inherited, ',');
        Assoc(list.items, ParseItem(inherited[..comma]), Parse(Rest(inherited)));
        ImportOne(inherited[..comma]);
        inherited := if comma < |inherited| then inherited[comma + 1..] else "";
      }
      assert list.items + [] == list.items;
    }

    /** fpm_sockets_get_listening_socket: a shared socket, or a new one; `created` is -1 when none can be made. */
    method GetListening(pool: PoolConfig, created: int) returns (sock: int)
      requires Valid() && created >= -1
      modifies list, list.data
      ensures Valid() && (list.data == old(list.data) || fresh(list.data))
      ensures Got(sock, list.items) == Taken(old(list.items), pool, created)
    {
      sock := GetUse(pool.key);
      if sock >= 0 {
        return;
      }
      sock := created;         // fpm_sockets_new_listening_socket
      Store(sock, pool.key, pool.domain, true);
    }

    /** One pool that is no template, or -1; `earlier` are the pools before it, with their sockets. */
    method AcquireOne(pool: PoolConfig, outcome: Outcome, ghost base: seq<Listening>, ghost earlier: seq<PoolConfig>,
        ghost socks: seq<int>)
      returns (sock: int)
      requires Valid() && Counted(list.items, |base|, earlier, socks) && Extends(list.items, base)
      requires !pool.isTemplate
      modifies list, list.data
      ensures Valid() && (list.data == old(list.data) || fresh(list.data))
      ensures sock != -1 <==> Obtainable(base, earlier, pool, outcome)
      ensures sock != -1 ==>
        Counted(list.items, |base|, earlier + [pool], socks + [sock]) && From(base, earlier, pool, outcome, sock)
      ensures Extends(list.items, base)
      ensures AllTyped(old(list.items)) && pool.domain == DomainOf(pool.key) ==> AllTyped(list.items)
    {
      if !outcome.ready {
        return -1;
      }
      var created := if outcome.created.Some? then outcome.created.value else -1;
      CountedTaken(list.items, |base|, earlier, socks, pool, created);
      TakenExtends(list.items, base, pool, created);
      TakenFrom(list.items, base, earlier, socks, pool, outcome);
      if AllTyped(list.items) && pool.domain == DomainOf(pool.key) {
        TakenTyped(list.items, pool, created);
      }
      sock := GetListening(pool, created);
    }

    /** The next pool, or -1. */
    method AcquireNext(pools: seq<PoolConfig>, outcomes: seq<Outcome>, w: nat, ghost base: seq<Listening>,
        ghost socks: seq<int>)
      returns (sock: int)
      requires Valid() && |socks| == w < |pools| && Acquired(list.items, base, pools, outcomes, socks)
      modifies list, list.data
      ensures Valid() && (list.data == old(list.data) || fresh(list.data)) && Extends(list.items, base)
      ensures sock != -1 <==> Obtainable(base, pools[..w], pools[w], outcomes[w])
      ensures sock != -1 ==> Acquired(list.items, base, pools, outcomes, socks + [sock])
      ensures AllTyped(old(list.items)) && PoolsTyped(pools) ==> AllTyped(list.items)
    {
      TakeSnoc(pools, w);
      if pools[w].isTemplate {
        sock := 0;
        CountedTemplate(list.items, |base|, pools[..w], socks, pools[w]);
      } else {
        sock := AcquireOne(pools[w], outcomes[w], base, pools[..w], socks);
      }
      if sock != -1 {
        AllFromSnoc(base, pools, outcomes, socks, sock);
      }
    }

    /**
     * The sockets of all pools. It succeeds if and only if every pool is ready and either finds its key or can make a
     * socket. Then each used key has one socket, with as many users as pools have the key.
     */
    method Acquire(pools: seq<PoolConfig>, outcomes: seq<Outcome>) returns (ok: bool, socks: seq<int>)
      requires Valid() && NoUsers(list.items)
      requires |outcomes| == |pools|
      modifies list, list.data
      ensures Valid() && (list.data == old(list.data) || fresh(list.data))
      ensures ok <==> AllObtainable(old(list.items), pools, outcomes)
      ensures ok ==> |socks| == |pools| && Acquired(list.items, old(list.items), pools, outcomes, socks)
      ensures Extends(list.items, old(list.items))
      ensures AllTyped(old(list.items)) && PoolsTyped(pools) ==> AllTyped(list.items)
    {
      ghost var base := list.items;
      socks := [];
      NothingAcquired(base, pools, outcomes);
      var w := 0;
      while w < |pools|
        invariant 0 <= w <= |pools| && Valid() && (list.data == old(list.data) || fresh(list.data))
        invariant |socks| == w && Acquired(list.items, base, pools, outcomes, socks)
        invariant ObtainableTo(base, pools, outcomes, w)
        invariant AllTyped(base) && PoolsTyped(pools) ==> AllTyped(list.items)
      {
        var sock := AcquireNext(pools, outcomes, w, base, socks);
        ObtainableSnoc(base, pools, outcomes, w);
        if sock == -1 {
          return false, socks;
        }
        socks := socks + [sock];
        w := w + 1;
      }
      ok := true;
    }

    /** Closes a socket that nobody uses. */
    method CloseUnused(l: Listening)
      modifies this`closed, this`unlinked
      ensures closed == old(closed) + [l.sock]
      ensures unlinked == old(unlinked) + (if l.kind == Unix then [l.key] else [])
    {
      closed := closed + [l.sock];
      if l.kind == Unix {
        unlinked := unlinked + [l.key];
      } else {
        assert unlinked + [] == unlinked;
      }
    }

    /**
     * The sweep: every socket without users is closed exactly once and leaves the table, every other one stays;
     * `gone` are those that left, in order.
     */
    method Sweep() returns (ghost gone: seq<Listening>)
      requires Valid()
      modifies list`used, list`items, list.data, this`closed, this`unlinked
      ensures Valid()
      ensures multiset(list.items) + multiset(gone) == multiset(old(list.items))
      ensures forall i :: 0 <= i < |list.items| ==> list.items[i].refcount > 0
      ensures NoUsers(gone)
      ensures closed == old(closed) + Socks(gone) && unlinked == old(unlinked) + Paths(gone)
    {
      gone := [];
      var i := 0;
      ghost var all, closed0, unlinked0 := multiset(list.items), closed, unlinked;
      assert closed + Socks(gone) == closed && unlinked + Paths(gone) == unlinked;
      while i < list.used
        invariant 0 <= i <= list.used && Valid()
        invariant multiset(list.items) + multiset(gone) == all
        invariant forall j :: 0 <= j < i ==> list.items[j].refcount > 0
        invariant NoUsers(gone)
        invariant closed == closed0 + Socks(gone) && unlinked == unlinked0 + Paths(gone)
        decreases list.used - i
      {
        var ls := list.Item(i);
        if ls.refcount == 0 {
          NoUsersSnoc(gone, ls);
          gone := Drop(ls, i, gone, all, closed0, unlinked0);
        } else {
          i := i + 1;
        }
      }
    }

    /** One socket without users: closed, and its place filled from the end. */
    method Drop(l: Listening, i: nat, ghost gone: seq<Listening>, ghost all: multiset<Listening>,
        ghost closed0: seq<int>, ghost unlinked0: seq<string>)
      returns (ghost more: seq<Listening>)
      requires Valid() && i < list.used && list.items[i] == l && multiset(list.items) + multiset(gone) == all
      requires closed == closed0 + Socks(gone) && unlinked == unlinked0 + Paths(gone)
      modifies list`used, list`items, list.data, this`closed, this`unlinked
      ensures Valid() && list.used == old(list.used) - 1 && more == gone + [l]
      ensures multiset(list.items) + multiset(more) == all
      ensures forall j :: 0 <= j < i ==> list.items[j] == old(list.items)[j]
      ensures closed == closed0 + Socks(more) && unlinked == unlinked0 + Paths(more)
    {
      GoneSnoc(gone, l, closed0, unlinked0);
      CloseUnused(l);
      WithoutKeepsTheRest(list.items, i);
      assert l in multiset(list.items);
      var moved := list.ItemRemove(i);
      more := gone + [l];
    }

    /**
     * fpm_sockets_init_main, over any inherited value and any pools. `table` is the table before the sweep: the
     * inherited sockets first, then new ones; what left it in the sweep is `gone`. It succeeds exactly when every
     * pool is ready and either finds its key or can make a socket.
     */
    method InitMain(pools: seq<PoolConfig>, outcomes: seq<Outcome>)
      returns (ok: bool, socks: seq<int>, ghost table: seq<Listening>, ghost gone: seq<Listening>)
      requires Valid() && list.items == [] && |outcomes| == |pools|
      modifies list, list.data, this`closed, this`unlinked, this`env
      ensures Valid() && Extends(table, old(FromEnv())) && FromEnv() == []
      ensures ok <==> AllObtainable(old(FromEnv()), pools, outcomes)
      ensures multiset(list.items) + multiset(gone) == multiset(table) && (!ok ==> gone == [])
      ensures NoUsers(gone)
      ensures closed == old(closed) + Socks(gone) && unlinked == old(unlinked) + Paths(gone)
      ensures ok ==> AllUsed(list.items, old(FromEnv()), pools)
      ensures ok ==> |socks| == |pools| && AllFrom(old(FromEnv()), pools, outcomes, socks)
      ensures ok ==> AllServed(list.items, old(FromEnv()), pools, socks)
      ensures PoolsTyped(pools) ==> AllTyped(list.items)
    {
      socks, gone := [], [];
      ghost var base := FromEnv();
      FromEnvFacts();
      if env.Some? {
        Import(env.value);
        assert [] + Parse(env.value) == Parse(env.value);
        CutIsEmpty(env.value);
        env := Some(CutShort(env.value));
      }
      ok, socks := Acquire(pools, outcomes);
      table := list.items;
      if ok {
        gone := Sweep();
        assert pools[..|pools|] == pools;
        AfterSweep(list.items, gone, table, base, pools, socks);
      } else {
        assert Socks(gone) == [] && Paths(gone) == [];
      }
    }

    /** The inherited sockets. */
    ghost function FromEnv(): seq<Listening>
      reads this`env
    {
      if env.Some? then Parse(env.value) else []
    }

    lemma {:induction false} FromEnvFacts()
      ensures AllTyped(FromEnv()) && NoUsers(FromEnv())
    {
      if env.Some? {
        ParsedUnused(env.value);
      }
    }

    /**
     * fpm_sockets_cleanup: before exec the table goes into FPM_SOCKETS, unless it is empty; otherwise every socket is
     * closed.
     */
    method CleanUp(which: Cleanup)
      requires Valid()
      modifies this
      ensures which == ParentExec ==>
        closed == old(closed) && env == if list.items == [] then old(env) else Some(Serialise(list.items))
      ensures which != ParentExec ==> closed == old(closed) + Socks(list.items) && env == old(env)
      ensures unlinked == if which == ParentExitMain then old(unlinked) + Paths(list.items) else old(unlinked)
    {
      var envValue := "";
      var i := 0;
      ghost var items := list.items;
      assert Socks(items[..0]) == [] && Paths(items[..0]) == [] && closed + [] == closed && unlinked + [] == unlinked;
      while i < list.used
        invariant 0 <= i <= list.used && Valid() && env == old(env)
        invariant which != ParentExec ==> closed == old(closed) + Socks(items[..i])
        invariant which == ParentExec ==> closed == old(closed) && envValue == Written(items[..i])
        invariant which == ParentExitMain ==> unlinked == old(unlinked) + Paths(items[..i])
        invariant which != ParentExitMain ==> unlinked == old(unlinked)
      {
        var ls := list.Item(i);
        CleanedNext(items, i, old(closed), old(unlinked));
        envValue := CleanItem(ls, i == 0, which, envValue);
        i := i + 1;
      }
      assert items[..i] == items;
      if which == ParentExec && list.used > 0 {
        WrittenIsSerialised(items);
        env := Some(envValue);
      }
    }

    /** One turn of the loop. */
    method CleanItem(l: Listening, first: bool, which: Cleanup, value: string) returns (envValue: string)
      modifies this`closed, this`unlinked
      ensures closed == if which != ParentExec then old(closed) + [l.sock] else old(closed)
      ensures envValue == if which == ParentExec then value + Joint(l, first) else value
      ensures which == ParentExitMain ==> unlinked == old(unlinked) + (if l.kind == Unix then [l.key] else [])
      ensures which != ParentExitMain ==> unlinked == old(unlinked)
    {
      envValue := value;
      if which != ParentExec {
        closed := closed + [l.sock];
      } else {
        envValue := envValue + ((if first then "" else ",") + Item(l));
      }
      if which == ParentExitMain {
        if l.kind == Unix {
          unlinked := unlinked + [l.key];
        } else {
          assert unlinked + [] == unlinked;
        }
      }
    }
  }

  /** What the import leaves of the value, which getenv(3) does not copy: it ends where the first key ends. */
  function CutShort(value: string): string {
    var item := value[..Find(value, ',')];
    item[..Find(item, '=')]
  }

  lemma {:induction false} CutIsEmpty(value: string)
    ensures Parse(CutShort(value)) == []
  {
    var s := CutShort(value);
    if s != "" {
      ParseLast(s);
    }
  }

  /** Every socket has as many users as pools have its key, at least one; with a broken key, each new one has one. */
  predicate AllUsed(ls: seq<Listening>, base: seq<Listening>, pools: seq<PoolConfig>) {
    forall i :: 0 <= i < |ls| ==>
      var users := Users(pools, ls[i].key);
      users > 0 && ls[i].refcount == if Broken(base, ls[i].key) && ls[i].sock >= 0 then 1 else users
  }

  /** Every pool's socket is in the table under its key, and pools with the same key share it unless it is broken. */
  ghost predicate AllServed(ls: seq<Listening>, base: seq<Listening>, pools: seq<PoolConfig>, socks: seq<int>) {
    && |socks| == |pools|
    && (forall p :: 0 <= p < |pools| && !pools[p].isTemplate ==> Serves(ls, 0, pools[p].key, socks[p]))
    && (forall p, q :: 0 <= p < q < |pools| && !pools[p].isTemplate && !pools[q].isTemplate ==>
      (pools[p].key == pools[q].key && !Broken(base, pools[p].key) ==> socks[p] == socks[q]))
  }

  lemma {:induction false} UnusedAppend(a: seq<Listening>, b: seq<Listening>)
    requires AllTyped(a) && NoUsers(a) && AllTyped(b) && NoUsers(b)
    ensures AllTyped(a + b) && NoUsers(a + b)
  {
  }

  lemma {:induction false} ItemUnused(item: string)
    ensures AllTyped(ParseItem(item)) && NoUsers(ParseItem(item))
  {
  }

  lemma {:induction false} ParsedUnused(s: string)
    ensures AllTyped(Parse(s)) && NoUsers(Parse(s))
    decreases |s|
  {
    if s != "" {
      var item := s[..Find(s, ',')];
      ItemUnused(item);
      ParsedUnused(Rest(s));
      UnusedAppend(ParseItem(item), Parse(Rest(s)));
    }
  }

  lemma {:induction false} HasUser(pools: seq<PoolConfig>, p: nat)
    requires p < |pools| && !pools[p].isTemplate
    ensures Users(pools, pools[p].key) > 0
    decreases |pools|
  {
    if p < |pools| - 1 {
      HasUser(pools[..|pools| - 1], p);
    }
  }

  /** What the counts say of a table carries over to the sockets that stay. */
  lemma {:induction false} AfterSweep(kept: seq<Listening>, gone: seq<Listening>, table: seq<Listening>,
      base: seq<Listening>, pools: seq<PoolConfig>, socks: seq<int>)
    requires multiset(kept) + multiset(gone) == multiset(table)
    requires Counted(table, |base|, pools, socks) && Extends(table, base)
    requires forall i :: 0 <= i < |kept| ==> kept[i].refcount > 0
    requires NoUsers(gone)
    ensures AllUsed(kept, base, pools)
    ensures AllServed(kept, base, pools, socks)
    ensures AllTyped(table) ==> AllTyped(kept)
  {
    forall i | 0 <= i < |kept|
      ensures var users := Users(pools, kept[i].key);
        users > 0 && kept[i].refcount == if Broken(base, kept[i].key) && kept[i].sock >= 0 then 1 else users
    {
      assert kept[i] in multiset(kept);
      assert kept[i] in multiset(table);
      var j :| 0 <= j < |table| && table[j] == kept[i];
      UsedInTable(table, base, pools, socks, j);
    }
    forall p | 0 <= p < |pools| && !pools[p].isTemplate ensures Serves(kept, 0, pools[p].key, socks[p]) {
      var k := ServedInTable(table, base, pools, socks, p);
      assert table[k] in multiset(table);
      assert table[k] !in multiset(gone);
      assert table[k] in multiset(kept);
      var i :| 0 <= i < |kept| && kept[i] == table[k];
    }
    forall p, q | 0 <= p < q < |pools| && !pools[p].isTemplate && !pools[q].isTemplate && pools[p].key == pools[q].key
        && !Broken(base, pools[p].key)
      ensures socks[p] == socks[q]
    {
      FoundIsKnown(table, base, pools, socks, pools[p].key);
      assert Has(table, |base|, pools[p].key, socks[p]) && Has(table, |base|, pools[q].key, socks[q]);
    }
    if AllTyped(table) {
      KeptTyped(kept, gone, table);
    }
  }

  lemma {:induction false} KeptTyped(kept: seq<Listening>, gone: seq<Listening>, table: seq<Listening>)
    requires multiset(kept) + multiset(gone) == multiset(table) && AllTyped(table)
    ensures AllTyped(kept)
  {
    forall i | 0 <= i < |kept| ensures kept[i].kind == DomainOf(kept[i].key) {
      assert kept[i] in multiset(kept);
      assert kept[i] in multiset(table);
      var j :| 0 <= j < |table| && table[j] == kept[i];
    }
  }

  lemma {:induction false} UsedInTable(table: seq<Listening>, base: seq<Listening>, pools: seq<PoolConfig>,
      socks: seq<int>, j: nat)
    requires Counted(table, |base|, pools, socks) && Extends(table, base) && j < |table| && table[j].refcount > 0
    ensures var users := Users(pools, table[j].key);
      users > 0 && table[j].refcount == if Broken(base, table[j].key) && table[j].sock >= 0 then 1 else users
  {
    var key := table[j].key;
    FoundIsKnown(table, base, pools, socks, key);
    assert CountedAt(table, |base|, pools, j);
  }

  lemma {:induction false} ServedInTable(table: seq<Listening>, base: seq<Listening>, pools: seq<PoolConfig>,
      socks: seq<int>, p: nat) returns (k: nat)
    requires Counted(table, |base|, pools, socks) && Extends(table, base)
    requires p < |pools| && !pools[p].isTemplate
    ensures k < |table| && table[k].key == pools[p].key && table[k].sock == socks[p] && table[k].refcount > 0
  {
    var key := pools[p].key;
    assert Has(table, |base|, key, socks[p]);
    HasUser(pools, p);
    if Broken(table, key) {
      k :| |base| <= k < |table| && table[k].key == key && table[k].sock == socks[p];
    } else {
      k := FirstWith(table, key);
      assert CountedAt(table, |base|, pools, k);
    }
  }

  /** What is appended for a socket. */
  function Joint(l: Listening, first: bool): string {
    (if first then "" else ",") + Item(l)
  }

  /** The value as the loop builds it, from the front. */
  function Written(ls: seq<Listening>): string {
    if ls == [] then "" else Written(ls[..|ls| - 1]) + Joint(ls[|ls| - 1], |ls| == 1)
  }

  lemma {:induction false} WrittenSnoc(ls: seq<Listening>, l: Listening)
    ensures Written(ls + [l]) == Written(ls) + Joint(l, ls == [])
  {
    assert (ls + [l])[..|ls|] == ls;
  }

  lemma {:induction false} CleanedNext(items: seq<Listening>, i: nat, closed: seq<int>, unlinked: seq<string>)
    requires i < |items|
    ensures closed + Socks(items[..i + 1]) == (closed + Socks(items[..i])) + [items[i].sock]
    ensures unlinked + Paths(items[..i + 1]) ==
      (unlinked + Paths(items[..i])) + (if items[i].kind == Unix then [items[i].key] else [])
    ensures Written(items[..i + 1]) == Written(items[..i]) + Joint(items[i], i == 0)
  {
    TakeSnoc(items, i);
    GoneSnoc(items[..i], items[i], closed, unlinked);
    WrittenSnoc(items[..i], items[i]);
  }

  lemma {:induction false} WrittenIsSerialised(ls: seq<Listening>)
    ensures Written(ls) == Serialise(ls)
    decreases |ls|
  {
    if ls != [] {
      var front, last := ls[..|ls| - 1], ls[|ls| - 1];
      assert ls == front + [last];
      WrittenSnoc(front, last);
      if front == [] {
        assert Written(front) == "" && "" + Joint(last, true) == Item(last);
      } else {
        WrittenIsSerialised(front);
        SerialiseSnoc(front, last);
      }
    }
  }

  lemma {:induction false} SerialiseSnoc(ls: seq<Listening>, l: Listening)
    requires ls != []
    ensures Serialise(ls + [l]) == Serialise(ls) + ("," + Item(l))
    decreases |ls|
  {
    var all := ls + [l];
    assert all[0] == ls[0] && all[1..] == ls[1..] + [l];
    if |ls| == 1 {
      assert ls[1..] + [l] == [l];
    } else {
      SerialiseSnoc(ls[1..], l);
      Regroup(Item(ls[0]), ",", Serialise(ls[1..]), "," + Item(l));
    }
  }

  lemma {:induction false} GoneSnoc(gone: seq<Listening>, l: Listening, closed: seq<int>, unlinked: seq<string>)
    ensures closed + Socks(gone + [l]) == (closed + Socks(gone)) + [l.sock]
    ensures unlinked + Paths(gone + [l]) == (unlinked + Paths(gone)) + (if l.kind == Unix then [l.key] else [])
  {
    assert (gone + [l])[..|gone|] == gone;
    assert Socks(gone + [l]) == Socks(gone) + [l.sock];
  }

  /** What the next program reads of a table that is written before exec, or of the old value when it is empty. */
  function Handed(ls: seq<Listening>, env: Option<string>): seq<Listening> {
    if ls != [] then Reborn(ls) else if env.Some? then Parse(env.value) else []
  }

  /**
   * Where a pool of the next program gets its socket. A key without comma and equals sign that was in the table has
   * its descriptor again, unless a socket in front of it with such a key comes back under this key; a key with one is
   * not found again, so that its pool makes a new socket.
   */
  ghost predicate Keeps(ls: seq<Listening>, earlier: seq<PoolConfig>, pool: PoolConfig, outcome: Outcome, sock: int) {
    var before := ls[..FirstWith(ls, pool.key)];
    var had :=
      if !CleanKey(pool.key) then None
      else if Lookup(Reborn(before), pool.key).Some? then Lookup(Reborn(before), pool.key)
      else Lookup(ls, pool.key);
    if pool.isTemplate then sock == 0
    else if had.Some? && had.value >= 0 then sock == had.value
    else Users(earlier, pool.key) == 0 || had.Some? ==> outcome.created == Some(sock)
  }

  lemma {:induction false} RebornKeeps(ls: seq<Listening>, pools: seq<PoolConfig>, outcomes: seq<Outcome>,
      socks: seq<int>)
    requires AllFrom(Reborn(ls), pools, outcomes, socks) && |socks| == |pools|
    ensures forall p :: 0 <= p < |pools| ==> Keeps(ls, pools[..p], pools[p], outcomes[p], socks[p])
  {
    forall p | 0 <= p < |pools| ensures Keeps(ls, pools[..p], pools[p], outcomes[p], socks[p]) {
      assert From(Reborn(ls), pools[..p], pools[p], outcomes[p], socks[p]);
      KeyComesBack(ls, pools[p].key);
    }
  }

  /** When every key is clean, each pool whose key was in the table has the descriptor it had there. */
  lemma {:induction false} CleanKeeps(ls: seq<Listening>, earlier: seq<PoolConfig>, pool: PoolConfig, outcome: Outcome,
      sock: int)
    requires Keeps(ls, earlier, pool, outcome, sock) && !pool.isTemplate
    requires Lookup(ls, pool.key).Some? && Lookup(ls, pool.key).value >= 0
    requires forall i :: 0 <= i <= FirstWith(ls, pool.key) ==> CleanKey(ls[i].key)
    ensures Lookup(ls, pool.key) == Some(sock)
  {
    KeyComesBack(ls, pool.key);
  }

  /**
   * A reload, over any table: cleanup before exec, and the start of the next master with its own pools. It succeeds
   * if and only if every pool is ready and its key is read back, is shared, or can have a new socket.
   */
  method Reload(before: Table, pools: seq<PoolConfig>, outcomes: seq<Outcome>)
    returns (after: Table, ok: bool, socks: seq<int>)
    requires before.Valid() && |outcomes| == |pools|
    modifies before
    ensures fresh(after) && after.Valid() && before.closed == old(before.closed)
    ensures var handed := Handed(old(before.list.items), old(before.env));
      && (ok <==> AllObtainable(handed, pools, outcomes))
      && (ok ==> |socks| == |pools| && AllFrom(handed, pools, outcomes, socks))
      && (ok ==> AllUsed(after.list.items, handed, pools) && AllServed(after.list.items, handed, pools, socks))
    ensures ok && old(before.list.items) != [] ==> forall p :: 0 <= p < |pools| ==>
      Keeps(old(before.list.items), pools[..p], pools[p], outcomes[p], socks[p])
  {
    ghost var ls := before.list.items;
    before.CleanUp(ParentExec);
    after := new Table(before.env);
    ReadsBack(ls);
    ghost var table, gone;
    ok, socks, table, gone := after.InitMain(pools, outcomes);
    if ok && ls != [] {
      RebornKeeps(ls, pools, outcomes, socks);
    }
  }
}
