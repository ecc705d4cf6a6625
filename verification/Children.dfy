/** The master's workers: fpm/fpm_children.c, and the parts of fpm/fpm_process_ctl.c that act on them. */
module Children {
  import opened Basics

  class Child {
    const pool: Pool                  // wp
    var prev: Child?
    var next: Child?
    const pid: int

    constructor (pool: Pool, pid: int)
      ensures this.pool == pool && this.pid == pid
    {
      this.pool, this.pid := pool, pid;
      prev, next := null, null;
    }
  }

  function At(list: seq<Child>, i: int): Child? {
    if 0 <= i < |list| then list[i] else null
  }

  /** The list without its k-th child. */
  function Except(list: seq<Child>, k: nat): (r: seq<Child>)
    requires k < |list|
    ensures |r| == |list| - 1
    ensures forall i :: 0 <= i < |r| ==> r[i] == list[if i < k then i else i + 1]
  {
    list[..k] + list[k + 1..]
  }

  /** When the neighbours of the k-th child point past it, the others are linked to each other. */
  lemma {:induction false} Rejoined(list: seq<Child>, k: nat)
    requires k < |list|
    requires forall i {:trigger list[i].prev} :: 0 <= i < |list| && i != k ==>
      list[i].prev == if i == k + 1 then At(list, k - 1) else At(list, i - 1)
    requires forall i {:trigger list[i].next} :: 0 <= i < |list| && i != k ==>
      list[i].next == if i == k - 1 then At(list, k + 1) else At(list, i + 1)
    ensures var r := Except(list, k); forall i {:trigger r[i].prev} :: 0 <= i < |r| ==> r[i].prev == At(r, i - 1)
    ensures var r := Except(list, k); forall i {:trigger r[i].next} :: 0 <= i < |r| ==> r[i].next == At(r, i + 1)
  {
    var r := Except(list, k);
    forall i | 0 <= i < |r| ensures r[i].prev == At(r, i - 1) && r[i].next == At(r, i + 1) {
      if i < k {
        assert r[i] == list[i];
      } else {
        assert r[i] == list[i + 1];
      }
    }
  }

  class Pool {
    const maxChildren: nat            // config->pm->max_children
    var children: Child?
    var running: nat                  // running_children
    ghost var list: seq<Child>

    constructor (maxChildren: nat)
      ensures Linked() && list == [] && this.maxChildren == maxChildren
    {
      this.maxChildren := maxChildren;
      children, running, list := null, 0, [];
    }

    /** The intrusive list is `list`, and its length is counted. */
    ghost predicate Linked()
      reads this, list
    {
      && running == |list| && children == At(list, 0)
      && (forall i :: 0 <= i < |list| ==> list[i].pool == this)
      && (forall i {:trigger list[i].prev} :: 0 <= i < |list| ==> list[i].prev == At(list, i - 1))
      && (forall i {:trigger list[i].next} :: 0 <= i < |list| ==> list[i].next == At(list, i + 1))
      && (forall i, j :: 0 <= i < j < |list| ==> list[i] != list[j])
    }

    /** fpm_child_link, without the global counter. */
    method Link(child: Child)
      requires Linked() && child !in list && child.pool == this
      modifies this, child`prev, child`next, list`prev
      ensures Linked() && list == [child] + old(list)
    {
      ghost var was := list;
      running := running + 1;
      child.next := children;
      if child.next != null {
        child.next.prev := child;
      }
      child.prev := null;
      children := child;
      list := [child] + list;
      forall i | 0 <= i < |list|
        ensures list[i].pool == this && list[i].prev == At(list, i - 1) && list[i].next == At(list, i + 1)
      {
        if i > 0 {
          assert list[i] == was[i - 1];
        }
      }
    }

    /** fpm_child_unlink, without the global counter. */
    method Unlink(child: Child, ghost k: nat)
      requires Linked() && k < |list| && list[k] == child
      modifies this, list`prev, list`next
      ensures Linked() && list == Except(old(list), k)
    {
      ghost var was := list;
      running := running - 1;
      Bridge(child, k);
      list := Except(was, k);
      Rejoined(was, k);
      assert forall i, j :: 0 <= i < j < |list| ==> list[i] != list[j];
    }

    /** One pool's part of fpm_child_find. */
    method Find(pid: int) returns (child: Child?, ghost k: nat)
      requires Linked()
      ensures child != null ==> child.pid == pid && k < |list| && list[k] == child
      ensures child == null ==> forall m :: 0 <= m < |list| ==> list[m].pid != pid
    {
      child, k := children, 0;
      while child != null && child.pid != pid
        invariant k <= |list| && child == At(list, k)
        invariant forall m :: 0 <= m < k ==> list[m].pid != pid
        decreases |list| - k
      {
        child := child.next;
        k := k + 1;
      }
    }

    /** One pool's part of fpm_pctl_kill_all: the walk meets every child once. */
    method KillEach() returns (targets: seq<Child>)
      requires Linked()
      ensures targets == list
    {
      var child := children;
      targets := [];
      while child != null
        invariant |targets| <= |list| && child == At(list, |targets|) && targets == list[..|targets|]
        decreases |list| - |targets|
      {
        targets := targets + [child];      // kill(child->pid, signo)
        child := child.next;
      }
    }

    /** The neighbours of a child, or the head of the list, are made to point past it. */
    method Bridge(child: Child, ghost k: nat)
      requires k < |list| && list[k] == child && children == At(list, 0)
      requires forall i {:trigger list[i].prev} :: 0 <= i < |list| ==> list[i].prev == At(list, i - 1)
      requires forall i {:trigger list[i].next} :: 0 <= i < |list| ==> list[i].next == At(list, i + 1)
      requires forall i, j :: 0 <= i < j < |list| ==> list[i] != list[j]
      modifies this`children, list`prev, list`next
      ensures children == if k == 0 then At(list, 1) else At(list, 0)
      ensures forall i {:trigger list[i].prev} :: 0 <= i < |list| && i != k ==>
        list[i].prev == if i == k + 1 then At(list, k - 1) else At(list, i - 1)
      ensures forall i {:trigger list[i].next} :: 0 <= i < |list| && i != k ==>
        list[i].next == if i == k - 1 then At(list, k + 1) else At(list, i + 1)
    {
      if child.prev != null {
        child.prev.next := child.next;
      } else {
        children := child.next;
      }
      if child.next != null {
        child.next.prev := child.prev;
      }
    }
  }

  /** All children, pool by pool. */
  function Flatten(lists: seq<seq<Child>>): seq<Child> {
    if lists == [] then [] else lists[0] + Flatten(lists[1..])
  }

  lemma {:induction false} FlattenUpdate(lists: seq<seq<Child>>, i: nat, l: seq<Child>)
    requires i < |lists|
    ensures |Flatten(lists[i := l])| == |Flatten(lists)| - |lists[i]| + |l|
    decreases |lists|
  {
    var lists' := lists[i := l];
    if i == 0 {
      assert lists'[1..] == lists[1..];
    } else {
      assert lists'[1..] == lists[1..][i - 1 := l];
      FlattenUpdate(lists[1..], i - 1, l);
    }
  }

  function Pids(list: seq<Child>): multiset<int> {
    if list == [] then multiset{} else multiset{list[0].pid} + Pids(list[1..])
  }

  /** The pids of all children. */
  function AllPids(lists: seq<seq<Child>>): multiset<int> {
    if lists == [] then multiset{} else Pids(lists[0]) + AllPids(lists[1..])
  }

  lemma {:induction false} PidsAppend(a: seq<Child>, b: seq<Child>)
    ensures Pids(a + b) == Pids(a) + Pids(b)
    decreases |a|
  {
    if a == [] {
      assert a + b == b;
    } else {
      assert (a + b)[1..] == a[1..] + b;
      PidsAppend(a[1..], b);
    }
  }

  lemma {:induction false} PidsExcept(list: seq<Child>, k: nat)
    requires k < |list|
    ensures Pids(Except(list, k)) + multiset{list[k].pid} == Pids(list)
  {
    var tail := list[k..];
    assert list == list[..k] + tail && tail[1..] == list[k + 1..];
    PidsAppend(list[..k], tail);
    PidsAppend(list[..k], list[k + 1..]);
  }

  lemma {:induction false} AllPidsUpdate(lists: seq<seq<Child>>, i: nat, l: seq<Child>)
    requires i < |lists|
    ensures AllPids(lists[i := l]) + Pids(lists[i]) == AllPids(lists) + Pids(l)
    decreases |lists|
  {
    var lists' := lists[i := l];
    if i == 0 {
      assert lists'[1..] == lists[1..];
    } else {
      assert lists'[1..] == lists[1..][i - 1 := l];
      AllPidsUpdate(lists[1..], i - 1, l);
      var first, rest, rest' := Pids(lists[0]), AllPids(lists[1..]), AllPids(lists'[1..]);
      assert (first + rest') + Pids(lists[i]) == first + (rest' + Pids(lists[i]));
      assert (first + rest) + Pids(l) == first + (rest + Pids(l));
    }
  }

  lemma {:induction false} NotAmongPids(list: seq<Child>, pid: int)
    requires forall m :: 0 <= m < |list| ==> list[m].pid != pid
    ensures pid !in Pids(list)
    decreases |list|
  {
    if list != [] {
      NotAmongPids(list[1..], pid);
    }
  }

  lemma {:induction false} Listed(lists: seq<seq<Child>>, i: nat, k: nat)
    requires i < |lists| && k < |lists[i]|
    ensures lists[i][k].pid in AllPids(lists)
    decreases |lists|
  {
    PidsExcept(lists[i], k);
    if i > 0 {
      Listed(lists[1..], i - 1, k);
    }
  }

  lemma {:induction false} NotListed(lists: seq<seq<Child>>, pid: int)
    requires forall j, m :: 0 <= j < |lists| && 0 <= m < |lists[j]| ==> lists[j][m].pid != pid
    ensures pid !in AllPids(lists)
    decreases |lists|
  {
    if lists != [] {
      NotAmongPids(lists[0], pid);
      forall j, m | 0 <= j < |lists[1..]| && 0 <= m < |lists[1..][j]| ensures lists[1..][j][m].pid != pid {
        assert lists[1..][j] == lists[j + 1];
      }
      NotListed(lists[1..], pid);
    }
  }

  ghost predicate AllAmong(lists: seq<seq<Child>>, everyone: set<Child>) {
    forall i, k :: 0 <= i < |lists| && 0 <= k < |lists[i]| ==> lists[i][k] in everyone
  }

  lemma {:induction false} StillAmong(lists: seq<seq<Child>>, i: nat, k: nat, everyone: set<Child>)
    requires AllAmong(lists, everyone) && i < |lists| && k < |lists[i]|
    ensures AllAmong(lists[i := Except(lists[i], k)], everyone)
  {
  }

  lemma {:induction false} MoreAmong(lists: seq<seq<Child>>, i: nat, child: Child, everyone: set<Child>)
    requires AllAmong(lists, everyone) && i < |lists|
    ensures AllAmong(lists[i := [child] + lists[i]], everyone + {child})
  {
  }

  /** The worker pools and the global counter. */
  class Pools {
    const pools: seq<Pool>            // fpm_worker_all_pools
    var running: nat                  // fpm_globals.running_children
    ghost var lists: seq<seq<Child>>
    ghost var everyone: set<Child>

    ghost predicate Valid()
      reads this, pools, everyone
    {
      && |lists| == |pools|
      && (forall i, j :: 0 <= i < j < |pools| ==> pools[i] != pools[j])
      && (forall i :: 0 <= i < |pools| ==> pools[i].list == lists[i] && |lists[i]| <= pools[i].maxChildren)
      && AllAmong(lists, everyone)
      && (forall i {:trigger pools[i].Linked()} :: 0 <= i < |pools| ==> pools[i].Linked())
      && running == |Flatten(lists)|
    }

    /** What a pool has counted, and whose its children are. */
    lemma {:induction false} PoolOf(i: nat)
      requires Valid() && i < |pools|
      ensures pools[i].running == |lists[i]| <= pools[i].maxChildren
      ensures forall k :: 0 <= k < |lists[i]| ==> lists[i][k].pool == pools[i]
    {
      assert pools[i].Linked();
    }

    /** fpm_child_link. */
    method Link(child: Child, ghost i: nat)
      requires Valid() && i < |pools| && child !in everyone && child.pool == pools[i]
      requires |lists[i]| < pools[i].maxChildren
      modifies this, pools[i], child`prev, child`next, pools[i].list`prev
      ensures Valid() && lists == old(lists)[i := [child] + old(lists)[i]] && everyone == old(everyone) + {child}
    {
      ghost var l := [child] + lists[i];
      FlattenUpdate(lists, i, l);
      MoreAmong(lists, i, child, everyone);
      running := running + 1;
      everyone := everyone + {child};
      lists := lists[i := l];
      LinkTo(child, i);
    }

    /** One pool's list grows; the others stay as they are, since a child belongs to one pool only. */
    method LinkTo(child: Child, ghost i: nat)
      requires i < |pools| && forall a, b :: 0 <= a < b < |pools| ==> pools[a] != pools[b]
      requires forall j :: 0 <= j < |pools| ==> pools[j].Linked() && child !in pools[j].list
      requires child.pool == pools[i]
      modifies pools[i], child`prev, child`next, pools[i].list`prev
      ensures pools[i].list == [child] + old(pools[i].list)
      ensures forall j :: 0 <= j < |pools| ==> pools[j].Linked()
      ensures forall j :: 0 <= j < |pools| && j != i ==> pools[j].list == old(pools[j].list)
    {
      child.pool.Link(child);
    }

    /** fpm_child_unlink. */
    method Unlink(child: Child, ghost i: nat, ghost k: nat)
      requires Valid() && i < |pools| && k < |lists[i]| && lists[i][k] == child
      modifies this`running, this`lists, pools[i], pools[i].list`prev, pools[i].list`next
      ensures Valid() && running == old(running) - 1 && lists == old(lists)[i := Except(old(lists)[i], k)]
    {
      ghost var l := Except(lists[i], k);
      FlattenUpdate(lists, i, l);
      StillAmong(lists, i, k, everyone);
      running := running - 1;
      lists := lists[i := l];
      UnlinkFrom(child, i, k);
    }

    /** One pool's list changes; the others stay as they are, since a child belongs to one pool only. */
    method UnlinkFrom(child: Child, ghost i: nat, ghost k: nat)
      requires i < |pools| && forall a, b :: 0 <= a < b < |pools| ==> pools[a] != pools[b]
      requires forall j :: 0 <= j < |pools| ==> pools[j].Linked()
      requires k < |pools[i].list| && pools[i].list[k] == child
      modifies pools[i], pools[i].list`prev, pools[i].list`next
      ensures pools[i].list == Except(old(pools[i].list), k)
      ensures forall j :: 0 <= j < |pools| ==> pools[j].Linked()
      ensures forall j :: 0 <= j < |pools| && j != i ==> pools[j].list == old(pools[j].list)
    {
      child.pool.Unlink(child, k);
    }

    /** fpm_child_find: a child with this pid, if any pool has one. */
    method Find(pid: int) returns (child: Child?, ghost i: nat, ghost k: nat)
      requires Valid()
      ensures child != null ==> child.pid == pid && i < |pools| && k < |lists[i]| && lists[i][k] == child
      ensures child == null ==> forall j, m :: 0 <= j < |lists| && 0 <= m < |lists[j]| ==> lists[j][m].pid != pid
    {
      child, i, k := null, 0, 0;
      var w := 0;
      while w < |pools| && child == null
        invariant 0 <= w <= |pools|
        invariant child == null ==> forall j, m :: 0 <= j < w && 0 <= m < |lists[j]| ==> lists[j][m].pid != pid
        invariant child != null ==> child.pid == pid && i < |pools| && k < |lists[i]| && lists[i][k] == child
      {
        i := w;
        child, k := pools[w].Find(pid);
        w := w + 1;
      }
    }

    /** fpm_pctl_kill_all: every child gets the signal once; `targets` are the children it was sent to, in order. */
    method KillAll() returns (targets: seq<Child>)
      requires Valid()
      ensures targets == Flatten(lists)
    {
      targets := [];
      var w := 0;
      assert lists[0..] == lists;
      while w < |pools|
        invariant 0 <= w <= |pools|
        invariant targets + Flatten(lists[w..]) == Flatten(lists)
      {
        ghost var before := targets;
        var more := pools[w].KillEach();
        targets := targets + more;
        assert lists[w..][1..] == lists[w + 1..];
        Assoc(before, lists[w], Flatten(lists[w + 1..]));
        w := w + 1;
      }
      assert lists[w..] == [];
    }
  }
}
