/** The slots of a pool's workers in shared memory: fpm/fpm_shm_slots.c. */
module ShmSlots {
  import opened FpmArrays
  import opened Shm

  /** What a worker publishes in its slot; memset makes it ZERO. */
  datatype Contents = Contents(lock: int, payload: seq<int>)

  const ZERO := Contents(0, [])

  /** The part of struct fpm_child_s that slots are about. */
  class Child {
    var slotIndex: nat                  // shm_slot_i

    constructor () {
      slotIndex := 0;
    }
  }

  datatype Entry = Entry(mem: nat, slot: nat, child: Child?)

  function Slots(s: seq<Entry>): (r: seq<nat>)
    ensures |r| == |s| && forall i :: 0 <= i < |s| ==> r[i] == s[i].slot
  {
    seq(|s|, i requires 0 <= i < |s| => s[i].slot)
  }

  ghost function Addresses(chunks: seq<Chunk>): (r: seq<nat>)
    ensures |r| == |chunks| && forall i :: 0 <= i < |chunks| ==> r[i] == chunks[i].at.mem
  {
    seq(|chunks|, i requires 0 <= i < |chunks| => chunks[i].at.mem)
  }

  /** Used and free entries together hold every address that was ever allocated, each once. */
  ghost predicate Partition(used: seq<Entry>, free: seq<Entry>, all: seq<nat>) {
    multiset(Slots(used)) + multiset(Slots(free)) == multiset(all)
  }

  lemma {:induction false} PartitionNew(used: seq<Entry>, free: seq<Entry>, all: seq<nat>, e: Entry)
    requires Partition(used, free, all)
    ensures Partition(used + [e], free, all + [e.slot])
  {
    SlotsSnoc(used, e);
  }

  lemma {:induction false} PartitionReused(used: seq<Entry>, free: seq<Entry>, all: seq<nat>, e: Entry, last: Entry)
    requires Partition(used, free + [last], all) && last.slot == e.slot
    ensures Partition(used + [e], free, all)
  {
    SlotsSnoc(used, e);
    SlotsSnoc(free, last);
  }

  lemma {:induction false} PartitionMoved(used: seq<Entry>, free: seq<Entry>, all: seq<nat>, n: nat, e: Entry)
    requires Partition(used, free, all) && n < |used| && used[n].slot == e.slot
    ensures Partition(Without(used, n), free + [e], all)
  {
    SlotsSnoc(free, e);
    SlotsWithout(used, n);
  }

  ghost predicate AllDistinct(s: seq<nat>) {
    forall i, j :: 0 <= i < j < |s| ==> s[i] != s[j]
  }

  lemma {:induction false} SlotsSnoc(s: seq<Entry>, e: Entry)
    ensures multiset(Slots(s + [e])) == multiset(Slots(s)) + multiset{e.slot}
  {
    assert Slots(s + [e]) == Slots(s) + [e.slot];
  }

  lemma {:induction false} SlotsWithout(s: seq<Entry>, n: nat)
    requires n < |s|
    ensures multiset(Slots(Without(s, n))) == multiset(Slots(s)) - multiset{s[n].slot}
    ensures s[n].slot in multiset(Slots(s))
  {
    assert Slots(Without(s, n)) == Without(Slots(s), n);
    WithoutKeepsTheRest(Slots(s), n);
    assert Slots(s)[n] in multiset(Slots(s));
  }

  lemma {:induction false} Once(s: seq<nat>, a: nat)
    requires AllDistinct(s)
    ensures multiset(s)[a] <= 1
    decreases |s|
  {
    if s != [] {
      var front, last := s[..|s| - 1], s[|s| - 1];
      assert s == front + [last];
      Once(front, a);
      if a == last {
        assert a !in front;
      }
    }
  }

  lemma {:induction false} Twice(s: seq<nat>, i: nat, j: nat)
    requires i < j < |s| && s[i] == s[j]
    ensures multiset(s)[s[i]] >= 2
  {
    var a := s[i];
    assert s == s[..j] + s[j..];
    assert s[..j][i] in multiset(s[..j]) && s[j..][0] in multiset(s[j..]);
  }

  /** As the addresses of chunks differ, no slot occurs twice among the used and free entries. */
  lemma {:induction false} NoSharing(used: seq<Entry>, free: seq<Entry>, all: seq<nat>)
    requires Partition(used, free, all) && AllDistinct(all)
    ensures AllDistinct(Slots(used)) && AllDistinct(Slots(free))
    ensures forall i, j :: 0 <= i < |used| && 0 <= j < |free| ==> used[i].slot != free[j].slot
    ensures forall a :: a in all <==> a in Slots(used) || a in Slots(free)
    ensures |all| == |used| + |free|
  {
    var u, f := Slots(used), Slots(free);
    forall i, j | 0 <= i < j < |u| ensures u[i] != u[j] {
      if u[i] == u[j] {
        Twice(u, i, j);
        Once(all, u[i]);
      }
    }
    forall i, j | 0 <= i < j < |f| ensures f[i] != f[j] {
      if f[i] == f[j] {
        Twice(f, i, j);
        Once(all, f[i]);
      }
    }
    forall i, j | 0 <= i < |u| && 0 <= j < |f| ensures u[i] != f[j] {
      if u[i] == f[j] {
        assert u[i] in multiset(u) && f[j] in multiset(f);
        Once(all, u[i]);
      }
    }
    forall a ensures a in all <==> a in u || a in f {
      assert a in all <==> a in multiset(all);
      assert a in u <==> a in multiset(u);
      assert a in f <==> a in multiset(f);
    }
    assert |multiset(u) + multiset(f)| == |u| + |f|;
  }

  /** Entry and child point at each other. */
  ghost predicate Agreement(used: seq<Entry>, live: set<Child>)
    reads live
  {
    && (forall i :: 0 <= i < |used| ==> used[i].child != null && used[i].child in live && used[i].child.slotIndex == i)
    && (forall c :: c in live ==> c.slotIndex < |used| && used[c.slotIndex].child == c)
  }

  /** A forked worker uses the very slot of its entry; `captured` are the addresses that workers took. */
  ghost predicate Captures(used: seq<Entry>, captured: map<Child, nat>) {
    forall i :: 0 <= i < |used| && used[i].child != null && used[i].child in captured ==>
      captured[used[i].child] == used[i].slot
  }

  /** An entry names the start of the segment around its slot. */
  ghost predicate AtHome(s: seq<Entry>, home: map<nat, nat>) {
    forall i :: 0 <= i < |s| ==> s[i].slot in home && home[s[i].slot] == s[i].mem
  }

  lemma {:induction false} AgreementSnoc(used: seq<Entry>, e: Entry, child: Child, live: set<Child>)
    requires Agreement(used, live) && e.child == child && child !in live
    requires child.slotIndex == |used|
    ensures Agreement(used + [e], live + {child})
  {
  }

  lemma {:induction false} CapturesSnoc(used: seq<Entry>, e: Entry, child: Child, captured: map<Child, nat>)
    requires Captures(used, captured) && e.child == child && child !in captured
    ensures Captures(used + [e], captured)
  {
  }

  lemma {:induction false} CapturesWithout(used: seq<Entry>, n: nat, child: Child, captured: map<Child, nat>)
    requires Captures(used, captured) && n < |used|
    ensures Captures(Without(used, n), captured - {child})
  {
    var rest := Without(used, n);
    assert forall i :: 0 <= i < |rest| ==> rest[i] == if i == n then used[|used| - 1] else used[i];
  }

  /** What holds when the last child has been told its new index, and the n-th child is still among the live. */
  ghost predicate Told(items: seq<Entry>, n: nat, live: set<Child>)
    requires n < |items|
    reads live
  {
    var last := |items| - 1;
    && (forall i :: 0 <= i < |items| ==>
      && items[i].child != null && items[i].child in live
      && items[i].child.slotIndex == (if i == last && n < last then n else i))
    && (forall i :: 0 <= i < |items| && i != n ==> items[i].child != items[n].child)
    && (forall c :: c in live ==>
      && c.slotIndex < |items|
      && (c == items[c.slotIndex].child || (c.slotIndex == n && c == items[last].child)))
  }

  lemma {:induction false} AgreementWithout(items: seq<Entry>, n: nat, child: Child, live: set<Child>)
    requires n < |items| && items[n].child == child && Told(items, n, live)
    ensures Agreement(Without(items, n), live - {child})
  {
    var rest := Without(items, n);
    assert forall i :: 0 <= i < |rest| ==> rest[i] == if i == n then items[|items| - 1] else items[i];
  }

  lemma {:induction false} AtHomeSnoc(s: seq<Entry>, e: Entry, home: map<nat, nat>)
    requires AtHome(s, home) && (e.slot in home ==> home[e.slot] == e.mem)
    ensures AtHome(s + [e], home[e.slot := e.mem])
  {
  }

  lemma {:induction false} AtHomeMore(s: seq<Entry>, home: map<nat, nat>, slot: nat, mem: nat)
    requires AtHome(s, home) && slot !in home
    ensures AtHome(s, home[slot := mem])
  {
  }

  lemma {:induction false} InAndOut(others: set<Child>, child: Child)
    requires child !in others
    ensures (others + {child}) - {child} == others
  {
  }

  /** The arrays slots_used and slots_free of a pool; `all` are the addresses that were ever allocated. */
  class SlotArrays {
    const used: FpmArray<Entry>
    const free: FpmArray<Entry>
    ghost var live: set<Child>            // the children that have a slot
    ghost var captured: map<Child, nat>   // the address that each forked worker took
    ghost var all: seq<nat>
    ghost var home: map<nat, nat>         // for each slot, the start of the segment around it

    constructor ()
      ensures Valid() && live == {} && captured == map[] && all == [] && home == map[]
      ensures fresh(used) && fresh(used.data) && fresh(free) && fresh(free.data)
      ensures used.used == 0 && free.used == 0
    {
      used := new FpmArray<Entry>(Entry(0, 0, null), 0);
      free := new FpmArray<Entry>(Entry(0, 0, null), 0);
      live, captured, all, home := {}, map[], [], map[];
    }

    ghost predicate Stored()
      reads this, used, used.data, free, free.data
    {
      && Laid()
      && Partition(used.items, free.items, all)
      && AtHome(used.items, home) && AtHome(free.items, home)
      && Captures(used.items, captured)
    }

    ghost predicate Valid()
      reads this, live, used, used.data, free, free.data
    {
      Stored() && Agreement(used.items, live) && captured.Keys <= live
    }

    /** The two arrays are apart from each other. */
    ghost predicate Laid()
      reads used, used.data, free, free.data
    {
      used != free && used.data != free.data && used.Valid() && free.Valid()
    }

    /** A new used entry; the child is told its index. */
    method PutUsed(mem: nat, slot: nat, child: Child, ghost others: set<Child>)
      requires Laid() && Agreement(used.items, others) && child !in others
      modifies child`slotIndex, used, used.data
      ensures Laid() && used.items == old(used.items) + [Entry(mem, slot, child)]
      ensures Agreement(used.items, others + {child}) && child.slotIndex == old(used.used)
      ensures used.data == old(used.data) || fresh(used.data)
      ensures live == old(live) && all == old(all) && home == old(home) && captured == old(captured)
      ensures free.items == old(free.items)
    {
      ghost var items := used.items;
      child.slotIndex := used.used;
      used.Push(Entry(mem, slot, child));
      AgreementSnoc(items, Entry(mem, slot, child), child, others);
    }

    /** A new entry for a child, with an address that was not allocated before. */
    method PutNew(child: Child, mem: nat, slot: nat)
      requires Valid() && child !in live && slot !in home
      modifies this`live, this`all, this`home, child`slotIndex, used, used.data
      ensures Valid() && live == old(live) + {child} && all == old(all) + [slot] && home == old(home)[slot := mem]
      ensures used.items == old(used.items) + [Entry(mem, slot, child)] && child.slotIndex == old(used.used)
      ensures used.data == old(used.data) || fresh(used.data)
      ensures captured == old(captured) && free.items == old(free.items) && free.used == old(free.used)
    {
      ghost var items, others, e := used.items, live, Entry(mem, slot, child);
      PartitionNew(items, free.items, all, e);
      AtHomeSnoc(items, e, home);
      CapturesSnoc(items, e, child, captured);
      AtHomeMore(free.items, home, slot, mem);
      live, all, home := live + {child}, all + [slot], home[slot := mem];
      PutUsed(mem, slot, child, others);
    }

    /** A new entry for a child, with the slot of the last free entry. */
    method PutReused(child: Child) returns (slot: nat, ghost e: Entry)
      requires Valid() && child !in live && free.used > 0
      modifies this`live, child`slotIndex, used, used.data, free`used, free`items
      ensures Valid() && live == old(live) + {child} && captured == old(captured)
      ensures all == old(all) && home == old(home)
      ensures slot == e.slot && e.child == child && used.items == old(used.items) + [e]
      ensures old(free.items) == free.items + [old(free.items[free.used - 1])] && free.used == old(free.used) - 1
      ensures old(free.items[free.used - 1]).slot == slot && old(free.items[free.used - 1]).mem == e.mem
      ensures child.slotIndex == old(used.used)
      ensures used.data == old(used.data) || fresh(used.data)
    {
      ghost var items, others := used.items, live;
      var last := free.Pop();
      slot, e := last.slot, Entry(last.mem, last.slot, child);
      PartitionReused(items, free.items, all, e, last);
      AtHomeFront(free.items, last, home);
      AtHomeSnoc(items, e, home);
      assert home[e.slot := e.mem] == home;
      CapturesSnoc(items, e, child, captured);
      live := live + {child};
      PutUsed(last.mem, last.slot, child, others);
    }

    /** An entry leaves the used ones and joins the free ones. */
    method MoveToFree(n: nat, ghost child: Child) returns (moved: int)
      requires Stored() && n < used.used
      modifies this`captured, used, used.data, free, free.data
      ensures Stored() && captured == old(captured) - {child} && moved == if n < old(used.used) - 1 then n else -1
      ensures var e := old(used.items[n]);
        used.items == Without(old(used.items), n) && free.items == old(free.items) + [Entry(e.mem, e.slot, null)]
      ensures used.data == old(used.data) && (free.data == old(free.data) || fresh(free.data))
    {
      ghost var items, frees := used.items, free.items;
      var e := used.Item(n);
      free.Push(Entry(e.mem, e.slot, null));
      moved := used.ItemRemove(n);
      PartitionMoved(items, frees, all, n, Entry(e.mem, e.slot, null));
      AtHomeSnoc(frees, Entry(e.mem, e.slot, null), home);
      assert home[e.slot := e.mem] == home;
      CapturesWithout(items, n, child, captured);
      captured := captured - {child};
    }

    /**
     * fpm_shm_slots_discard_slot: the entry goes to the free ones; the last entry takes its place and its child
     * is told. The address of every other child stays what it was.
     */
    method Discard(child: Child)
      requires Valid() && child in live
      modifies this`live, this`captured, live`slotIndex, used, used.data, free, free.data
      ensures Valid() && live == old(live) - {child} && captured == old(captured) - {child}
      ensures var e := old(used.items[child.slotIndex]);
        && used.items == Without(old(used.items), old(child.slotIndex))
        && free.items == old(free.items) + [Entry(e.mem, e.slot, null)]
      ensures used.data == old(used.data) && (free.data == old(free.data) || fresh(free.data))
    {
      ghost var items, n, living := used.items, child.slotIndex, live;
      live := live - {child};
      var moved := MoveToFree(child.slotIndex, child);
      Tell(items, n, moved, child, living);
    }

    /** The child of the entry that was moved, if any, gets its new index; then entries and children agree again. */
    method Tell(ghost items: seq<Entry>, ghost n: nat, moved: int, ghost child: Child, ghost living: set<Child>)
      requires used.Valid() && n < |items| && Agreement(items, living) && used.items == Without(items, n)
      requires moved == (if n < |items| - 1 then n else -1) && items[n].child == child
      modifies living`slotIndex
      ensures Agreement(used.items, living - {child})
    {
      if moved > -1 {
        var last := used.Item(moved);
        assert last == items[|items| - 1];
        last.child.slotIndex := moved;
      }
      AgreementWithout(items, n, child, living);
    }

    /** fpm_shm_slot: in the master, the address of a child's slot. */
    method SlotOf(child: Child) returns (slot: nat)
      requires Valid() && child in live
      ensures slot == used.items[child.slotIndex].slot
      ensures child in captured ==> slot == captured[child]
    {
      var e := used.Item(child.slotIndex);
      slot := e.slot;
    }

    /** fpm_shm_slots_child_use_slot: in the forked worker, the address of its slot and of the segment around it. */
    method ChildUseSlot(child: Child) returns (slot: nat, mem: nat)
      requires Valid() && child in live
      modifies this`captured
      ensures Valid() && captured == old(captured)[child := slot] && captured.Keys == old(captured).Keys + {child}
      ensures used.items[child.slotIndex].slot == slot && slot in home && home[slot] == mem
    {
      var e := used.Item(child.slotIndex);
      slot, mem := e.slot, e.mem;
      captured := captured[child := slot];
    }
  }

  lemma {:induction false} AtHomeFront(s: seq<Entry>, e: Entry, home: map<nat, nat>)
    requires AtHome(s + [e], home)
    ensures AtHome(s, home) && e.slot in home && home[e.slot] == e.mem
  {
    assert (s + [e])[|s|] == e;
    assert forall i :: 0 <= i < |s| ==> (s + [e])[i] == s[i];
  }

  lemma {:induction false} PutBack<T>(s: set<T>, x: T)
    requires x in s
    ensures s - {x} + {x} == s
  {
  }

  /** `home` gives the start of each chunk's segment and knows no other address. */
  ghost predicate Homes(chunks: seq<Chunk>, segments: seq<Segment>, home: map<nat, nat>)
  {
    && (forall k :: 0 <= k < |chunks| ==>
      && chunks[k].at.mem in home && chunks[k].segment < |segments|
      && home[chunks[k].at.mem] == segments[chunks[k].segment].region.mem)
    && (forall a :: a in home ==> a in Addresses(chunks))
  }

  lemma {:induction false} HomesSnoc(chunks: seq<Chunk>, segments: seq<Segment>, c: Chunk, segments': seq<Segment>,
      home: map<nat, nat>)
    requires Homes(chunks, segments, home) && SameRegions(segments, segments')
    requires ApartFrom(chunks, c) && c.segment < |segments'|
    ensures c.at.mem !in home && Addresses(chunks + [c]) == Addresses(chunks) + [c.at.mem]
    ensures Homes(chunks + [c], segments', home[c.at.mem := segments'[c.segment].region.mem])
  {
    var all := chunks + [c];
    assert forall k :: 0 <= k < |chunks| ==> all[k] == chunks[k] && chunks[k].at.mem != c.at.mem;
    assert Addresses(all) == Addresses(chunks) + [c.at.mem];
  }

  /** A worker is to be made, and whether fork(2) succeeds; or the one whose slot is the k-th used one exits. */
  datatype Event = Make(forked: bool) | Exited(k: nat)

  /** A pool's slots, its segments and what is in them. */
  class Pool {
    const maxChildren: nat
    const slotSize: nat                   // sizeof(struct fpm_shm_slot_s)
    const slots: SlotArrays
    const shm: SegmentList
    var cells: map<nat, Contents>         // the shared memory, slot by slot
    var running: nat                      // running_children

    constructor (maxChildren: nat, slotSize: nat, pageSize: nat, space: AddressSpace)
      requires slotSize > 0 && pageSize > 0 && space.Valid()
      ensures Valid() && Settled() && slots.live == {} && this.maxChildren == maxChildren
      ensures running == 0 && cells == map[]
    {
      this.maxChildren, this.slotSize := maxChildren, slotSize;
      running := 0;
      slots := new SlotArrays();
      shm := new SegmentList(space, pageSize);
      cells := map[];
    }

    /** All slots are chunks of the pool's own segments. */
    ghost predicate Backed()
      reads slots, shm, shm.space
    {
      && shm.Valid() && slotSize > 0
      && slots.all == Addresses(shm.chunks) && Homes(shm.chunks, shm.segments, slots.home)
    }

    /** There are never more slots than max_children. */
    ghost predicate Valid()
      reads slots, slots.live, slots.used, slots.used.data, slots.free, slots.free.data, shm, shm.space
    {
      && slots.Valid() && Backed()
      && slots.used.used + slots.free.used <= maxChildren
    }

    /** A new chunk for a slot, cleared. */
    method AllocSlot() returns (mem: nat, slot: nat)
      requires Backed()
      modifies shm, shm.space, this`cells
      ensures cells == old(cells)[slot := ZERO]
      ensures shm.Valid() && |shm.chunks| == |old(shm.chunks)| + 1 && slot !in slots.home
      ensures Addresses(shm.chunks) == slots.all + [slot] && Homes(shm.chunks, shm.segments, slots.home[slot := mem])
    {
      ghost var chunks, segments := shm.chunks, shm.segments;
      slot, mem := shm.AllocChunk(slotSize);
      cells := cells[slot := ZERO];
      ghost var c := Chunk(Region(slot, RoundUp(slotSize, CACHE_LINE)), |shm.segments| - 1);
      shm.LastIsApart(chunks, c);
      HomesSnoc(chunks, segments, c, shm.segments, slots.home);
    }

    /** fpm_shm_slots_prepare_slot: a free slot if there is one, otherwise a new one; it is zeroed. */
    method PrepareSlot(child: Child) returns (ghost e: Entry)
      requires Valid() && child !in slots.live && slots.used.used < maxChildren
      modifies this`cells, slots, child`slotIndex, slots.used, slots.used.data, slots.free`used, slots.free`items, shm
      modifies shm.space
      ensures Valid() && slots.live == old(slots.live) + {child} && slots.captured == old(slots.captured)
      ensures e.child == child && slots.used.items == old(slots.used.items) + [e]
      ensures cells == old(cells)[e.slot := ZERO]
      ensures if old(slots.free.used) > 0 then shm.chunks == old(shm.chunks) else |shm.chunks| == |old(shm.chunks)| + 1
      ensures slots.used.data == old(slots.used.data) || fresh(slots.used.data)
      ensures slots.free.data == old(slots.free.data) && slots.used.used == old(slots.used.used) + 1
    {
      if slots.free.used == 0 {
        e := PrepareNew(child);
      } else {
        e := PrepareOld(child);
      }
    }

    method PrepareNew(child: Child) returns (ghost e: Entry)
      requires Valid() && child !in slots.live
      requires slots.used.used < maxChildren && slots.free.used == 0
      modifies this`cells, slots, child`slotIndex, slots.used, slots.used.data, shm, shm.space
      ensures Valid() && slots.live == old(slots.live) + {child} && slots.captured == old(slots.captured)
      ensures e.child == child && slots.used.items == old(slots.used.items) + [e]
      ensures cells == old(cells)[e.slot := ZERO] && |shm.chunks| == |old(shm.chunks)| + 1
      ensures slots.used.data == old(slots.used.data) || fresh(slots.used.data)
    {
      var mem, slot := AllocSlot();
      e := Entry(mem, slot, child);
      slots.PutNew(child, mem, slot);
    }

    method PrepareOld(child: Child) returns (ghost e: Entry)
      requires Valid() && child !in slots.live && slots.free.used > 0
      modifies this`cells, slots`live, child`slotIndex, slots.used, slots.used.data, slots.free`used, slots.free`items
      ensures Valid() && slots.live == old(slots.live) + {child} && slots.captured == old(slots.captured)
      ensures e.child == child && slots.used.items == old(slots.used.items) + [e]
      ensures cells == old(cells)[e.slot := ZERO]
      ensures slots.used.data == old(slots.used.data) || fresh(slots.used.data)
    {
      var slot;
      slot, e := slots.PutReused(child);
      cells := cells[slot := ZERO];
    }

    /**
     * fpm_shm_slots_discard_slot, for a worker that could not be forked or that exited: nothing is allocated or
     * cleared.
     */
    method DiscardSlot(child: Child)
      requires Valid() && child in slots.live
      modifies slots`live, slots`captured, slots.live`slotIndex, slots.used, slots.used.data, slots.free
      modifies slots.free.data
      ensures Valid() && slots.live == old(slots.live) - {child} && slots.captured == old(slots.captured) - {child}
      ensures slots.used.items == Without(old(slots.used.items), old(child.slotIndex))
      ensures slots.used.used == old(slots.used.used) - 1
      ensures slots.free.used == old(slots.free.used) + 1
      ensures slots.used.data == old(slots.used.data)
      ensures slots.free.data == old(slots.free.data) || fresh(slots.free.data)
    {
      slots.Discard(child);
    }

    /** No two children share a slot, and used and free slots partition the slots that were ever allocated. */
    lemma {:induction false} Unshared()
      requires Valid()
      ensures forall c, d :: c in slots.live && d in slots.live && c != d ==>
        slots.used.items[c.slotIndex].slot != slots.used.items[d.slotIndex].slot
      ensures forall a :: a in Addresses(shm.chunks) <==> a in Slots(slots.used.items) || a in Slots(slots.free.items)
      ensures forall i, j :: 0 <= i < slots.used.used && 0 <= j < slots.free.used ==>
        slots.used.items[i].slot != slots.free.items[j].slot
      ensures |shm.chunks| == slots.used.used + slots.free.used <= maxChildren
    {
      forall i, j | 0 <= i < j < |shm.chunks| ensures Addresses(shm.chunks)[i] != Addresses(shm.chunks)[j] {
        assert Apart(shm.chunks[i].at, shm.chunks[j].at);
      }
      NoSharing(slots.used.items, slots.free.items, slots.all);
    }

    /** Between two handlers each running child has a slot and was forked, and no slot is used otherwise. */
    ghost predicate Settled()
      reads this`running, slots, slots.used
    {
      running == slots.used.used && slots.captured.Keys == slots.live
    }

    /**
     * fork(2) for a child with a prepared slot: the worker takes its slot, and the master counts it; or the slot is
     * discarded.
     */
    method ForkOne(child: Child, forked: bool)
      requires Valid() && child in slots.live && slots.used.used == running + 1
      requires slots.captured.Keys == slots.live - {child}
      modifies this`running, slots`live, slots`captured, slots.live`slotIndex
      modifies slots.used, slots.used.data, slots.free, slots.free.data
      ensures Valid() && Settled() && running == old(running) + (if forked then 1 else 0)
      ensures slots.live == if forked then old(slots.live) else old(slots.live) - {child}
      ensures slots.free.data == old(slots.free.data) || fresh(slots.free.data)
      ensures slots.used.data == old(slots.used.data)
    {
      if !forked {
        DiscardSlot(child);
        return;
      }
      Adopt(child);
    }

    /** After a successful fork: the worker takes the address of its slot, and the master counts it. */
    method Adopt(child: Child)
      requires Valid() && child in slots.live && slots.used.used == running + 1
      requires slots.captured.Keys == slots.live - {child}
      modifies this`running, slots`captured
      ensures Valid() && Settled() && running == old(running) + 1
    {
      PutBack(slots.live, child);
      running := running + 1;
      var slot, mem := slots.ChildUseSlot(child);
    }

    /** One turn of fpm_children_make, behind its guard on running_children: a slot is prepared, and then the fork. */
    method Spawn(child: Child, forked: bool)
      requires Valid() && Settled() && child !in slots.live && running < maxChildren
      modifies this`cells, this`running, child, slots, slots.live`slotIndex
      modifies slots.used, slots.used.data, slots.free, slots.free.data, shm, shm.space
      ensures Valid() && Settled() && running == old(running) + (if forked then 1 else 0)
      ensures slots.live == if forked then old(slots.live) + {child} else old(slots.live)
      ensures slots.free.data == old(slots.free.data) || fresh(slots.free.data)
      ensures slots.used.data == old(slots.used.data) || fresh(slots.used.data)
    {
      InAndOut(slots.live, child);
      ghost var e := PrepareSlot(child);
      ForkOne(child, forked);
    }

    /** A worker is reaped: it is no longer counted, and its slot is discarded. */
    method ReapOne(child: Child)
      requires Valid() && Settled() && child in slots.live
      modifies this`running, slots`live, slots`captured, slots.live`slotIndex
      modifies slots.used, slots.used.data, slots.free, slots.free.data
      ensures Valid() && Settled() && running == old(running) - 1 && slots.live == old(slots.live) - {child}
      ensures slots.free.data == old(slots.free.data) || fresh(slots.free.data)
      ensures slots.used.data == old(slots.used.data)
    {
      assert slots.used.used > child.slotIndex;
      running := running - 1;
      DiscardSlot(child);
    }

    /** How many children run after this happened. */
    function Next(n: nat, e: Event): nat {
      match e
      case Make(forked) => if n < maxChildren && forked then n + 1 else n
      case Exited(k) => if k < n then n - 1 else n
    }

    function AllNext(n: nat, es: seq<Event>): nat {
      if es == [] then n else Next(AllNext(n, es[..|es| - 1]), es[|es| - 1])
    }

    /** A worker is made, or the one with the k-th slot is reaped. */
    method Turn(e: Event)
      requires Valid() && Settled()
      modifies this`cells, this`running, slots, slots.live`slotIndex
      modifies slots.used, slots.used.data, slots.free, slots.free.data, shm, shm.space
      ensures Valid() && Settled() && forall c :: c in slots.live ==> c in old(slots.live) || fresh(c)
      ensures e.Make? ==> running == old(running) + (if e.forked && old(running) < maxChildren then 1 else 0)
      ensures e.Exited? ==> running == old(running) - (if e.k < old(running) then 1 else 0)
      ensures slots.free.data == old(slots.free.data) || fresh(slots.free.data)
      ensures slots.used.data == old(slots.used.data) || fresh(slots.used.data)
    {
      if e.Exited? {
        if e.k < running {
          ReapAt(e.k);
        }
        return;
      }
      if running < maxChildren {
        SpawnNew(e.forked);
      }
    }

    method SpawnNew(forked: bool)
      requires Valid() && Settled() && running < maxChildren
      modifies this`cells, this`running, slots, slots.live`slotIndex
      modifies slots.used, slots.used.data, slots.free, slots.free.data, shm, shm.space
      ensures Valid() && Settled() && running == old(running) + (if forked then 1 else 0)
      ensures forall c :: c in slots.live ==> c in old(slots.live) || fresh(c)
      ensures slots.free.data == old(slots.free.data) || fresh(slots.free.data)
      ensures slots.used.data == old(slots.used.data) || fresh(slots.used.data)
    {
      var child := new Child();
      Spawn(child, forked);
    }

    method ReapAt(k: nat)
      requires Valid() && Settled() && k < running
      modifies this`running, slots`live, slots`captured, slots.live`slotIndex
      modifies slots.used, slots.used.data, slots.free, slots.free.data
      ensures Valid() && Settled() && running == old(running) - 1 && slots.live <= old(slots.live)
      ensures slots.free.data == old(slots.free.data) || fresh(slots.free.data)
      ensures slots.used.data == old(slots.used.data)
    {
      var entry := slots.used.Item(k);
      ReapOne(entry.child);
    }

    /**
     * Every interleaving of making workers, failed forks and deaths, from an empty pool: the slots in use are those
     * of the running children, who are as many as forks succeeded and did not exit; never more than max_children were
     * allocated, and whoever is left has taken an address when it was forked and is found by the master at that very
     * address.
     */
    method Run(es: seq<Event>)
      requires Valid() && Settled() && slots.live == {}
      modifies this`cells, this`running, slots, slots.used, slots.used.data, slots.free, slots.free.data
      modifies shm, shm.space
      ensures Valid() && Settled() && |shm.chunks| <= maxChildren
      ensures running == AllNext(old(running), es)
      ensures forall c :: c in slots.live ==>
        c in slots.captured && slots.captured[c] == slots.used.items[c.slotIndex].slot
    {
      var n := 0;
      ghost var n0 := running;
      while n < |es|
        invariant 0 <= n <= |es| && Valid() && Settled() && forall c :: c in slots.live ==> fresh(c)
        invariant Counted(n0, es, n, running)
        invariant slots.free.data == old(slots.free.data) || fresh(slots.free.data)
        invariant slots.used.data == old(slots.used.data) || fresh(slots.used.data)
      {
        ghost var m := running;
        Turn(es[n]);
        OneMore(n0, es, n, m, running);
        n := n + 1;
      }
      AllCounted(n0, es, running);
      Located();
    }

    /** So many run after the first n events. */
    ghost predicate Counted(n0: nat, es: seq<Event>, n: nat, m: nat) {
      n <= |es| && m == AllNext(n0, es[..n])
    }

    lemma {:induction false} AllCounted(n0: nat, es: seq<Event>, m: nat)
      requires Counted(n0, es, |es|, m)
      ensures m == AllNext(n0, es)
    {
      assert es[..|es|] == es;
    }

    lemma {:induction false} OneMore(n0: nat, es: seq<Event>, n: nat, m: nat, m': int)
      requires n < |es| && Counted(n0, es, n, m)
      requires es[n].Make? ==> m' == m + (if es[n].forked && m < maxChildren then 1 else 0)
      requires es[n].Exited? ==> m' == m - (if es[n].k < m then 1 else 0)
      ensures m' >= 0 && Counted(n0, es, n + 1, m')
    {
      assert es[..n + 1][..n] == es[..n];
    }

    lemma {:induction false} Located()
      requires Valid() && Settled()
      ensures |shm.chunks| <= maxChildren
      ensures forall c :: c in slots.live ==>
        c in slots.captured && slots.captured[c] == slots.used.items[c.slotIndex].slot
    {
      Unshared();
      assert forall c :: c in slots.live ==> c in slots.captured.Keys && slots.used.items[c.slotIndex].child == c;
    }
  }

  function Lists(pools: seq<Pool>): (r: seq<SegmentList>)
    ensures |r| == |pools| && forall p :: 0 <= p < |pools| ==> r[p] == pools[p].shm
  {
    seq(|pools|, p requires 0 <= p < |pools| => pools[p].shm)
  }

  /** Regions of one address space that begin at the same place are the same. */
  lemma {:induction false} SameStart(space: AddressSpace, a: Region, b: Region)
    requires space.Valid() && a in space.mapped && b in space.mapped && a.mem == b.mem
    ensures a == b
  {
  }

  /**
   * The cleanup of the segments of all pools in a worker of the k-th one, with the address that it took when it was
   * forked: of all segments only the one around its own slot stays mapped.
   */
  method WorkerCleanup(pools: seq<Pool>, ghost space: AddressSpace, ghost k: nat, mem: nat, ghost slot: nat)
    returns (ghost own: nat)
    requires k < |pools| && pools[k].Valid() && space.Valid()
    requires AllIn(Lists(pools), space) && Separate(Lists(pools))
    requires slot in pools[k].slots.home && pools[k].slots.home[slot] == mem
    modifies space
    ensures own < |pools[k].shm.chunks| && pools[k].shm.chunks[own].at.mem == slot
    ensures forall p, i :: 0 <= p < |pools| && 0 <= i < |pools[p].shm.segments| ==>
      (pools[p].shm.segments[i].region in space.mapped <==> p == k && i == pools[k].shm.chunks[own].segment)
  {
    var lists := Lists(pools);
    ghost var shm := pools[k].shm;
    own :| 0 <= own < |shm.chunks| && Addresses(shm.chunks)[own] == slot;
    ghost var home := shm.segments[shm.chunks[own].segment].region;
    forall p, i | 0 <= p < |pools| && 0 <= i < |lists[p].segments| && lists[p].segments[i].region.mem == mem
      ensures p == k && i == shm.chunks[own].segment
    {
      SameStart(space, lists[p].segments[i].region, home);
      assert home in lists[p].Regions() && home in lists[k].Regions();
    }
    FreeLists(lists, space, mem);
  }
}
