/** The allocator of shared memory: fpm/fpm_shm.c. */
module Shm {

  const CACHE_LINE := 16

  /** The least multiple of `unit` that is not below `n`, by division. */
  function RoundUp(n: nat, unit: nat): nat
    requires unit > 0
  {
    (n + unit - 1) / unit * unit
  }

  lemma {:induction false} RoundUpIsLeast(n: nat, unit: nat, k: nat)
    requires unit > 0
    ensures n <= RoundUp(n, unit) < n + unit
    ensures n <= k * unit ==> RoundUp(n, unit) <= k * unit
  {
    var q := (n + unit - 1) / unit;
    assert q * unit + (n + unit - 1) % unit == n + unit - 1;
    if n <= k * unit {
      if k < q {
        MulOrder(k + 1, q, unit);
      } else {
        MulOrder(q, k, unit);
      }
    }
  }

  lemma {:induction false} MulOrder(a: nat, b: nat, unit: nat)
    requires a <= b
    ensures a * unit <= b * unit
  {
    assert (b - a) * unit >= 0;
  }

  function Pow2(k: nat): (p: nat)
    ensures p > 0
  {
    if k == 0 then 1 else 2 * Pow2(k - 1)
  }

  /** The operator & on words. */
  function BitAnd(x: nat, y: nat): nat {
    if x == 0 then 0 else 2 * BitAnd(x / 2, y / 2) + (if x % 2 == 1 && y % 2 == 1 then 1 else 0)
  }

  lemma {:induction false} DivisionIs(a: nat, d: nat, q: nat, r: nat)
    requires a == q * d + r && r < d
    ensures a / d == q
  {
    var q', r' := a / d, a % d;
    assert a == q' * d + r';
    if q' < q {
      MulOrder(q' + 1, q, d);
    } else if q < q' {
      MulOrder(q + 1, q', d);
    }
  }

  /** Dropping the lowest k bits one by one. */
  lemma {:induction false} HalfThenRest(x: nat, d: nat)
    requires d > 0
    ensures x / 2 / d == x / (2 * d)
  {
    var q, r := x / 2 / d, x / 2 % d;
    assert x / 2 == q * d + r;
    assert x == q * (2 * d) + (2 * r + x % 2);
    DivisionIs(x, 2 * d, q, 2 * r + x % 2);
  }

  lemma {:induction false} AndHalves(x: nat, half: nat, low: nat)
    requires low < 2
    ensures BitAnd(x, 2 * half + low) == 2 * BitAnd(x / 2, half) + (if low == 1 then x % 2 else 0)
  {
    assert (2 * half + low) / 2 == half && (2 * half + low) % 2 == low;
  }

  lemma {:induction false} AllOnes(x: nat, bits: nat)
    requires x < Pow2(bits)
    ensures BitAnd(x, Pow2(bits) - 1) == x
    decreases bits
  {
    if bits > 0 {
      AllOnes(x / 2, bits - 1);
      AndHalves(x, Pow2(bits - 1) - 1, 1);
    }
  }

  lemma {:induction false} Twice(q: nat, d: nat)
    ensures 2 * (q * d) == q * (2 * d)
  {
  }

  lemma {:induction false} MaskIsDivision(x: nat, bits: nat, k: nat)
    requires k <= bits && x < Pow2(bits)
    ensures Pow2(k) <= Pow2(bits) && BitAnd(x, Pow2(bits) - Pow2(k)) == x / Pow2(k) * Pow2(k)
    decreases k
  {
    if k == 0 {
      AllOnes(x, bits);
    } else {
      var d := Pow2(k - 1);
      MaskIsDivision(x / 2, bits - 1, k - 1);
      AndHalves(x, Pow2(bits - 1) - d, 0);
      HalfThenRest(x, d);
      Twice(x / 2 / d, d);
    }
  }

  /**
   * The source's `(sz + unit - 1) & -unit` on words of any width, for units that are powers of two: it rounds up if and
   * only if the sum does not wrap around.
   */
  lemma {:induction false} MaskRoundsUp(sz: nat, bits: nat, k: nat)
    requires k <= bits && sz < Pow2(bits)
    ensures var unit, word := Pow2(k), Pow2(bits);
      && unit <= word
      && (BitAnd((sz + unit - 1) % word, word - unit) == RoundUp(sz, unit) <==> sz + unit - 1 < word)
  {
    var unit, word, sum := Pow2(k), Pow2(bits), sz + Pow2(k) - 1;
    MaskIsDivision(sum % word, bits, k);
    if sum < word {
      DivisionIs(sum, word, 0, sum);
    } else {
      DivisionIs(sum, word, 1, sum - word);
      DivisionIs(sum - word, unit, 0, sum - word);
      RoundUpIsLeast(sz, unit, 0);
    }
  }

  /** A mapped stretch of the address space. */
  datatype Region = Region(mem: nat, sz: nat)

  predicate Apart(a: Region, b: Region) {
    a.mem + a.sz <= b.mem || b.mem + b.sz <= a.mem
  }

  /** mmap(2) and munmap(2): new mappings never overlap present ones. */
  class AddressSpace {
    var mapped: set<Region>
    var top: nat

    constructor ()
      ensures Valid() && mapped == {}
    {
      mapped, top := {}, 1;
    }

    ghost predicate Valid()
      reads this
    {
      && (forall a, b :: a in mapped && b in mapped && a != b ==> Apart(a, b))
      && (forall a :: a in mapped ==> 0 < a.mem && 0 < a.sz && a.mem + a.sz <= top)
    }

    method Mmap(sz: nat) returns (r: Region)
      requires Valid() && sz > 0
      modifies this
      ensures Valid() && mapped == old(mapped) + {r} && r !in old(mapped)
      ensures r.mem > 0 && r.sz == sz
    {
      var mem: nat := *;
      if mem == 0 || exists a :: a in mapped && !Apart(a, Region(mem, sz)) {
        mem := if top > 0 then top else 1;
      }
      r := Region(mem, sz);
      mapped := mapped + {r};
      if mem + sz > top {
        top := mem + sz;
      }
    }

    method Munmap(r: Region)
      requires Valid()
      modifies this`mapped
      ensures Valid() && mapped == old(mapped) - {r}
    {
      mapped := mapped - {r};
    }
  }

  /** A segment: the first `taken` bytes have been handed out (`used` in the source). */
  datatype Segment = Segment(region: Region, taken: nat)

  /** A chunk that has been handed out: where it is, and in which segment. */
  datatype Chunk = Chunk(at: Region, segment: nat)

  /** The chunk overlaps none of these, and all have bytes. */
  ghost predicate ApartFrom(chunks: seq<Chunk>, c: Chunk) {
    c.at.sz > 0 && forall k :: 0 <= k < |chunks| ==> chunks[k].at.sz > 0 && Apart(chunks[k].at, c.at)
  }

  /** The segments that were there are still the same memory. */
  predicate SameRegions(before: seq<Segment>, after: seq<Segment>) {
    |before| <= |after| && forall i :: 0 <= i < |before| ==> after[i].region == before[i].region
  }

  class SegmentList {
    const space: AddressSpace
    const pageSize: nat
    var segments: seq<Segment>   // the source's list from its tail to its head
    ghost var chunks: seq<Chunk>

    constructor (space: AddressSpace, pageSize: nat)
      requires pageSize > 0
      ensures this.space == space && this.pageSize == pageSize && segments == [] && chunks == []
    {
      this.space, this.pageSize := space, pageSize;
      segments, chunks := [], [];
    }

    ghost predicate Valid()
      reads this, space
    {
      && space.Valid() && pageSize > 0
      && (forall i, j :: 0 <= i < j < |segments| ==> segments[i].region != segments[j].region)
      && (forall i :: 0 <= i < |segments| ==>
        segments[i].region in space.mapped && segments[i].taken <= segments[i].region.sz)
      && (forall k :: 0 <= k < |chunks| ==> Inside(segments, chunks[k]))
      && (forall k, m :: 0 <= k < m < |chunks| ==> Apart(chunks[k].at, chunks[m].at))
    }

    ghost function Regions(): set<Region>
      reads this
    {
      set i | 0 <= i < |segments| :: segments[i].region
    }

    /** A new segment at the head. */
    method Extend(sz: nat)
      requires Valid() && sz > 0
      modifies this`segments, space
      ensures Valid() && |segments| == |old(segments)| + 1 && segments[..|old(segments)|] == old(segments)
      ensures segments[|old(segments)|].taken == 0 && segments[|old(segments)|].region.sz == sz
      ensures space.mapped == old(space.mapped) + {segments[|old(segments)|].region}
      ensures segments[|old(segments)|].region !in old(space.mapped)
    {
      var region := space.Mmap(sz);
      segments := segments + [Segment(region, 0)];
    }

    /** Whether the head has room for `sz` bytes. */
    predicate Fits(sz: nat)
      reads this
    {
      segments != [] && segments[|segments| - 1].region.sz - segments[|segments| - 1].taken >= sz
    }

    /** fpm_shm_alloc_chunk: an address, and the start of the segment around it. */
    method AllocChunk(size: nat) returns (ret: nat, mem: nat)
      requires Valid() && size > 0
      modifies this`segments, this`chunks, space
      ensures Valid() && segments != [] && mem == segments[|segments| - 1].region.mem
      ensures chunks == old(chunks) + [Chunk(Region(ret, RoundUp(size, CACHE_LINE)), |segments| - 1)]
      ensures |segments| == |old(segments)| + (if old(Fits(RoundUp(size, CACHE_LINE))) then 0 else 1)
      ensures SameRegions(old(segments), segments)
      ensures old(space.mapped) <= space.mapped && Regions() - old(Regions()) !! old(space.mapped)
    {
      var sz := RoundUp(size, CACHE_LINE);
      RoundUpIsLeast(size, CACHE_LINE, 0);
      if !Fits(sz) {
        RoundUpIsLeast(sz, pageSize, 0);
        Extend(RoundUp(sz, pageSize));
      }
      ret, mem := Take(sz);
    }

    lemma {:induction false} LastIsApart(front: seq<Chunk>, c: Chunk)
      requires Valid() && chunks == front + [c]
      ensures ApartFrom(front, c) && c.segment < |segments|
    {
      assert chunks[|front|] == c && Inside(segments, c);
      forall k | 0 <= k < |front| ensures front[k].at.sz > 0 && Apart(front[k].at, c.at) {
        assert chunks[k] == front[k] && Inside(segments, chunks[k]);
      }
    }

    /** The next `sz` bytes of the head. */
    method Take(sz: nat) returns (ret: nat, mem: nat)
      requires Valid() && sz > 0 && Fits(sz)
      modifies this`chunks, this`segments
      ensures Valid() && |segments| == |old(segments)| && mem == segments[|segments| - 1].region.mem
      ensures forall i :: 0 <= i < |segments| ==> segments[i].region == old(segments)[i].region
      ensures chunks == old(chunks) + [Chunk(Region(ret, sz), |segments| - 1)]
    {
      var last := |segments| - 1;
      var shm := segments[last];
      mem := shm.region.mem;
      ret := mem + shm.taken;
      segments := segments[last := shm.(taken := shm.taken + sz)];
      chunks := chunks + [Chunk(Region(ret, sz), last)];
    }

    /**
     * fpm_shm_free_list: every segment is unmapped, except the one that starts at `mem`; nothing else changes.
     * With the address that AllocChunk reported, this is the one segment around that chunk.
     */
    method FreeList(mem: nat)
      requires Valid()
      modifies space
      ensures space.Valid()
      ensures forall i :: 0 <= i < |segments| ==>
        (segments[i].region in space.mapped <==> segments[i].region.mem == mem)
      ensures forall i, j :: 0 <= i < j < |segments| ==>
        segments[i].region !in space.mapped || segments[j].region !in space.mapped
      ensures forall r :: r in space.mapped <==> r in old(space.mapped) && (r in Regions() ==> r.mem == mem)
    {
      var i := |segments|;
      while i > 0
        invariant 0 <= i <= |segments| && space.Valid()
        invariant forall r :: r in space.mapped <==>
          r in old(space.mapped) && forall j :: i <= j < |segments| && segments[j].region == r ==> r.mem == mem
      {
        i := i - 1;
        if mem != segments[i].region.mem {
          space.Munmap(segments[i].region);
        }
      }
    }
  }

  /** A chunk lies in the part of its segment that has been handed out. */
  ghost predicate Inside(segments: seq<Segment>, c: Chunk) {
    && c.segment < |segments| && c.at.sz > 0
    && segments[c.segment].region.mem <= c.at.mem
    && c.at.mem + c.at.sz <= segments[c.segment].region.mem + segments[c.segment].taken
  }

  // ---- Several lists in one address space ---------------------------------------------------

  ghost predicate AllIn(lists: seq<SegmentList>, space: AddressSpace)
    reads lists, space
  {
    forall j :: 0 <= j < |lists| ==> lists[j].space == space && lists[j].Valid()
  }

  /** No two lists have a segment in common. */
  ghost predicate Separate(lists: seq<SegmentList>)
    reads lists
  {
    forall i, j :: 0 <= i < j < |lists| ==> lists[i] != lists[j] && lists[i].Regions() !! lists[j].Regions()
  }

  /** A chunk in one of the lists leaves the others as they are, and all of them separate. */
  method AllocAmong(lists: seq<SegmentList>, ghost space: AddressSpace, k: nat, size: nat) returns (ret: nat, mem: nat)
    requires AllIn(lists, space) && Separate(lists) && k < |lists| && size > 0
    modifies lists[k], space
    ensures AllIn(lists, space) && Separate(lists)
    ensures var n := |lists[k].segments|;
      n > 0 && lists[k].chunks == old(lists[k].chunks) + [Chunk(Region(ret, RoundUp(size, CACHE_LINE)), n - 1)]
  {
    ret, mem := lists[k].AllocChunk(size);
  }

  /**
   * The sweep over the lists of all pools: of all their segments those that start at `mem` stay, and nothing outside
   * the lists changes.
   */
  method FreeLists(lists: seq<SegmentList>, ghost space: AddressSpace, mem: nat)
    requires AllIn(lists, space) && Separate(lists) && space.Valid()
    modifies space
    ensures space.Valid()
    ensures forall j, i :: 0 <= j < |lists| && 0 <= i < |lists[j].segments| ==>
      (lists[j].segments[i].region in space.mapped <==> lists[j].segments[i].region.mem == mem)
    ensures forall r :: r in space.mapped <==>
      r in old(space.mapped) && forall j :: 0 <= j < |lists| && r in lists[j].Regions() ==> r.mem == mem
  {
    var w := 0;
    while w < |lists|
      invariant 0 <= w <= |lists| && space.Valid()
      invariant forall j :: w <= j < |lists| ==> lists[j].space == space && lists[j].Valid()
      invariant forall r :: r in space.mapped <==>
        r in old(space.mapped) && forall j :: 0 <= j < w && r in lists[j].Regions() ==> r.mem == mem
    {
      lists[w].FreeList(mem);
      w := w + 1;
    }
  }
}
