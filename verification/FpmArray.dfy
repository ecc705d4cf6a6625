/** The growing array of fpm/fpm_arrays.h. */
module FpmArrays {

  /** The array after its n-th item is removed: the last item takes its place. */
  function Without<T>(s: seq<T>, n: nat): (r: seq<T>)
    requires n < |s|
    ensures |r| == |s| - 1
  {
    if n == |s| - 1 then s[..n] else s[..|s| - 1][n := s[|s| - 1]]
  }

  /** Removal keeps every other item, once. */
  lemma {:induction false} WithoutKeepsTheRest<T>(s: seq<T>, n: nat)
    requires n < |s|
    ensures multiset(Without(s, n)) == multiset(s) - multiset{s[n]}
  {
    var front, last := s[..|s| - 1], s[|s| - 1];
    assert s == front + [last];
    if n < |s| - 1 {
      assert front == front[..n] + [front[n]] + front[n + 1..];
      assert front[n := last] == front[..n] + [last] + front[n + 1..];
    }
  }

  class FpmArray<T> {
    var data: array<T>
    var used: nat
    const blank: T            // what calloc and realloc leave in unused places

    ghost var items: seq<T>   // what the array holds

    /** `allocated` is data.Length. */
    ghost predicate Valid()
      reads this, data
    {
      used <= data.Length && items == data[..used]
    }

    constructor (blank: T, initial: nat)
      ensures Valid() && fresh(data) && data.Length == initial && items == [] && used == 0
    {
      this.blank := blank;
      this.data := new T[initial](_ => blank);
      this.used := 0;
      this.items := [];
    }

    method Item(n: nat) returns (item: T)
      requires Valid() && n < used
      ensures item == items[n]
    {
      item := data[n];
    }

    /** Writing through the pointer to an item. */
    method SetItem(n: nat, item: T)
      requires Valid() && n < used
      modifies this`items, data
      ensures Valid() && items == old(items)[n := item]
    {
      data[n] := item;
      items := items[n := item];
    }

    /** fpm_array_push, and the caller's writing to the new item. */
    method Push(item: T)
      requires Valid()
      modifies this, data
      ensures Valid() && items == old(items) + [item] && used == old(used) + 1
      ensures if old(used) < old(data.Length) then data == old(data) else fresh(data)
      ensures old(used) == old(data.Length) ==> data.Length == if old(used) > 0 then 2 * old(used) else 20
    {
      if used == data.Length {
        var grown := new T[if data.Length > 0 then data.Length * 2 else 20](_ => blank);
        forall i | 0 <= i < used {
          grown[i] := data[i];
        }
        data := grown;
      }
      data[used] := item;
      used := used + 1;
      items := items + [item];
    }

    /** The caller's own way to take the last item. */
    method Pop() returns (item: T)
      requires Valid() && used > 0
      modifies this`used, this`items
      ensures Valid() && old(items) == items + [item] && used == old(used) - 1
    {
      item := data[used - 1];
      used := used - 1;
      items := items[..used];
    }

    /** fpm_array_item_remove: the place that was filled from the end, or -1. */
    method ItemRemove(n: nat) returns (moved: int)
      requires Valid() && n < used
      modifies this`used, this`items, data
      ensures Valid() && items == Without(old(items), n) && used == old(used) - 1
      ensures moved == if n < old(used) - 1 then n else -1
    {
      moved := -1;
      if n < used - 1 {
        data[n] := data[used - 1];
        moved := n;
      }
      used := used - 1;
      items := Without(items, n);
    }
  }
}
