/**
 * The packing list of the jetsetter `Application` component: a list of items,
 * each with a text value, an id and a packed flag, and the three updates the
 * component applies to it (add an item, toggle one item's packed flag, unpack
 * everything), plus the split into unpacked and packed items that `render`
 * hands to the two item lists.
 *
 * Each update computes a new list from the old one (array spread, `filter`,
 * `map` with object spread) and installs it with `setState`; the pure
 * functions below are those computations, and the `Application` class holds
 * the `items` state field that its methods replace.
 */
module Jetsetter {

  datatype Item = Item(value: string, id: int, packed: bool)

  // ---- Array.prototype.filter ----

  /** The elements of `s` for which `keep` holds, in their original order. */
  function Filter(s: seq<Item>, keep: Item -> bool): (r: seq<Item>)
    ensures |r| <= |s|
    ensures forall x :: x in r <==> x in s && keep(x)
  {
    if s == [] then []
    else (if keep(s[0]) then [s[0]] else []) + Filter(s[1..], keep)
  }

  /** Filtering a concatenation filters each part and keeps the parts in order. */
  lemma {:induction false} FilterConcat(a: seq<Item>, b: seq<Item>, keep: Item -> bool)
    ensures Filter(a + b, keep) == Filter(a, keep) + Filter(b, keep)
  {
    if a == [] {
      assert a + b == b;
    } else {
      assert (a + b)[0] == a[0];
      assert (a + b)[1..] == a[1..] + b;
      FilterConcat(a[1..], b, keep);
    }
  }

  /** Each kept value occurs as often as in `s`; every other value not at all. */
  lemma {:induction false} FilterCount(s: seq<Item>, keep: Item -> bool, x: Item)
    ensures multiset(Filter(s, keep))[x] == if keep(x) then multiset(s)[x] else 0
  {
    if s != [] {
      assert s == [s[0]] + s[1..];
      FilterCount(s[1..], keep, x);
    }
  }

  /** A filter that drops nothing returns its input. */
  lemma {:induction false} FilterKeepsAll(s: seq<Item>, keep: Item -> bool)
    requires forall x :: x in s ==> keep(x)
    ensures Filter(s, keep) == s
  {
    if s != [] {
      assert s == [s[0]] + s[1..];
      FilterKeepsAll(s[1..], keep);
    }
  }

  /** Two complementary filters split a list: every element lands in exactly one part. */
  lemma {:induction false} FilterSplit(s: seq<Item>, p: Item -> bool, q: Item -> bool)
    requires forall x :: q(x) == !p(x)
    ensures |Filter(s, p)| + |Filter(s, q)| == |s|
    ensures multiset(Filter(s, p)) + multiset(Filter(s, q)) == multiset(s)
  {
    if s != [] {
      assert s == [s[0]] + s[1..];
      FilterSplit(s[1..], p, q);
    }
  }

  // ---- the list operations of the component ----

  /** The ids of the items, in list order. */
  function Ids(s: seq<Item>): (r: seq<int>)
    ensures |r| == |s|
    ensures forall i :: 0 <= i < |s| ==> r[i] == s[i].id
  {
    if s == [] then [] else [s[0].id] + Ids(s[1..])
  }

  /** No two items share an id (what `Date.now()` ids are meant to guarantee). */
  predicate UniqueIds(s: seq<Item>) {
    forall i, j :: 0 <= i < j < |s| ==> s[i].id != s[j].id
  }

  /** The items whose id differs from `id` (the `filter` in `markAsPacked`). */
  function WithoutId(s: seq<Item>, id: int): (r: seq<Item>)
    ensures |r| <= |s|
    ensures forall x :: x in r <==> x in s && x.id != id
  {
    Filter(s, (other: Item) => other.id != id)
  }

  /** The list after `addItem(item)`: the new item first, then the old list. */
  function WithAdded(s: seq<Item>, item: Item): (r: seq<Item>)
    ensures |r| == |s| + 1 && r[0] == item && r[1..] == s
  {
    [item] + s
  }

  /** The list after `markAsPacked(item)`: a copy of `item` with its flag negated, then every item with a different id. */
  function MarkedAsPacked(s: seq<Item>, item: Item): (r: seq<Item>)
    ensures 0 < |r| <= |s| + 1
    ensures r[0].value == item.value && r[0].id == item.id && r[0].packed == !item.packed
    ensures forall x :: x in r[1..] <==> x in s && x.id != item.id
  {
    [item.(packed := !item.packed)] + WithoutId(s, item.id)
  }

  /** The list after `markAllAsUnpacked()`: each item copied with `packed` set to false. */
  function AllUnpacked(s: seq<Item>): (r: seq<Item>)
    ensures |r| == |s|
    ensures forall i :: 0 <= i < |s| ==> r[i].value == s[i].value && r[i].id == s[i].id && !r[i].packed
  {
    if s == [] then [] else [s[0].(packed := false)] + AllUnpacked(s[1..])
  }

  /** The items `render` shows under "Unpacked Items". */
  function Unpacked(s: seq<Item>): (r: seq<Item>)
    ensures |r| <= |s|
    ensures forall x :: x in r <==> x in s && !x.packed
  {
    Filter(s, (item: Item) => !item.packed)
  }

  /** The items `render` shows under "Packed Items". */
  function Packed(s: seq<Item>): (r: seq<Item>)
    ensures |r| <= |s|
    ensures forall x :: x in r <==> x in s && x.packed
  {
    Filter(s, (item: Item) => item.packed)
  }

  // ---- what the operations promise ----

  /** A new item is shown first in the sublist its flag selects, and the other sublist is unchanged. */
  lemma AddedItemShownFirst(s: seq<Item>, item: Item)
    ensures Unpacked(WithAdded(s, item)) == (if item.packed then [] else [item]) + Unpacked(s)
    ensures Packed(WithAdded(s, item)) == (if item.packed then [item] else []) + Packed(s)
  {
    FilterConcat([item], s, (i: Item) => !i.packed);
    FilterConcat([item], s, (i: Item) => i.packed);
  }

  /** The first element after `markAsPacked` is the argument with only its flag negated, and the rest are
      exactly the old items of other ids, in their old relative order and unmodified. */
  lemma MarkedAsPackedShape(s: seq<Item>, item: Item)
    ensures var r := MarkedAsPacked(s, item);
      r[0].value == item.value && r[0].id == item.id && r[0].packed == !item.packed
      && (forall x :: x in r[1..] <==> x in s && x.id != item.id)
      && (forall x :: multiset(r[1..])[x] == if x.id != item.id then multiset(s)[x] else 0)
  {
    var r := MarkedAsPacked(s, item);
    assert r[1..] == WithoutId(s, item.id);
    forall x ensures multiset(r[1..])[x] == if x.id != item.id then multiset(s)[x] else 0 {
      FilterCount(s, (other: Item) => other.id != item.id, x);
    }
  }

  /** Dropping the items of one id keeps the order of the rest: it distributes over concatenation. */
  lemma WithoutIdConcat(a: seq<Item>, b: seq<Item>, id: int)
    ensures WithoutId(a + b, id) == WithoutId(a, id) + WithoutId(b, id)
  {
    FilterConcat(a, b, (other: Item) => other.id != id);
  }

  /** After `markAsPacked` the list holds exactly one item of the argument's id. */
  lemma MarkedAsPackedSingleId(s: seq<Item>, item: Item)
    ensures multiset(Ids(MarkedAsPacked(s, item)))[item.id] == 1
  {
    var r := MarkedAsPacked(s, item);
    assert Ids(r) == [item.id] + Ids(r[1..]);
    IdsWithoutId(s, item.id);
  }

  /** Dropping the items of one id removes every occurrence of that id and no other id. */
  lemma IdsWithoutId(s: seq<Item>, id: int)
    ensures multiset(Ids(WithoutId(s, id))) == multiset(Ids(s))[id := 0]
  {
    forall x ensures multiset(Ids(WithoutId(s, id)))[x] == multiset(Ids(s))[id := 0][x] {
      IdsWithoutIdCount(s, id, x);
    }
  }

  /** Proof helper of IdsWithoutId: how often `x` occurs among the ids that survive the filter. */
  lemma {:induction false} IdsWithoutIdCount(s: seq<Item>, id: int, x: int)
    ensures multiset(Ids(WithoutId(s, id)))[x] == if x == id then 0 else multiset(Ids(s))[x]
  {
    if s != [] {
      var rest := WithoutId(s[1..], id);
      IdsWithoutIdCount(s[1..], id, x);
      var ids := Ids(s[1..]);
      assert Ids(s) == [s[0].id] + ids;
      assert multiset(Ids(s))[x] == multiset([s[0].id])[x] + multiset(ids)[x];
      WithoutIdCons(s, id);
      if s[0].id != id {
        assert Ids(WithoutId(s, id)) == [s[0].id] + Ids(rest);
        assert multiset(Ids(WithoutId(s, id)))[x] == multiset([s[0].id])[x] + multiset(Ids(rest))[x];
      } else {
        assert WithoutId(s, id) == rest;
      }
    }
  }

  /** Proof step for IdsWithoutIdCount: filtering a non-empty list by id decides on its head and filters the rest. */
  lemma WithoutIdCons(s: seq<Item>, id: int)
    requires s != []
    ensures WithoutId(s, id) == (if s[0].id != id then [s[0]] else []) + WithoutId(s[1..], id)
  {
  }

  /** The ids of a concatenation are the ids of its parts, in order. */
  lemma IdsConcat(a: seq<Item>, b: seq<Item>)
    ensures Ids(a + b) == Ids(a) + Ids(b)
  {
    assert |Ids(a + b)| == |Ids(a) + Ids(b)|;
    forall i | 0 <= i < |a + b| ensures Ids(a + b)[i] == (Ids(a) + Ids(b))[i] {
    }
  }

  /** With unique ids, an id present in the list occurs exactly once. */
  lemma {:induction false} UniqueIdOccursOnce(s: seq<Item>, k: nat)
    requires UniqueIds(s) && k < |s|
    ensures multiset(Ids(s))[s[k].id] == 1
  {
    assert Ids(s) == [s[0].id] + Ids(s[1..]);
    if k == 0 {
      assert s[0].id !in Ids(s[1..]) by {
        forall i | 0 <= i < |s| - 1 ensures Ids(s[1..])[i] != s[0].id {
          assert s[1..][i] == s[i + 1];
        }
      }
    } else {
      assert UniqueIds(s[1..]) by {
        forall i, j | 0 <= i < j < |s| - 1 ensures s[1..][i].id != s[1..][j].id {
          assert s[1..][i] == s[i + 1] && s[1..][j] == s[j + 1];
        }
      }
      assert s[1..][k - 1] == s[k];
      UniqueIdOccursOnce(s[1..], k - 1);
    }
  }

  /** With unique ids and the argument's id present, `markAsPacked` keeps the length and the multiset of ids. */
  lemma MarkedAsPackedKeepsIds(s: seq<Item>, item: Item, k: nat)
    requires UniqueIds(s) && k < |s| && s[k].id == item.id
    ensures |MarkedAsPacked(s, item)| == |s|
    ensures multiset(Ids(MarkedAsPacked(s, item))) == multiset(Ids(s))
  {
    var r := MarkedAsPacked(s, item);
    var rest := WithoutId(s, item.id);
    assert r == [r[0]] + rest;
    IdsConcat([r[0]], rest);
    IdsWithoutId(s, item.id);
    UniqueIdOccursOnce(s, k);
    assert multiset(Ids(r)) == multiset(Ids(s));
    assert |multiset(Ids(r))| == |Ids(r)|;
  }

  /** With unique ids, an item of the list is the only one carrying its id, and it occurs once. */
  lemma OnlyItemOfItsId(s: seq<Item>, k: nat)
    requires UniqueIds(s) && k < |s|
    ensures multiset(s)[s[k]] == 1
    ensures forall x :: x in s && x.id == s[k].id ==> x == s[k]
  {
    assert s == s[..k] + [s[k]] + s[k + 1..];
    forall j | 0 <= j < |s| && j != k ensures s[j].id != s[k].id {
      if j < k { assert s[j].id != s[k].id; } else { assert s[k].id != s[j].id; }
    }
    assert s[k] !in s[..k];
    assert s[k] !in s[k + 1..];
  }

  /** With unique ids, dropping the id of an item of the list removes that one item and nothing else. */
  lemma WithoutIdOfUnique(s: seq<Item>, k: nat)
    requires UniqueIds(s) && k < |s|
    ensures multiset(WithoutId(s, s[k].id)) == multiset(s) - multiset{s[k]}
  {
    var item := s[k];
    OnlyItemOfItsId(s, k);
    forall x ensures multiset(WithoutId(s, item.id))[x] == (multiset(s) - multiset{item})[x] {
      FilterCount(s, (other: Item) => other.id != item.id, x);
    }
  }

  /** With unique ids, checking off an item of the list swaps that item for its flag-negated copy and keeps
      every other item: the new list is a permutation of the old one with that single item toggled. */
  lemma MarkedAsPackedTogglesOne(s: seq<Item>, k: nat)
    requires UniqueIds(s) && k < |s|
    ensures multiset(MarkedAsPacked(s, s[k]))
      == multiset(s) - multiset{s[k]} + multiset{s[k].(packed := !s[k].packed)}
  {
    var item := s[k];
    var rest := WithoutId(s, item.id);
    assert MarkedAsPacked(s, item) == [item.(packed := !item.packed)] + rest;
    WithoutIdOfUnique(s, k);
  }

  /** Marking twice, the second time with the item the first call produced, restores the argument
      and leaves the other items as the first call left them. */
  lemma MarkedAsPackedTwice(s: seq<Item>, item: Item)
    ensures var once := MarkedAsPacked(s, item);
      MarkedAsPacked(once, once[0]) == [item] + WithoutId(s, item.id)
  {
    var once := MarkedAsPacked(s, item);
    var rest := WithoutId(s, item.id);
    WithoutIdConcat([once[0]], rest, item.id);
    assert WithoutId([once[0]], item.id) == [];
    FilterKeepsAll(rest, (other: Item) => other.id != item.id);
  }

  /** `markAllAsUnpacked` is idempotent. */
  lemma AllUnpackedIdempotent(s: seq<Item>)
    ensures AllUnpacked(AllUnpacked(s)) == AllUnpacked(s)
  {
    var r := AllUnpacked(s);
    var rr := AllUnpacked(r);
    forall i | 0 <= i < |s| ensures rr[i] == r[i] {
    }
  }

  /** After `markAllAsUnpacked`, `render` shows every item as unpacked and none as packed. */
  lemma AllUnpackedRendersUnpacked(s: seq<Item>)
    ensures Unpacked(AllUnpacked(s)) == AllUnpacked(s)
    ensures Packed(AllUnpacked(s)) == []
  {
    var r := AllUnpacked(s);
    FilterKeepsAll(r, (item: Item) => !item.packed);
    RenderPartition(r);
  }

  /** `render` partitions the list: every item lands in exactly one of the two sublists. */
  lemma RenderPartition(s: seq<Item>)
    ensures |Unpacked(s)| + |Packed(s)| == |s|
    ensures multiset(Unpacked(s)) + multiset(Packed(s)) == multiset(s)
    ensures forall x :: x in Unpacked(s) <==> x in s && !x.packed
    ensures forall x :: x in Packed(s) <==> x in s && x.packed
  {
    FilterSplit(s, (item: Item) => !item.packed, (item: Item) => item.packed);
  }

  // ---- unique ids are kept ----

  /** Putting an item whose id no listed item has in front of a list with unique ids keeps the ids unique. */
  lemma UniqueIdsCons(head: Item, s: seq<Item>)
    requires UniqueIds(s)
    requires forall x :: x in s ==> x.id != head.id
    ensures UniqueIds([head] + s)
  {
    var r := [head] + s;
    forall i, j | 0 <= i < j < |r| ensures r[i].id != r[j].id {
      assert r[j] == s[j - 1];
      if i > 0 {
        assert r[i] == s[i - 1];
      }
    }
  }

  /** A filter of a list with unique ids has unique ids. */
  lemma {:induction false} FilterKeepsUniqueIds(s: seq<Item>, keep: Item -> bool)
    requires UniqueIds(s)
    ensures UniqueIds(Filter(s, keep))
  {
    if s != [] {
      var rest := Filter(s[1..], keep);
      assert UniqueIds(s[1..]) by {
        forall i, j | 0 <= i < j < |s[1..]| ensures s[1..][i].id != s[1..][j].id {
          assert s[1..][i] == s[i + 1] && s[1..][j] == s[j + 1];
        }
      }
      FilterKeepsUniqueIds(s[1..], keep);
      if keep(s[0]) {
        forall x | x in rest ensures x.id != s[0].id {
          var k :| 0 <= k < |s[1..]| && s[1..][k] == x;
          assert s[k + 1] == x;
        }
        UniqueIdsCons(s[0], rest);
      } else {
        assert Filter(s, keep) == rest;
      }
    }
  }

  /** `addItem` keeps ids unique when the new item's id is not already listed. */
  lemma WithAddedUniqueIds(s: seq<Item>, item: Item)
    requires UniqueIds(s)
    requires forall x :: x in s ==> x.id != item.id
    ensures UniqueIds(WithAdded(s, item))
  {
    UniqueIdsCons(item, s);
  }

  /** `markAsPacked` keeps ids unique, whatever its argument and whether or not the argument is listed. */
  lemma MarkedAsPackedUniqueIds(s: seq<Item>, item: Item)
    requires UniqueIds(s)
    ensures UniqueIds(MarkedAsPacked(s, item))
  {
    FilterKeepsUniqueIds(s, (other: Item) => other.id != item.id);
    UniqueIdsCons(item.(packed := !item.packed), WithoutId(s, item.id));
  }

  /** `markAllAsUnpacked` keeps ids unique: every item keeps its id at its place. */
  lemma AllUnpackedUniqueIds(s: seq<Item>)
    requires UniqueIds(s)
    ensures UniqueIds(AllUnpacked(s))
  {
    var r := AllUnpacked(s);
    forall i, j | 0 <= i < j < |r| ensures r[i].id != r[j].id {
      assert r[i].id == s[i].id && r[j].id == s[j].id;
    }
  }

  /** The `Application` component: its `items` state and the handlers that replace it. */
  class Application {
    var items: seq<Item>

    /** The initial state: one unpacked 'Pants' item whose id is the creation time `now`. */
    constructor (now: int)
      ensures |items| == 1
      ensures items[0].value == "Pants" && items[0].id == now && !items[0].packed
      ensures UniqueIds(items)
    {
      items := [Item("Pants", now, false)];
    }

    /** `addItem`: the new item goes first; the old items follow in their order. */
    method AddItem(item: Item)
      modifies this
      ensures items == WithAdded(old(items), item)
      ensures |items| == |old(items)| + 1 && items[0] == item && items[1..] == old(items)
      ensures UniqueIds(old(items)) && (forall x :: x in old(items) ==> x.id != item.id) ==> UniqueIds(items)
    {
      if UniqueIds(items) && (forall x :: x in items ==> x.id != item.id) {
        WithAddedUniqueIds(items, item);
      }
      items := WithAdded(items, item);
    }

    /** `markAsPacked`: replace every item of the argument's id by one flag-negated copy at the front. */
    method MarkAsPacked(item: Item)
      modifies this
      ensures items == MarkedAsPacked(old(items), item)
      ensures items[0] == item.(packed := !item.packed)
      ensures forall x :: x in items[1..] <==> x in old(items) && x.id != item.id
      ensures UniqueIds(old(items)) ==> UniqueIds(items)
    {
      MarkedAsPackedShape(items, item);
      if UniqueIds(items) {
        MarkedAsPackedUniqueIds(items, item);
      }
      items := MarkedAsPacked(items, item);
    }

    /** `markAllAsUnpacked`: every item keeps its value, id and place, and is no longer packed. */
    method MarkAllAsUnpacked()
      modifies this
      ensures items == AllUnpacked(old(items))
      ensures |items| == |old(items)|
      ensures forall i :: 0 <= i < |items| ==>
        items[i].value == old(items)[i].value && items[i].id == old(items)[i].id && !items[i].packed
      ensures UniqueIds(old(items)) ==> UniqueIds(items)
    {
      if UniqueIds(items) {
        AllUnpackedUniqueIds(items);
      }
      items := AllUnpacked(items);
    }

    /** The two lists `render` passes to the "Unpacked Items" and "Packed Items" components. */
    method Render() returns (unpackedItems: seq<Item>, packedItems: seq<Item>)
      ensures unpackedItems == Unpacked(items) && packedItems == Packed(items)
      ensures forall x :: x in unpackedItems <==> x in items && !x.packed
      ensures forall x :: x in packedItems <==> x in items && x.packed
      ensures |unpackedItems| + |packedItems| == |items|
      ensures multiset(unpackedItems) + multiset(packedItems) == multiset(items)
    {
      unpackedItems := Unpacked(items);
      packedItems := Packed(items);
      RenderPartition(items);
    }
  }
}
