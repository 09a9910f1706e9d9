/** The bounded cache in front of the block database: a recency list and a map of iterators into it. */
module LruCache {
  import opened Text

  // ---------------------------------------------------------------------------------------------
  // Specification: a bounded list of items, most recently used first.

  datatype Item = Item(key: string, value: string)

  type Recency = seq<Item>

  ghost function Find(r: Recency, k: string): Option<string> {
    if r == [] then None else if r[0].key == k then Some(r[0].value) else Find(r[1..], k)
  }

  /** No key occurs twice. */
  ghost predicate Distinct(r: Recency) {
    r != [] ==> Find(r[1..], r[0].key) == None && Distinct(r[1..])
  }

  ghost function Without(r: Recency, k: string): Recency {
    if r == [] then [] else if r[0].key == k then r[1..] else [r[0]] + Without(r[1..], k)
  }

  ghost function Bounded(r: Recency, cap: nat): Recency {
    if |r| <= cap then r else r[..cap]
  }

  ghost function AfterPut(cap: nat, r: Recency, k: string, v: string): Recency {
    Bounded([Item(k, v)] + Without(r, k), cap)
  }

  ghost function AfterGet(r: Recency, k: string): Recency {
    match Find(r, k)
    case None => r
    case Some(v) => [Item(k, v)] + Without(r, k)
  }

  // ---------------------------------------------------------------------------------------------
  // The two data structures of the implementation.

  /** A list node. `id` is its address, which is what a `std::list` iterator denotes. */
  datatype Node = Node(id: nat, key: string)

  /** A map value: the cached string and the iterator to the key's list node. */
  datatype Entry = Entry(value: string, it: nat)

  /** `order.erase(it)`: unlink the node the iterator denotes. */
  function Erase(order: seq<Node>, it: nat): seq<Node> {
    if order == [] then [] else if order[0].id == it then order[1..] else [order[0]] + Erase(order[1..], it)
  }

  /** Every iterator in the map denotes the list node of its own key, and the list holds no other node. */
  ghost predicate Linked(order: seq<Node>, cache: map<string, Entry>) {
    && NoDup(order)
    && (forall n :: n in order ==> n.key in cache && cache[n.key].it == n.id)
    && (forall k :: k in cache ==> Node(cache[k].it, k) in order)
    && (forall n, m :: n in order && m in order && n.id == m.id ==> n == m)
  }

  ghost function View(order: seq<Node>, cache: map<string, Entry>): (r: Recency)
    requires forall n :: n in order ==> n.key in cache
  {
    if order == [] then []
    else [Item(order[0].key, cache[order[0].key].value)] + View(order[1..], cache)
  }

  lemma {:induction false} ViewSize(order: seq<Node>, cache: map<string, Entry>)
    requires forall n :: n in order ==> n.key in cache
    ensures |View(order, cache)| == |order|
  {
    if order != [] {
      ViewSize(order[1..], cache);
    }
  }

  /** The abstract list depends on the cached values only. */
  lemma {:induction false} ViewFrame(order: seq<Node>, c: map<string, Entry>, d: map<string, Entry>)
    requires forall n :: n in order ==> n.key in c && n.key in d && c[n.key].value == d[n.key].value
    ensures View(order, c) == View(order, d)
  {
    if order != [] {
      ViewFrame(order[1..], c, d);
    }
  }

  lemma {:induction false} ViewDropLast(order: seq<Node>, cache: map<string, Entry>)
    requires order != [] && forall n :: n in order ==> n.key in cache
    ensures var o := order[..|order| - 1];
      |View(order, cache)| == |order| && View(o, cache) == View(order, cache)[..|order| - 1]
  {
    ViewSize(order, cache);
    var o := order[..|order| - 1];
    if o != [] {
      assert order[1..][..|order| - 2] == o[1..];
      ViewDropLast(order[1..], cache);
    }
  }

  /** Looking a key up in the map is looking it up in the abstract list. */
  lemma {:induction false} FindView(order: seq<Node>, cache: map<string, Entry>, k: string)
    requires forall n :: n in order ==> n.key in cache
    ensures Find(View(order, cache), k) ==
            if exists n :: n in order && n.key == k then Some(cache[k].value) else None
  {
    if order != [] {
      FindView(order[1..], cache, k);
      assert order == [order[0]] + order[1..];
    }
  }

  lemma {:induction false} EraseElements(order: seq<Node>, it: nat)
    requires NoDup(order)
    requires forall n, m :: n in order && m in order && n.id == m.id ==> n == m
    ensures NoDup(Erase(order, it))
    ensures forall n :: n in Erase(order, it) <==> n in order && n.id != it
    ensures |Erase(order, it)| == |order| - (if exists n :: n in order && n.id == it then 1 else 0)
  {
    if order != [] {
      assert order == [order[0]] + order[1..];
      EraseElements(order[1..], it);
    }
  }

  /** Erasing through the iterator stored for `k` removes exactly `k`'s item. */
  lemma {:induction false} EraseIsWithout(order: seq<Node>, cache: map<string, Entry>, it: nat, k: string)
    requires forall n :: n in order ==> n.key in cache
    requires forall n :: n in order ==> (n.id == it <==> n.key == k)
    requires forall n :: n in Erase(order, it) ==> n in order
    ensures View(Erase(order, it), cache) == Without(View(order, cache), k)
  {
    if order != [] && order[0].id != it {
      forall n | n in Erase(order[1..], it) ensures n in order[1..] {
        EraseSubset(order[1..], it, n);
      }
      EraseIsWithout(order[1..], cache, it, k);
      var e := Erase(order, it);
      assert e[1..] == Erase(order[1..], it);
    }
  }

  lemma {:induction false} EraseSubset(order: seq<Node>, it: nat, n: Node)
    requires n in Erase(order, it)
    ensures n in order
  {
    if order != [] && order[0].id != it && n != order[0] {
      EraseSubset(order[1..], it, n);
    }
  }

  lemma {:induction false} WithoutAbsent(r: Recency, k: string)
    requires Find(r, k) == None
    ensures Without(r, k) == r
  {
    if r != [] {
      WithoutAbsent(r[1..], k);
    }
  }

  lemma DropLastNode(order: seq<Node>)
    requires NoDup(order) && order != []
    ensures var o, last := order[..|order| - 1], order[|order| - 1];
      && NoDup(o) && last in order && last !in o
      && forall n :: n in order <==> n in o || n == last
  {
    assert order == order[..|order| - 1] + [order[|order| - 1]];
  }

  /** Dropping the last node and its map entry keeps the two structures linked. */
  lemma LinkedDropLast(order: seq<Node>, cache: map<string, Entry>)
    requires Linked(order, cache) && order != []
    ensures var o := order[..|order| - 1];
      && (forall n :: n in o ==> n in order)
      && Linked(o, cache - {order[|order| - 1].key})
  {
    DropLastNode(order);
  }

  /** `cache.size()` is the length of the list. */
  lemma {:induction false} MapSize(order: seq<Node>, cache: map<string, Entry>)
    requires Linked(order, cache)
    ensures |cache| == |order|
    decreases |order|
  {
    if order == [] {
      assert cache.Keys == {};
    } else {
      var last := order[|order| - 1];
      LinkedDropLast(order, cache);
      MapSize(order[..|order| - 1], cache - {last.key});
      assert last in order;
      assert (cache - {last.key}).Keys == cache.Keys - {last.key};
    }
  }

  /** A key of the map is found in the list, with the map's value. */
  lemma FindMember(order: seq<Node>, cache: map<string, Entry>, k: string)
    requires Linked(order, cache) && k in cache
    ensures Find(View(order, cache), k) == Some(cache[k].value)
  {
    FindView(order, cache, k);
    assert Node(cache[k].it, k) in order;
  }

  /** The two structures after re-linking `k`'s node at the front under a new address. */
  lemma Relinked(order: seq<Node>, cache: map<string, Entry>, k: string, id: nat)
    requires Linked(order, cache) && k in cache
    requires forall n :: n in order ==> n.id < id
    ensures var o := [Node(id, k)] + Erase(order, cache[k].it);
      && |o| == |order|
      && Linked(o, cache[k := Entry(cache[k].value, id)])
      && (forall n :: n in o ==> n.id <= id)
  {
    assert Node(cache[k].it, k) in order;
    EraseElements(order, cache[k].it);
    var rest := Erase(order, cache[k].it);
    var o := [Node(id, k)] + rest;
    assert forall n :: n in o <==> n == Node(id, k) || n in rest;
    NoDupCons(Node(id, k), rest);
  }

  /** Re-linking `k`'s node at the front, under a new address, is moving its item to the front. */
  lemma MovedToFront(order: seq<Node>, cache: map<string, Entry>, k: string, id: nat)
    requires Linked(order, cache) && k in cache
    requires forall n :: n in order ==> n.id < id
    ensures var o := [Node(id, k)] + Erase(order, cache[k].it);
            var c := cache[k := Entry(cache[k].value, id)];
      && |o| == |order|
      && Linked(o, c)
      && (forall n :: n in o ==> n.id <= id)
      && View(o, c) == [Item(k, cache[k].value)] + Without(View(order, cache), k)
  {
    var it := cache[k].it;
    assert Node(it, k) in order;
    Relinked(order, cache, k, id);
    EraseElements(order, it);
    EraseIsWithout(order, cache, it, k);
    var rest := Erase(order, it);
    ViewFrame(rest, cache, cache[k := Entry(cache[k].value, id)]);
    assert ([Node(id, k)] + rest)[1..] == rest;
  }

  /** Dropping the last node and its map entry drops the last item. */
  lemma Evicted(order: seq<Node>, cache: map<string, Entry>, id: nat)
    requires Linked(order, cache) && order != []
    requires forall n :: n in order ==> n.id < id
    ensures var o, c := order[..|order| - 1], cache - {order[|order| - 1].key};
      && Linked(o, c)
      && (forall n :: n in o ==> n.id < id)
      && |View(order, cache)| == |order|
      && View(o, c) == View(order, cache)[..|order| - 1]
  {
    LinkedDropLast(order, cache);
    ViewDropLast(order, cache);
    ViewFrame(order[..|order| - 1], cache, cache - {order[|order| - 1].key});
  }

  /** Without `k`'s node and map entry the two structures are still linked. */
  lemma LinkedWithout(order: seq<Node>, cache: map<string, Entry>, k: string, o: seq<Node>)
    requires Linked(order, cache) && k in cache && NoDup(o)
    requires forall n :: n in o <==> n in order && n.id != cache[k].it
    ensures Linked(o, cache - {k})
  {
    var c := cache - {k};
    assert Node(cache[k].it, k) in order;
    forall n | n in o ensures n.key in c && c[n.key].it == n.id {
    }
    forall x | x in c ensures Node(c[x].it, x) in o {
      assert Node(cache[x].it, x) in order;
    }
  }

  /** Erasing `k`'s node and map entry removes exactly its item. */
  lemma Unlinked(order: seq<Node>, cache: map<string, Entry>, k: string)
    requires Linked(order, cache) && k in cache
    ensures var o, c := Erase(order, cache[k].it), cache - {k};
      && |o| == |order| - 1
      && (forall n :: n in o ==> n in order)
      && Linked(o, c)
      && View(o, c) == Without(View(order, cache), k)
  {
    var it := cache[k].it;
    var o := Erase(order, it);
    EraseElements(order, it);
    LinkedWithout(order, cache, k, o);
    assert Node(it, k) in order;
    assert |o| == |order| - 1;
    EraseIsWithout(order, cache, it, k);
    ViewFrame(o, cache, cache - {k});
  }

  /** A new node at the front with its map entry keeps the two structures linked and adds its item. */
  lemma Pushed(order: seq<Node>, cache: map<string, Entry>, k: string, v: string, id: nat)
    requires Linked(order, cache) && k !in cache
    requires forall n :: n in order ==> n.id < id
    ensures var o, c := [Node(id, k)] + order, cache[k := Entry(v, id)];
      && (forall n :: n in o ==> n.id <= id)
      && Linked(o, c)
      && View(o, c) == [Item(k, v)] + View(order, cache)
  {
    var o, c := [Node(id, k)] + order, cache[k := Entry(v, id)];
    assert forall n :: n in o <==> n == Node(id, k) || n in order;
    NoDupCons(Node(id, k), order);
    ViewFrame(order, cache, c);
    assert o[1..] == order;
  }

  class LRUCache {
    const cap: nat
    var order: seq<Node>
    var cache: map<string, Entry>
    var nextNode: nat   // the next unused node address

    ghost predicate Valid()
      reads this
    {
      && Linked(order, cache)
      && (forall n :: n in order ==> n.id < nextNode)
      && |order| <= cap
    }

    ghost function Contents(): Recency
      reads this
      requires Valid()
    {
      View(order, cache)
    }

    constructor (capacity: nat)
      ensures Valid() && Contents() == [] && cap == capacity
    {
      cap := capacity;
      order, cache, nextNode := [], map[], 0;
    }

    /** `order.erase(it)` followed by forgetting the map entry. */
    method Unlink(k: string)
      requires Valid() && k in cache
      modifies this`order, this`cache
      ensures Valid() && k !in cache && |order| == old(|order|) - 1
      ensures Contents() == Without(old(Contents()), k)
    {
      Unlinked(order, cache, k);
      var it := cache[k].it;
      order := Erase(order, it);
      cache := cache - {k};
    }

    /** `order.push_front(k); cache[k] = {v, order.begin()};`. */
    method PushFront(k: string, v: string)
      requires Linked(order, cache) && k !in cache
      requires forall n :: n in order ==> n.id < nextNode
      modifies this
      ensures Linked(order, cache)
      ensures forall n :: n in order ==> n.id < nextNode
      ensures |order| == old(|order|) + 1
      ensures View(order, cache) == [Item(k, v)] + old(View(order, cache))
    {
      Pushed(order, cache, k, v, nextNode);
      order := [Node(nextNode, k)] + order;
      cache := cache[k := Entry(v, nextNode)];
      nextNode := nextNode + 1;
    }

    /** The eviction step of `put`: `cache.erase(order.back()); order.pop_back();`. */
    method Evict()
      requires Linked(order, cache) && |order| == cap + 1
      requires forall n :: n in order ==> n.id < nextNode
      modifies this`order, this`cache
      ensures Valid()
      ensures Contents() == Bounded(old(View(order, cache)), cap)
    {
      Evicted(order, cache, nextNode);
      cache := cache - {order[|order| - 1].key};
      order := order[..|order| - 1];
    }

    method Put(k: string, v: string)
      requires Valid()
      modifies this
      ensures Valid()
      ensures Contents() == AfterPut(cap, old(Contents()), k, v)
    {
      FindView(order, cache, k);
      if k in cache {
        Unlink(k);
      } else {
        WithoutAbsent(Contents(), k);
      }
      PushFront(k, v);
      MapSize(order, cache);
      ViewSize(order, cache);
      if |cache| > cap {
        Evict();
      }
    }

    method Get(k: string) returns (found: bool, v: string)
      requires Valid()
      modifies this
      ensures Valid()
      ensures Contents() == AfterGet(old(Contents()), k)
      ensures match Find(old(Contents()), k)
              case None => !found
              case Some(x) => found && v == x
    {
      FindView(order, cache, k);
      if k !in cache {
        return false, "";
      }
      MovedToFront(order, cache, k, nextNode);
      FindMember(order, cache, k);
      order := Erase(order, cache[k].it);
      order := [Node(nextNode, k)] + order;
      cache := cache[k := cache[k].(it := nextNode)];
      nextNode := nextNode + 1;
      found, v := true, cache[k].value;
    }

    method Contains(k: string) returns (found: bool)
      requires Valid()
      ensures found <==> Find(Contents(), k).Some?
    {
      found := k in cache;
      FindView(order, cache, k);
      if found {
        assert Node(cache[k].it, k) in order;
      }
    }
  }
}
