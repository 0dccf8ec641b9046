/** LeastRecentlyUsedCache: an intrusive doubly linked list over a pool of items whose ids are reused. */
module LruCache {
  import opened CanonicalCode
  import opened Sequences

  // A link is the index of an item in the pool: the pool is a deque, so an item never moves.
  datatype Item<T> = Item(obj: T, tick: nat, next: Option<nat>, prev: Option<nat>)

  // The id at position k of a list, if there is one.
  function At(order: seq<nat>, k: int): Option<nat> {
    if 0 <= k < |order| then Some(order[k]) else None
  }

  function Without(order: seq<nat>, k: nat): (r: seq<nat>)
    requires k < |order|
    ensures |r| == |order| - 1
  {
    order[..k] + order[k + 1..]
  }

  predicate LinkedAt<T>(pool: seq<Item<T>>, order: seq<nat>, k: nat) {
    k < |order| ==>
      && order[k] < |pool|
      && pool[order[k]].next == At(order, k + 1)
      && pool[order[k]].prev == At(order, k - 1)
  }

  /** The forward links and the backward links both describe the list order. */
  ghost predicate Linked<T>(pool: seq<Item<T>>, order: seq<nat>, first: Option<nat>, last: Option<nat>) {
    && Distinct(order)
    && first == At(order, 0) && last == At(order, |order| - 1)
    && forall k :: 0 <= k < |order| ==> LinkedAt(pool, order, k)
  }

  // Each id is either in the list or waiting to be reused.
  ghost predicate Shared(n: nat, order: seq<nat>, free: seq<nat>) {
    && Distinct(free)
    && (forall k :: 0 <= k < |free| ==> free[k] < n && free[k] !in order)
    && (forall i :: 0 <= i < n ==> i in order || i in free)
  }

  ghost predicate SortedUpTo<T>(pool: seq<Item<T>>, order: seq<nat>, now: nat) {
    && (forall k :: 0 <= k < |order| ==> order[k] < |pool| && pool[order[k]].tick <= now)
    && forall i, j :: 0 <= i < j < |order| ==> pool[order[i]].tick <= pool[order[j]].tick
  }

  // ---- the pointer surgery as pure steps ----

  function SetNext<T>(pool: seq<Item<T>>, i: Option<nat>, to: Option<nat>): (r: seq<Item<T>>)
    requires i.Some? ==> i.value < |pool|
    ensures |r| == |pool|
  {
    if i.Some? then pool[i.value := pool[i.value].(next := to)] else pool
  }

  function SetPrev<T>(pool: seq<Item<T>>, i: Option<nat>, to: Option<nat>): (r: seq<Item<T>>)
    requires i.Some? ==> i.value < |pool|
    ensures |r| == |pool|
  {
    if i.Some? then pool[i.value := pool[i.value].(prev := to)] else pool
  }

  // Objects and ticks are as before.
  ghost predicate SameItems<T>(a: seq<Item<T>>, b: seq<Item<T>>) {
    |a| == |b| && forall i :: 0 <= i < |a| ==> a[i].obj == b[i].obj && a[i].tick == b[i].tick
  }

  lemma DetachedLinks<T>(pool: seq<Item<T>>, order: seq<nat>, first: Option<nat>, last: Option<nat>, k: nat)
    requires Linked(pool, order, first, last) && k < |order|
    ensures LinkedAt(pool, order, k)
    ensures var item := pool[order[k]];
            && (item.prev.Some? ==> item.prev.value < |pool|) && (item.next.Some? ==> item.next.value < |pool|)
            && var p := SetPrev(SetNext(pool, item.prev, item.next), item.next, item.prev);
               Linked(p, Without(order, k), if k == 0 then item.next else first,
                      if k == |order| - 1 then item.prev else last)
  {
    assert LinkedAt(pool, order, k);
    var item := pool[order[k]];
    assert k > 0 ==> LinkedAt(pool, order, k - 1);
    assert k + 1 < |order| ==> LinkedAt(pool, order, k + 1);
    var p := SetPrev(SetNext(pool, item.prev, item.next), item.next, item.prev);
    var rest := Without(order, k);
    forall j | 0 <= j < |rest|
      ensures LinkedAt(p, rest, j)
    {
      var i := if j < k then j else j + 1;
      assert LinkedAt(pool, order, i) && rest[j] == order[i];
    }
  }

  lemma AttachedLinks<T>(pool: seq<Item<T>>, order: seq<nat>, first: Option<nat>, last: Option<nat>, id: nat)
    requires Linked(pool, order, first, last) && id < |pool| && id !in order
    requires order == [] ==> pool[id].next == None && pool[id].prev == None
    ensures last.Some? ==> last.value < |pool|
    ensures var p := if order == [] then pool
                     else SetNext(SetNext(SetPrev(pool, Some(id), last), last, Some(id)), Some(id), None);
            Linked(p, order + [id], if first.None? then Some(id) else first, Some(id))
  {
    var all := order + [id];
    if order != [] {
      assert LinkedAt(pool, order, |order| - 1);
      var p := SetNext(SetNext(SetPrev(pool, Some(id), last), last, Some(id)), Some(id), None);
      forall j | 0 <= j < |all|
        ensures LinkedAt(p, all, j)
      {
        if j < |order| {
          assert LinkedAt(pool, order, j);
        }
      }
    }
  }

  // Ids of the list with tick at most the given one come first while they are due.
  predicate Due(tick: nat, itemTick: nat) {
    Signed64(tick) - Signed64(itemTick) >= 0
  }

  // static_cast<s64> of a 64-bit tick.
  function Signed64(v: nat): int {
    var w := v % 0x1_0000_0000_0000_0000;
    if w < 0x8000_0000_0000_0000 then w else w - 0x1_0000_0000_0000_0000
  }

  function DueCount<T>(pool: seq<Item<T>>, order: seq<nat>, tick: nat): (n: nat)
    requires forall k :: 0 <= k < |order| ==> order[k] < |pool|
    ensures n <= |order|
    ensures forall k :: 0 <= k < n ==> Due(tick, pool[order[k]].tick)
    ensures n < |order| ==> !Due(tick, pool[order[n]].tick)
  {
    if order == [] || !Due(tick, pool[order[0]].tick) then 0 else 1 + DueCount(pool, order[1..], tick)
  }

  // The ids of a list that the visitor does not free.
  function Kept(order: seq<nat>, frees: nat -> bool): (r: seq<nat>)
    ensures forall i :: i in r <==> i in order && !frees(i)
  {
    if order == [] then []
    else Kept(order[..|order| - 1], frees) + (if frees(order[|order| - 1]) then [] else [order[|order| - 1]])
  }

  class LeastRecentlyUsedCache<T> {
    var pool: seq<Item<T>>
    var free: seq<nat>
    var first: Option<nat>
    var last: Option<nat>
    ghost var order: seq<nat>

    /** The list holds the live items, each once; every other item of the pool is queued for reuse. */
    ghost predicate Valid()
      reads this
    {
      Linked(pool, order, first, last) && Shared(|pool|, order, free)
    }

    /** The list is sorted by tick, and no tick in it is later than now. */
    ghost predicate InOrder(now: nat)
      reads this
    {
      SortedUpTo(pool, order, now)
    }

    constructor ()
      ensures Valid() && order == [] && pool == []
    {
      pool, free, first, last, order := [], [], None, None, [];
    }

    method Attach(id: nat)
      requires Linked(pool, order, first, last) && id < |pool| && id !in order
      requires order == [] ==> pool[id].next == None && pool[id].prev == None
      modifies this`pool, this`first, this`last, this`order
      ensures order == old(order) + [id]
      ensures Linked(pool, order, first, last) && SameItems(old(pool), pool)
    {
      AttachedLinks(pool, order, first, last, id);
      if first.None? {
        first := Some(id);
      }
      if last.None? {
        last := Some(id);
      } else {
        pool := SetPrev(pool, Some(id), last);
        pool := SetNext(pool, last, Some(id));
        pool := SetNext(pool, Some(id), None);
        last := Some(id);
      }
      order := order + [id];
    }

    method Detach(id: nat, ghost k: nat)
      requires Linked(pool, order, first, last) && k < |order| && order[k] == id
      modifies this`pool, this`first, this`last, this`order
      ensures order == Without(old(order), k)
      ensures Linked(pool, order, first, last) && SameItems(old(pool), pool)
      ensures id < |pool| && id !in order
    {
      DetachedLinks(pool, order, first, last, k);
      ghost var rest := Without(order, k);
      NotInRest(order, k);
      var item := pool[id];
      pool := SetNext(pool, item.prev, item.next);
      pool := SetPrev(pool, item.next, item.prev);
      ghost var p := pool;
      if first == Some(id) {
        first := item.next;
        if first.Some? {
          pool := SetPrev(pool, first, None);
        }
      }
      if last == Some(id) {
        last := item.prev;
        if last.Some? {
          pool := SetNext(pool, last, None);
        }
      }
      order := rest;
      EndsAlready(p, rest, first, last);
    }

    // Build: the front of the queue of freed ids, or a new item at the end of the pool.
    method Build(obj: T) returns (id: nat)
      requires Valid()
      modifies this`pool, this`free
      ensures id == (if old(free) == [] then |old(pool)| else old(free)[0])
      ensures free == (if old(free) == [] then [] else old(free)[1..])
      ensures |old(pool)| <= |pool| <= |old(pool)| + 1 && id < |pool|
      ensures pool[id].next == None && pool[id].prev == None
      ensures forall i :: 0 <= i < |old(pool)| && i != id ==> pool[i] == old(pool)[i]
      ensures Linked(pool, order, first, last) && id !in order && Shared(|pool|, order + [id], free)
    {
      ghost var was := pool;
      LiveInPool(pool, order, first, last);
      if free == [] {
        id := |pool|;
        pool := pool + [Item(obj, 0, None, None)];
      } else {
        id := free[0];
        free := free[1..];
        pool := pool[id := pool[id].(next := None, prev := None)];
      }
      LinksElsewhere(was, pool, order, first, last);
    }

    /** Insert appends the item to the list under an id that was not live. */
    method Insert(obj: T, tick: nat) returns (id: nat)
      requires Valid()
      modifies this
      ensures Valid()
      ensures id !in old(order) && order == old(order) + [id]
      ensures id < |pool| && pool[id].obj == obj && pool[id].tick == tick
      ensures |old(pool)| <= |pool|
      ensures forall i :: 0 <= i < |old(pool)| && i != id ==>
                pool[i].obj == old(pool)[i].obj && pool[i].tick == old(pool)[i].tick
      ensures old(free) != [] ==> id == old(free)[0]
      ensures old(InOrder(tick)) ==> InOrder(tick)
    {
      hide SortedUpTo;
      ghost var list := order;
      ghost var was := pool;
      LiveInPool(pool, order, first, last);
      id := Build(obj);
      ghost var built := pool;
      pool := pool[id := pool[id].(obj := obj, tick := tick)];
      LinksElsewhere(built, pool, order, first, last);
      Attach(id);
      if SortedUpTo(was, list, tick) {
        SortedMore(was, pool, list, id, tick);
      }
    }

    /** Touch with a later tick moves the item to the end; otherwise nothing changes. */
    method Touch(id: nat, tick: nat, ghost k: nat)
      requires Valid() && k < |order| && order[k] == id
      modifies this
      ensures Valid() && |pool| == |old(pool)| && id < |pool| && free == old(free)
      ensures old(pool)[id].tick >= tick ==> order == old(order) && pool == old(pool)
      ensures old(pool)[id].tick < tick ==> order == Without(old(order), k) + [id] && pool[id].tick == tick
      ensures pool[id].obj == old(pool)[id].obj
      ensures forall i :: 0 <= i < |pool| && i != id ==>
                pool[i].obj == old(pool)[i].obj && pool[i].tick == old(pool)[i].tick
      ensures old(InOrder(tick)) ==> InOrder(tick)
    {
      ghost var was, list := pool, order;
      LiveInPool(pool, order, first, last);
      if pool[id].tick >= tick {
        return;
      }
      pool := pool[id := pool[id].(tick := tick)];
      TicksFree(was, pool, order, first, last);
      if Some(id) == last {
        LastAlone(order, k);
        if SortedUpTo(was, list, tick) {
          SortedRest(was, list, k, tick);
          NotInRest(list, k);
          SortedMore(was, pool, Without(list, k), id, tick);
        }
        return;
      }
      Detach(id, k);
      ghost var rest := order;
      RestNotEmpty(list, k);
      Attach(id);
      SharedMoved(|pool|, list, k, free);
      if SortedUpTo(was, list, tick) {
        SortedRest(was, list, k, tick);
        SortedMore(was, pool, rest, id, tick);
      }
    }

    /** Free unlinks the item and queues its id. */
    method Free(id: nat, ghost k: nat)
      requires Valid() && k < |order| && order[k] == id
      modifies this
      ensures Valid() && SameItems(old(pool), pool)
      ensures order == Without(old(order), k) && free == old(free) + [id]
      ensures forall now :: old(InOrder(now)) ==> InOrder(now)
    {
      ghost var list, was := order, pool;
      Detach(id, k);
      ghost var detached := pool;
      LiveInPool(pool, order, first, last);
      pool := pool[id := pool[id].(prev := None, next := None)];
      LinksElsewhere(detached, pool, order, first, last);
      NotInRest(list, k);
      free := free + [id];
      forall now | SortedUpTo(was, list, now)
        ensures SortedUpTo(pool, order, now)
      {
        SortedRest(was, list, k, now);
        SortedSame(was, pool, order, now);
      }
    }

    // One round of the loop: the next link is read, then the visitor runs and frees the item or not.
    method Visit(id: nat, frees: nat -> bool, ghost kept: seq<nat>, ghost rest: seq<nat>) returns (next: Option<nat>)
      requires Valid() && order == kept + rest && rest != [] && rest[0] == id
      modifies this
      ensures Valid() && SameItems(old(pool), pool)
      ensures next == At(rest, 1)
      ensures order == if frees(id) then kept + rest[1..] else kept + rest
    {
      hide Shared, Distinct, InOrder, SortedUpTo;
      ghost var j := |kept|;
      InList(pool, order, first, last, j);
      next := pool[id].next;
      if frees(id) {
        Free(id, j);
        assert Without(kept + rest, j) == kept + rest[1..];
      }
    }

    /** ForEachItemBelow with a visitor that frees some of the items it is called on. The next link is read before
        the visitor runs, and the visitor's result never ends the loop. */
    method ForEachItemBelow(tick: nat, frees: nat -> bool) returns (visited: seq<nat>)
      requires Valid()
      modifies this
      ensures Valid() && SameItems(old(pool), pool)
      ensures forall k :: 0 <= k < |old(order)| ==> old(order)[k] < |old(pool)|
      ensures var n := DueCount(old(pool), old(order), tick);
              visited == old(order)[..n] && order == Kept(visited, frees) + old(order)[n..]
    {
      hide SortedUpTo, InOrder, Kept, DueCount, Due, Linked, Shared, SameItems;
      ghost var was, list, kept := pool, order, [];
      LiveInPool(pool, order, first, last);
      KeptNone(frees);
      SameTrans(pool, pool, pool);
      FirstIs(pool, order, first, last);
      visited := [];
      var cursor := first;
      ghost var rest := order;
      while cursor.Some?
        invariant Valid() && SameItems(was, pool)
        invariant list == visited + rest && order == kept + rest && kept == Kept(visited, frees)
        invariant cursor == At(rest, 0)
        invariant AllDue(was, visited, tick)
        decreases |rest|
      {
        var id := cursor.value;
        RestLives(pool, order, first, last, kept, rest);
        SameTick(was, pool, id);
        if !Due(tick, pool[id].tick) {
          assert (visited + rest)[|visited|] == id;
          DueCountIs(was, visited, rest, tick);
          return;
        }
        ghost var before := pool;
        var next := Visit(id, frees, kept, rest);
        SameTrans(was, before, pool);
        KeptMore(visited, id, frees);
        OneMore(visited, kept, rest);
        AllDueMore(was, visited, id, tick);
        visited := visited + [id];
        if !frees(id) {
          kept := kept + [id];
        }
        rest := rest[1..];
        cursor := next;
      }
      DueCountIs(was, visited, rest, tick);
    }
  }

  predicate AllDue<T>(pool: seq<Item<T>>, order: seq<nat>, tick: nat) {
    forall k :: 0 <= k < |order| ==> order[k] < |pool| && Due(tick, pool[order[k]].tick)
  }

  lemma AllDueMore<T>(pool: seq<Item<T>>, order: seq<nat>, id: nat, tick: nat)
    requires AllDue(pool, order, tick) && id < |pool| && Due(tick, pool[id].tick)
    ensures AllDue(pool, order + [id], tick)
  {
    hide Due;
  }

  lemma OneMore(visited: seq<nat>, kept: seq<nat>, rest: seq<nat>)
    requires rest != []
    ensures visited + rest == (visited + [rest[0]]) + rest[1..]
    ensures kept + rest == (kept + [rest[0]]) + rest[1..]
  {
  }

  lemma RestLives<T>(pool: seq<Item<T>>, order: seq<nat>, first: Option<nat>, last: Option<nat>,
                     kept: seq<nat>, rest: seq<nat>)
    requires Linked(pool, order, first, last) && order == kept + rest && rest != []
    ensures rest[0] < |pool|
  {
    assert order[|kept|] == rest[0];
    assert LinkedAt(pool, order, |kept|);
  }

  lemma SameTrans<T>(a: seq<Item<T>>, b: seq<Item<T>>, c: seq<Item<T>>)
    ensures SameItems(a, b) && SameItems(b, c) ==> SameItems(a, c)
    ensures SameItems(a, a)
  {
  }

  lemma SameTick<T>(a: seq<Item<T>>, b: seq<Item<T>>, id: nat)
    requires SameItems(a, b) && id < |b|
    ensures id < |a| && a[id].tick == b[id].tick
  {
  }

  lemma FirstIs<T>(pool: seq<Item<T>>, order: seq<nat>, first: Option<nat>, last: Option<nat>)
    requires Linked(pool, order, first, last)
    ensures first == At(order, 0)
  {
  }

  lemma LiveInPool<T>(pool: seq<Item<T>>, order: seq<nat>, first: Option<nat>, last: Option<nat>)
    requires Linked(pool, order, first, last)
    ensures forall k :: 0 <= k < |order| ==> order[k] < |pool|
  {
    forall k | 0 <= k < |order|
      ensures order[k] < |pool|
    {
      assert LinkedAt(pool, order, k);
    }
  }

  lemma NotInRest(order: seq<nat>, k: nat)
    requires Distinct(order) && k < |order|
    ensures order[k] !in Without(order, k)
    ensures forall i :: i in order ==> i == order[k] || i in Without(order, k)
    ensures forall i :: i in Without(order, k) ==> i in order
  {
    var rest := Without(order, k);
    forall j | 0 <= j < |rest|
      ensures rest[j] == order[if j < k then j else j + 1]
    {
    }
    forall i | i in order && i != order[k]
      ensures i in Without(order, k)
    {
      var j :| 0 <= j < |order| && order[j] == i;
      assert Without(order, k)[if j < k then j else j - 1] == i;
    }
  }

  // The ends of a list already end it: setting their outer links to null changes nothing.
  lemma EndsAlready<T>(p: seq<Item<T>>, order: seq<nat>, first: Option<nat>, last: Option<nat>)
    requires Linked(p, order, first, last)
    ensures first.Some? ==> first.value < |p| && SetPrev(p, first, None) == p
    ensures last.Some? ==> last.value < |p| && SetNext(p, last, None) == p
  {
    if order != [] {
      assert LinkedAt(p, order, 0) && LinkedAt(p, order, |order| - 1);
    }
  }

  // Items that are not in the list may change, and so may objects and ticks.
  lemma LinksElsewhere<T>(was: seq<Item<T>>, pool: seq<Item<T>>, order: seq<nat>, first: Option<nat>, last: Option<nat>)
    requires Linked(was, order, first, last) && |was| <= |pool|
    requires forall i :: 0 <= i < |was| && i in order ==> pool[i].next == was[i].next && pool[i].prev == was[i].prev
    ensures Linked(pool, order, first, last)
  {
    forall k | 0 <= k < |order|
      ensures LinkedAt(pool, order, k)
    {
      assert LinkedAt(was, order, k);
    }
  }

  lemma TicksFree<T>(was: seq<Item<T>>, pool: seq<Item<T>>, order: seq<nat>, first: Option<nat>, last: Option<nat>)
    requires Linked(was, order, first, last) && |was| == |pool|
    requires forall i :: 0 <= i < |was| ==> pool[i].next == was[i].next && pool[i].prev == was[i].prev
    ensures Linked(pool, order, first, last)
  {
    LinksElsewhere(was, pool, order, first, last);
  }

  lemma LastAlone(order: seq<nat>, k: nat)
    requires Distinct(order) && k < |order| && At(order, |order| - 1) == Some(order[k])
    ensures Without(order, k) + [order[k]] == order
  {
  }

  lemma RestNotEmpty(order: seq<nat>, k: nat)
    requires k < |order| && At(order, |order| - 1) != Some(order[k])
    ensures Without(order, k) != []
  {
  }

  lemma SharedMoved(n: nat, order: seq<nat>, k: nat, free: seq<nat>)
    requires Shared(n, order, free) && Distinct(order) && k < |order|
    ensures Shared(n, Without(order, k) + [order[k]], free)
  {
    NotInRest(order, k);
  }

  lemma KeptNone(frees: nat -> bool)
    ensures Kept([], frees) == []
  {
  }

  lemma KeptMore(visited: seq<nat>, id: nat, frees: nat -> bool)
    ensures Kept(visited + [id], frees) == if frees(id) then Kept(visited, frees) else Kept(visited, frees) + [id]
  {
    assert (visited + [id])[..|visited|] == visited;
  }

  lemma InList<T>(pool: seq<Item<T>>, order: seq<nat>, first: Option<nat>, last: Option<nat>, j: nat)
    requires Linked(pool, order, first, last) && j < |order|
    ensures LinkedAt(pool, order, j)
  {
  }

  lemma {:induction false} DueCountIs<T>(pool: seq<Item<T>>, due: seq<nat>, rest: seq<nat>, tick: nat)
    requires forall k :: 0 <= k < |due + rest| ==> (due + rest)[k] < |pool|
    requires AllDue(pool, due, tick)
    requires rest != [] ==> !Due(tick, pool[(due + rest)[|due|]].tick)
    ensures DueCount(pool, due + rest, tick) == |due| && (due + rest)[..|due|] == due && (due + rest)[|due|..] == rest
    decreases |due|
  {
    hide Due;
    if due != [] {
      assert (due + rest)[1..] == due[1..] + rest;
      DueCountIs(pool, due[1..], rest, tick);
    }
  }

  lemma SortedRest<T>(pool: seq<Item<T>>, order: seq<nat>, k: nat, now: nat)
    requires SortedUpTo(pool, order, now) && k < |order|
    ensures SortedUpTo(pool, Without(order, k), now)
  {
    var rest := Without(order, k);
    forall j | 0 <= j < |rest|
      ensures rest[j] == order[if j < k then j else j + 1]
    {
    }
  }

  lemma SortedSame<T>(was: seq<Item<T>>, pool: seq<Item<T>>, order: seq<nat>, now: nat)
    requires SortedUpTo(was, order, now) && SameItems(was, pool)
    ensures SortedUpTo(pool, order, now)
  {
  }

  lemma SortedMore<T>(was: seq<Item<T>>, pool: seq<Item<T>>, order: seq<nat>, id: nat, now: nat)
    requires SortedUpTo(was, order, now) && |was| <= |pool| && id < |pool| && id !in order && pool[id].tick == now
    requires forall i :: 0 <= i < |was| && i != id ==> pool[i].tick == was[i].tick
    ensures SortedUpTo(pool, order + [id], now)
  {
  }

  const TICK_LIMIT := 0x8000_0000_0000_0000

  /** In a sorted list whose ticks fit the signed comparison, the items visited are exactly those with tick at most
      the given one, and each is visited once. */
  lemma VisitsExactlyBelow<T>(pool: seq<Item<T>>, order: seq<nat>, tick: nat, now: nat)
    requires SortedUpTo(pool, order, now) && Distinct(order) && now < TICK_LIMIT && tick < TICK_LIMIT
    ensures var visited := order[..DueCount(pool, order, tick)];
            Distinct(visited) && forall id :: id in order ==> (id in visited <==> pool[id].tick <= tick)
  {
    var n := DueCount(pool, order, tick);
    forall k | 0 <= k < |order|
      ensures k < n <==> pool[order[k]].tick <= tick
    {
      DueIs(tick, pool[order[k]].tick);
      if n <= k {
        DueIs(tick, pool[order[n]].tick);
      }
    }
    hide Due;
    forall id | id in order
      ensures id in order[..n] <==> pool[id].tick <= tick
    {
      var k :| 0 <= k < |order| && order[k] == id;
      assert k < n ==> order[..n][k] == id;
      if id in order[..n] {
        var j :| 0 <= j < n && order[j] == id;
      }
    }
  }

  lemma DueIs(tick: nat, itemTick: nat)
    requires tick < TICK_LIMIT && itemTick < TICK_LIMIT
    ensures Due(tick, itemTick) <==> itemTick <= tick
  {
  }
}
