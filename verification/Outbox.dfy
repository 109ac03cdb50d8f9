/** The MQTT client's outbox: messages kept until they are acknowledged, sent or too old. */
module Outbox {
  datatype Pending = Queued | Transmitted | Acknowledged

  /** `handle` is the identity of the list node. */
  datatype Item = Item(handle: nat, id: nat, kind: nat, qos: nat, tick: int, len: nat, pending: Pending)

  function SumLen(items: seq<Item>): nat {
    if items == [] then 0 else SumLen(items[..|items| - 1]) + items[|items| - 1].len
  }

  /** Index of the first item that satisfies `p`, or -1. */
  function First(items: seq<Item>, p: Item -> bool): (i: int)
    ensures -1 <= i < |items|
    ensures i >= 0 ==> p(items[i]) && forall k :: 0 <= k < i ==> !p(items[k])
    ensures i < 0 ==> forall k :: 0 <= k < |items| ==> !p(items[k])
  {
    if items == [] then -1
    else
      var i := First(items[..|items| - 1], p);
      if i >= 0 then i else if p(items[|items| - 1]) then |items| - 1 else -1
  }

  function HasId(id: nat): Item -> bool {
    (x: Item) => x.id == id
  }

  function HasIdAndKind(id: nat, kind: nat): Item -> bool {
    (x: Item) => x.id == id && x.kind % 256 == kind
  }

  function IsPending(pending: Pending): Item -> bool {
    (x: Item) => x.pending == pending
  }

  function IsExpired(now: int, timeout: int): Item -> bool {
    (x: Item) => now - x.tick > timeout
  }

  function HasHandle(handle: nat): Item -> bool {
    (x: Item) => x.handle == handle
  }

  function RemoveAt(items: seq<Item>, i: int): seq<Item>
    requires i < |items|
  {
    if i < 0 then items else items[..i] + items[i + 1..]
  }

  function SetPendingAt(items: seq<Item>, i: int, pending: Pending): seq<Item>
    requires i < |items|
  {
    if i < 0 then items else items[i := items[i].(pending := pending)]
  }

  function SetTickAt(items: seq<Item>, i: int, tick: int): seq<Item>
    requires i < |items|
  {
    if i < 0 then items else items[i := items[i].(tick := tick)]
  }

  /** The items that are not expired, in order. */
  function KeepFresh(items: seq<Item>, now: int, timeout: int): seq<Item> {
    if items == [] then []
    else
      var rest := KeepFresh(items[..|items| - 1], now, timeout);
      if IsExpired(now, timeout)(items[|items| - 1]) then rest else rest + [items[|items| - 1]]
  }

  lemma {:induction false} SumLenConcat(a: seq<Item>, b: seq<Item>)
    ensures SumLen(a + b) == SumLen(a) + SumLen(b)
  {
    if b == [] {
      assert a + b == a;
    } else {
      SumLenConcat(a, b[..|b| - 1]);
      assert (a + b)[..|a + b| - 1] == a + b[..|b| - 1];
    }
  }

  lemma {:induction false} SumLenRemove(items: seq<Item>, i: nat)
    requires i < |items|
    ensures SumLen(RemoveAt(items, i)) == SumLen(items) - items[i].len
  {
    SumLenConcat(items[..i], items[i + 1..]);
    SumLenConcat(items[..i], [items[i]]);
    SumLenConcat(items[..i] + [items[i]], items[i + 1..]);
    assert items == items[..i] + [items[i]] + items[i + 1..];
    assert [items[i]][..0] == [];
  }

  lemma {:induction false} SumLenSame(a: seq<Item>, b: seq<Item>)
    requires |a| == |b| && forall k :: 0 <= k < |a| ==> a[k].len == b[k].len
    ensures SumLen(a) == SumLen(b)
  {
    if a != [] {
      SumLenSame(a[..|a| - 1], b[..|b| - 1]);
    }
  }

  lemma {:induction false} KeepFreshConcat(a: seq<Item>, b: seq<Item>, now: int, timeout: int)
    ensures KeepFresh(a + b, now, timeout) == KeepFresh(a, now, timeout) + KeepFresh(b, now, timeout)
  {
    if b == [] {
      assert a + b == a;
    } else {
      KeepFreshConcat(a, b[..|b| - 1], now, timeout);
      assert (a + b)[..|a + b| - 1] == a + b[..|b| - 1];
    }
  }

  /** Removing one expired item does not change what bulk expiry leaves. */
  lemma {:induction false} KeepFreshRemove(items: seq<Item>, i: nat, now: int, timeout: int)
    requires i < |items| && IsExpired(now, timeout)(items[i])
    ensures KeepFresh(RemoveAt(items, i), now, timeout) == KeepFresh(items, now, timeout)
  {
    var one := [items[i]];
    KeepFreshConcat(items[..i], items[i + 1..], now, timeout);
    KeepFreshConcat(items[..i] + one, items[i + 1..], now, timeout);
    KeepFreshConcat(items[..i], one, now, timeout);
    assert items == items[..i] + one + items[i + 1..];
    assert one[..0] == [] && KeepFresh(one, now, timeout) == [];
  }

  /** When nothing is expired, bulk expiry leaves everything. */
  lemma {:induction false} KeepFreshAll(items: seq<Item>, now: int, timeout: int)
    requires forall k :: 0 <= k < |items| ==> !IsExpired(now, timeout)(items[k])
    ensures KeepFresh(items, now, timeout) == items
  {
    if items != [] {
      KeepFreshAll(items[..|items| - 1], now, timeout);
      assert items == items[..|items| - 1] + [items[|items| - 1]];
    }
  }

  /** What expiry leaves are exactly the items that are not too old, in the order of the list. */
  lemma {:induction false} KeepFreshExact(items: seq<Item>, next: nat, now: int, timeout: int)
    requires Ordered(items, next)
    ensures Ordered(KeepFresh(items, now, timeout), next)
    ensures forall x :: x in KeepFresh(items, now, timeout) <==> x in items && now - x.tick <= timeout
  {
    if items != [] {
      var front, last := items[..|items| - 1], items[|items| - 1];
      KeepFreshExact(front, next, now, timeout);
      assert items == front + [last];
    }
  }

  /** The identifiers of the expired items, in order. */
  function ExpiredIds(items: seq<Item>, now: int, timeout: int): seq<int> {
    if items == [] then []
    else
      var rest := ExpiredIds(items[..|items| - 1], now, timeout);
      if IsExpired(now, timeout)(items[|items| - 1]) then rest + [items[|items| - 1].id] else rest
  }

  lemma {:induction false} ExpiredIdsConcat(a: seq<Item>, b: seq<Item>, now: int, timeout: int)
    ensures ExpiredIds(a + b, now, timeout) == ExpiredIds(a, now, timeout) + ExpiredIds(b, now, timeout)
  {
    if b == [] {
      assert a + b == a;
    } else {
      ExpiredIdsConcat(a, b[..|b| - 1], now, timeout);
      assert (a + b)[..|a + b| - 1] == a + b[..|b| - 1];
    }
  }

  lemma {:induction false} NoneExpired(items: seq<Item>, now: int, timeout: int)
    requires forall k :: 0 <= k < |items| ==> !IsExpired(now, timeout)(items[k])
    ensures ExpiredIds(items, now, timeout) == []
  {
    if items != [] {
      NoneExpired(items[..|items| - 1], now, timeout);
    }
  }

  /** The first expired item's identifier comes first. */
  lemma {:induction false} ExpiredIdsFirst(items: seq<Item>, i: nat, now: int, timeout: int)
    requires i < |items| && i == First(items, IsExpired(now, timeout))
    ensures ExpiredIds(items, now, timeout) == [items[i].id] + ExpiredIds(RemoveAt(items, i), now, timeout)
  {
    var a, one, b := items[..i], [items[i]], items[i + 1..];
    NoneExpired(a, now, timeout);
    ExpiredIdsConcat(a, b, now, timeout);
    ExpiredIdsConcat(a, one, now, timeout);
    ExpiredIdsConcat(a + one, b, now, timeout);
    assert items == a + one + b && one[..0] == [];
    assert ExpiredIds(one, now, timeout) == [items[i].id];
  }

  /** One deletion of the first expired item, with the identifiers reported so far. */
  lemma {:induction false} ReportFirst(items: seq<Item>, reported: seq<int>, now: int, timeout: int)
    requires First(items, IsExpired(now, timeout)) >= 0
    ensures (var i := First(items, IsExpired(now, timeout)); var rest := RemoveAt(items, i);
             && KeepFresh(rest, now, timeout) == KeepFresh(items, now, timeout)
             && (reported + [items[i].id]) + ExpiredIds(rest, now, timeout) == reported + ExpiredIds(items, now, timeout))
  {
    var i := First(items, IsExpired(now, timeout));
    KeepFreshRemove(items, i, now, timeout);
    ExpiredIdsFirst(items, i, now, timeout);
  }

  /** The handles of the items, in order. */
  function Handles(items: seq<Item>): seq<nat> {
    seq(|items|, k requires 0 <= k < |items| => items[k].handle)
  }

  /** Handles are given out in order and the list keeps that order. */
  ghost predicate Ordered(items: seq<Item>, next: nat) {
    && (forall i :: 0 <= i < |items| ==> items[i].handle < next)
    && (forall i, j :: 0 <= i < j < |items| ==> items[i].handle < items[j].handle)
  }

  /** What the lookups look for, and which item they find. */
  lemma {:induction false} LookupsMean(items: seq<Item>, id: nat, kind: nat, pending: Pending, now: int, timeout: int)
    ensures IsFirst(items, First(items, HasId(id)), (x: Item) => x.id == id)
    ensures IsFirst(items, First(items, HasIdAndKind(id, kind)), (x: Item) => x.id == id && x.kind % 256 == kind)
    ensures IsFirst(items, First(items, IsPending(pending)), (x: Item) => x.pending == pending)
    ensures IsFirst(items, First(items, IsExpired(now, timeout)), (x: Item) => now > x.tick + timeout)
    ensures IsFirst(items, First(items, HasHandle(id)), (x: Item) => x.handle == id)
  {
  }

  /** Item `i` satisfies `p` and none in front of it does, or none does at all. */
  ghost predicate IsFirst(items: seq<Item>, i: int, p: Item -> bool) {
    && -1 <= i < |items| && (i >= 0 ==> p(items[i]))
    && forall k :: 0 <= k < (if i >= 0 then i else |items|) ==> !p(items[k])
  }

  /** What the edits do to the list, at one place only. */
  lemma {:induction false} EditsMean(items: seq<Item>, i: nat, pending: Pending, tick: int)
    requires i < |items|
    ensures RemoveAt(items, i) == items[..i] + items[i + 1..]
    ensures SetPendingAt(items, i, pending) == items[..i] + [items[i].(pending := pending)] + items[i + 1..]
    ensures SetTickAt(items, i, tick) == items[..i] + [items[i].(tick := tick)] + items[i + 1..]
    ensures RemoveAt(items, -1) == items && SetPendingAt(items, -1, pending) == items && SetTickAt(items, -1, tick) == items
  {
  }

  class Box {
    var items: seq<Item>
    var size: nat
    var next: nat

    /** The running size is the sum of the items' lengths. */
    ghost predicate Valid()
      reads this
    {
      size == SumLen(items) && Ordered(items, next)
    }

    constructor ()
      ensures Valid() && items == [] && next == 0
    {
      items, size, next := [], 0, 0;
    }

    /** `outbox_enqueue`; `next` stands for the address of the new node. */
    method Enqueue(id: nat, kind: nat, qos: nat, len: nat, remainingLen: nat, tick: int) returns (item: Item)
      requires Valid()
      modifies this
      ensures Valid() && item == Item(old(next), id, kind, qos, tick, len + remainingLen, Queued)
      ensures items == old(items) + [item] && next == old(next) + 1
    {
      item := Item(next, id, kind, qos, tick, len + remainingLen, Queued);
      SumLenConcat(items, [item]);
      assert [item][..0] == [];
      items := items + [item];
      size := size + item.len;
      next := next + 1;
    }

    /** The walk along the list that all lookups share. */
    method Find(p: Item -> bool) returns (i: int)
      ensures i == First(items, p)
    {
      i := 0;
      while i < |items|
        invariant 0 <= i <= |items|
        invariant forall k :: 0 <= k < i ==> !p(items[k])
      {
        if p(items[i]) {
          return;
        }
        i := i + 1;
      }
      return -1;
    }

    /** Take the node at `i` out of the list. */
    method Unlink(i: nat)
      requires Valid() && i < |items|
      modifies this
      ensures Valid() && items == RemoveAt(old(items), i) && next == old(next)
    {
      SumLenRemove(items, i);
      size := size - items[i].len;
      items := items[..i] + items[i + 1..];
    }

    /** `outbox_get`. */
    method Get(id: nat) returns (i: int)
      ensures i == First(items, HasId(id))
    {
      i := Find(HasId(id));
    }

    /** `outbox_dequeue`: the first item in the state asked for; it stays in the list. */
    method Dequeue(pending: Pending) returns (i: int)
      ensures i == First(items, IsPending(pending))
    {
      i := Find(IsPending(pending));
    }

    /** `outbox_delete_item`. */
    method DeleteItem(handle: nat) returns (ok: bool)
      requires Valid()
      modifies this
      ensures Valid() && next == old(next) && items == RemoveAt(old(items), First(old(items), HasHandle(handle)))
      ensures ok <==> First(old(items), HasHandle(handle)) >= 0
    {
      var i := Find(HasHandle(handle));
      if i >= 0 {
        Unlink(i);
      }
      ok := i >= 0;
    }

    /** `outbox_delete`. */
    method Delete(id: nat, kind: nat) returns (ok: bool)
      requires Valid()
      modifies this
      ensures Valid() && next == old(next) && items == RemoveAt(old(items), First(old(items), HasIdAndKind(id, kind)))
      ensures ok <==> First(old(items), HasIdAndKind(id, kind)) >= 0
    {
      var i := Find(HasIdAndKind(id, kind));
      if i >= 0 {
        Unlink(i);
      }
      ok := i >= 0;
    }

    /** `outbox_set_pending`. */
    method SetPending(id: nat, pending: Pending) returns (ok: bool)
      requires Valid()
      modifies this
      ensures Valid() && next == old(next) && items == SetPendingAt(old(items), First(old(items), HasId(id)), pending)
      ensures ok <==> First(old(items), HasId(id)) >= 0
    {
      var i := Get(id);
      if i >= 0 {
        SumLenSame(items, SetPendingAt(items, i, pending));
        items := items[i := items[i].(pending := pending)];
      }
      ok := i >= 0;
    }

    /** `outbox_set_tick`. */
    method SetTick(id: nat, tick: int) returns (ok: bool)
      requires Valid()
      modifies this
      ensures Valid() && next == old(next) && items == SetTickAt(old(items), First(old(items), HasId(id)), tick)
      ensures ok <==> First(old(items), HasId(id)) >= 0
    {
      var i := Get(id);
      if i >= 0 {
        SumLenSame(items, SetTickAt(items, i, tick));
        items := items[i := items[i].(tick := tick)];
      }
      ok := i >= 0;
    }

    /** `outbox_delete_single_expired`: the identifier of the item removed, or -1. */
    method DeleteSingleExpired(now: int, timeout: int) returns (id: int)
      requires Valid()
      modifies this
      ensures Valid() && next == old(next) && items == RemoveAt(old(items), First(old(items), IsExpired(now, timeout)))
      ensures id == (var i := First(old(items), IsExpired(now, timeout)); if i >= 0 then old(items)[i].id else -1)
    {
      var i := Find(IsExpired(now, timeout));
      id := -1;
      if i >= 0 {
        id := items[i].id;
        Unlink(i);
      }
    }

    /** `outbox_delete_expired`: one walk over the list. */
    method DeleteExpired(now: int, timeout: int) returns (deleted: nat)
      requires Valid()
      modifies this
      ensures Valid() && next == old(next) && items == KeepFresh(old(items), now, timeout)
      ensures deleted == |old(items)| - |items|
    {
      deleted := 0;
      var i := 0;
      while i < |items|
        invariant Valid() && next == old(next) && 0 <= i <= |items| && deleted == |old(items)| - |items|
        invariant forall k :: 0 <= k < i ==> !IsExpired(now, timeout)(items[k])
        invariant KeepFresh(items, now, timeout) == KeepFresh(old(items), now, timeout)
        decreases |items| - i
      {
        if now - items[i].tick > timeout {
          KeepFreshRemove(items, i, now, timeout);
          Unlink(i);
          deleted := deleted + 1;
        } else {
          i := i + 1;
        }
      }
      KeepFreshAll(items, now, timeout);
    }

    /** `mqtt_delete_expired_messages` with reports: single expiry until nothing is left to
        delete gives the same list as bulk expiry, and reports the identifiers of the items
        deleted, in order. */
    method DeleteExpiredOneByOne(now: int, timeout: int) returns (reported: seq<int>)
      requires Valid()
      modifies this
      ensures Valid() && next == old(next) && items == KeepFresh(old(items), now, timeout)
      ensures reported == ExpiredIds(old(items), now, timeout)
    {
      reported := [];
      var more := true;
      while more
        invariant Valid() && next == old(next)
        invariant reported + ExpiredIds(items, now, timeout) == ExpiredIds(old(items), now, timeout)
        invariant KeepFresh(items, now, timeout) == KeepFresh(old(items), now, timeout)
        invariant !more ==> forall k :: 0 <= k < |items| ==> !IsExpired(now, timeout)(items[k])
        decreases more, |items|
      {
        if First(items, IsExpired(now, timeout)) >= 0 {
          ReportFirst(items, reported, now, timeout);
        }
        var id := DeleteSingleExpired(now, timeout);
        more := id >= 0;
        if more {
          reported := reported + [id];
        }
      }
      KeepFreshAll(items, now, timeout);
      NoneExpired(items, now, timeout);
    }

    /** `outbox_delete_all_items`: the items go first to last. */
    method DeleteAll() returns (ghost dropped: seq<nat>)
      requires Valid()
      modifies this
      ensures Valid() && items == [] && size == 0 && next == old(next)
      ensures dropped == Handles(old(items))
    {
      dropped := [];
      while items != []
        invariant Valid() && next == old(next)
        invariant dropped + Handles(items) == Handles(old(items))
        decreases |items|
      {
        ghost var before := items;
        Unlink(0);
        assert Handles(before) == [before[0].handle] + Handles(items);
        dropped := dropped + [before[0].handle];
      }
    }
  }
}
