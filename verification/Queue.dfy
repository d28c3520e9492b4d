// The doubly linked queue of source/kernel/queue.c.
module Queue {

  /** queue_item_t */
  class Item<T> {
    var prev: Item?<T>
    var next: Item?<T>
    const data: T

    constructor (data: T)
      ensures this.data == data && prev == null && next == null
    {
      this.data := data;
      prev, next := null, null;
    }
  }

  function InsertAt<X>(s: seq<X>, p: nat, x: X): (r: seq<X>)
    requires p <= |s|
    ensures |r| == |s| + 1
  {
    s[..p] + [x] + s[p..]
  }

  function RemoveAt<X>(s: seq<X>, p: nat): (r: seq<X>)
    requires p < |s|
    ensures |r| == |s| - 1
  {
    s[..p] + s[p + 1..]
  }

  function Reverse<X>(s: seq<X>): (r: seq<X>)
    ensures |r| == |s| && forall i :: 0 <= i < |s| ==> r[i] == s[|s| - 1 - i]
  {
    if |s| == 0 then [] else Reverse(s[1..]) + [s[0]]
  }

  function Data<T>(items: seq<Item<T>>): (d: seq<T>)
    ensures |d| == |items| && forall i :: 0 <= i < |items| ==> d[i] == items[i].data
  {
    seq(|items|, i requires 0 <= i < |items| => items[i].data)
  }

  lemma DataInsert<T>(items: seq<Item<T>>, p: nat, item: Item<T>)
    requires p <= |items|
    ensures Data(InsertAt(items, p, item)) == InsertAt(Data(items), p, item.data)
  {
  }

  lemma DataRemove<T>(items: seq<Item<T>>, p: nat)
    requires p < |items|
    ensures Data(RemoveAt(items, p)) == RemoveAt(Data(items), p)
  {
  }

  lemma InsertAtIndex<X>(s: seq<X>, p: nat, x: X)
    requires p <= |s|
    ensures forall i :: 0 <= i < p ==> InsertAt(s, p, x)[i] == s[i]
    ensures InsertAt(s, p, x)[p] == x
    ensures forall i :: p < i <= |s| ==> InsertAt(s, p, x)[i] == s[i - 1]
  {
  }

  lemma InsertEnds<X>(s: seq<X>, x: X)
    ensures InsertAt(s, 0, x) == [x] + s && InsertAt(s, |s|, x) == s + [x]
  {
  }

  lemma RemoveEnds<X>(s: seq<X>)
    requires |s| > 0
    ensures RemoveAt(s, 0) == s[1..] && RemoveAt(s, |s| - 1) == s[..|s| - 1]
  {
  }

  /** The argument of queue_seek, which may be missing. */
  datatype Callback<!T> = NoCallback | Callback(test: T -> bool) {
    predicate Accepts(data: T) {
      Callback? && test(data)
    }
  }

  class Queue<T> {
    var head: Item?<T>
    var tail: Item?<T>
    var count: int
    ghost var Items: seq<Item<T>>

    /** queue_init */
    constructor ()
      ensures Valid() && Contents() == []
    {
      head, tail, count := null, null, 0;
      Items := [];
    }

    /** The links follow the ghost sequence. */
    ghost predicate Linked()
      reads `head, `tail, `Items, Items
    {
      && (forall i, j :: 0 <= i < j < |Items| ==> Items[i] != Items[j])
      && head == (if |Items| == 0 then null else Items[0])
      && tail == (if |Items| == 0 then null else Items[|Items| - 1])
      && (forall i {:trigger Items[i].prev} :: 0 <= i < |Items| ==>
           Items[i].prev == if i == 0 then null else Items[i - 1])
      && (forall i {:trigger Items[i].next} :: 0 <= i < |Items| ==>
           Items[i].next == if i == |Items| - 1 then null else Items[i + 1])
    }

    ghost predicate Valid()
      reads this, Items
    {
      Linked() && count == |Items|
    }

    ghost function Contents(): seq<T>
      reads this
    {
      Data(Items)
    }

    method LinkFirst(item: Item<T>)
      requires Linked() && |Items| == 0
      modifies `head, `tail, `Items, item
      ensures Linked() && Items == [item]
    {
      head, tail := item, item;
      item.next, item.prev := null, null;
      Items := [item];
    }

    method LinkHead(item: Item<T>)
      requires Linked() && item !in Items && |Items| > 0
      modifies `head, `Items, Items, item
      ensures Linked() && Items == [item] + old(Items)
    {
      item.next, item.prev := head, null;
      head.prev := item;
      head := item;
      Items := [item] + Items;
    }

    method LinkTail(item: Item<T>)
      requires Linked() && item !in Items && |Items| > 0
      modifies `tail, `Items, Items, item
      ensures Linked() && Items == old(Items) + [item]
    {
      item.next, item.prev := null, tail;
      tail.next := item;
      tail := item;
      Items := Items + [item];
    }

    method LinkBetween(item: Item<T>, dst: Item<T>, ghost k: nat)
      requires Linked() && item !in Items && k < |Items| - 1 && dst == Items[k]
      modifies `Items, Items, item
      ensures Linked() && Items == InsertAt(old(Items), k + 1, item)
    {
      hide InsertAt;
      ghost var before, items := Items, InsertAt(Items, k + 1, item);
      InsertAtIndex(Items, k + 1, item);
      item.next, item.prev := dst.next, dst;
      dst.next.prev := item;
      dst.next := item;
      Items := items;
      assert forall i, j :: 0 <= i < j < |Items| ==> Items[i] != Items[j];
      forall i | 0 <= i < |Items|
        ensures Items[i].prev == if i == 0 then null else Items[i - 1]
        ensures Items[i].next == if i == |Items| - 1 then null else Items[i + 1]
      {
        assert i <= k ==> Items[i] == before[i];
        assert i > k + 1 ==> Items[i] == before[i - 1];
      }
    }

    lemma HeadNull()
      requires Linked()
      ensures head == null <==> |Items| == 0
    {
    }

    lemma TailUnique(k: nat)
      requires Linked() && k < |Items|
      ensures Items[k] == tail <==> k == |Items| - 1
      ensures Items[k] == head <==> k == 0
      ensures (|Items| > 0 <==> head != null) && (|Items| > 0 <==> tail != null)
    {
    }

    /** _queue_insert, after the item at place k, or at the head if there is none. */
    method Insert(data: T, dst: Item?<T>, ghost k: nat) returns (ghost p: nat, ghost added: Item<T>)
      requires Valid() && (dst != null ==> k < |Items| && dst == Items[k])
      modifies this, Items
      ensures Valid() && p == (if dst == null then 0 else k + 1)
      ensures p <= |old(Items)| && Contents() == InsertAt(old(Contents()), p, data)
      ensures fresh(added) && Items == InsertAt(old(Items), p, added)
    {
      hide Linked, Data, InsertAt;
      HeadNull();
      if dst != null {
        TailUnique(k);
      }
      var item := new Item(data);
      p, added := if dst == null then 0 else k + 1, item;
      InsertEnds(Items, item);
      DataInsert(Items, p, item);
      count := count + 1;
      if head == null {
        assert [item] + Items == [item];
        LinkFirst(item);
        return;
      }
      if dst == null {
        LinkHead(item);
      } else if dst == tail {
        LinkTail(item);
      } else {
        LinkBetween(item, dst, k);
      }
    }

    /** queue_append */
    method Append(data: T)
      requires Valid()
      modifies this, Items
      ensures Valid() && Contents() == old(Contents()) + [data]
    {
      ghost var p, added := Insert(data, tail, if |Items| == 0 then 0 else |Items| - 1);
    }

    /** queue_prepend */
    method Prepend(data: T)
      requires Valid()
      modifies this, Items
      ensures Valid() && Contents() == [data] + old(Contents())
    {
      ghost var p, added := Insert(data, null, 0);
    }

    method UnlinkHead(next: Item<T>)
      requires Linked() && |Items| > 1 && next == Items[1]
      modifies `head, `Items, Items
      ensures Linked() && Items == old(Items)[1..]
    {
      head := next;
      head.prev := null;
      Items := Items[1..];
    }

    method UnlinkTail(previous: Item<T>)
      requires Linked() && |Items| > 1 && previous == Items[|Items| - 2]
      modifies `tail, `Items, Items
      ensures Linked() && Items == old(Items)[..|old(Items)| - 1]
    {
      tail := previous;
      tail.next := null;
      Items := Items[..|Items| - 1];
    }

    method UnlinkBetween(previous: Item<T>, next: Item<T>, ghost k: nat)
      requires Linked() && 0 < k < |Items| - 1 && previous == Items[k - 1] && next == Items[k + 1]
      modifies `Items, Items
      ensures Linked() && Items == RemoveAt(old(Items), k)
    {
      previous.next := next;
      next.prev := previous;
      Items := RemoveAt(Items, k);
    }

    lemma LinksAt(k: nat)
      requires Linked() && k < |Items|
      ensures Items[k].prev == if k == 0 then null else Items[k - 1]
      ensures Items[k].next == if k == |Items| - 1 then null else Items[k + 1]
    {
    }

    /** The three cases of queue_remove, when there is more than one item. */
    method Unlink(item: Item<T>, ghost k: nat)
      requires Linked() && |Items| > 1 && k < |Items| && item == Items[k]
      modifies `head, `tail, `Items, Items
      ensures Linked() && Items == RemoveAt(old(Items), k)
    {
      LinksAt(k);
      TailUnique(k);
      RemoveEnds(Items);
      hide Linked, RemoveAt;
      if item == head {
        UnlinkHead(item.next);
      } else if item == tail {
        UnlinkTail(item.prev);
      } else {
        UnlinkBetween(item.prev, item.next, k);
      }
    }

    /** queue_remove, of the item at place k.  The last item that is left cannot be removed: the
        write to its successor goes through a null pointer. */
    method Remove(item: Item<T>, ghost k: nat) returns (ok: bool, fault: bool)
      requires Valid() && (|Items| > 0 ==> k < |Items| && item == Items[k])
      modifies this, Items
      ensures fault <==> |old(Items)| == 1
      ensures !fault ==> Valid() && (ok <==> |old(Items)| > 0)
      ensures !fault && !ok ==> Items == old(Items)
      ensures !fault && ok ==> Items == RemoveAt(old(Items), k) && Contents() == RemoveAt(old(Contents()), k)
    {
      if count == 0 {
        return false, false;
      }
      LinksAt(k);
      TailUnique(k);
      DataRemove(Items, k);
      hide Linked, Data, RemoveAt;
      if item == head && item.next == null {
        head := null;
        return false, true;
      }
      Unlink(item, k);
      count := count - 1;
      return true, false;
    }

    /** queue_seek: the first item that the callback accepts. */
    method Seek(callback: Callback<T>) returns (item: Item?<T>, ghost k: nat)
      requires Valid()
      ensures k <= |Items| && item == if k < |Items| then Items[k] else null
      ensures k < |Items| ==> callback.Accepts(Contents()[k])
      ensures callback.NoCallback? ==> item == null
      ensures forall j :: 0 <= j < k ==> !callback.Accepts(Contents()[j])
    {
      item := head;
      if callback.NoCallback? {
        return null, |Items|;
      }
      k := 0;
      while item != null
        invariant k <= |Items| && item == if k < |Items| then Items[k] else null
        invariant forall j :: 0 <= j < k ==> !callback.Accepts(Contents()[j])
        decreases |Items| - k
      {
        if callback.test(item.data) {
          return;
        }
        item := item.next;
        k := k + 1;
      }
    }

    /** queue_iterate */
    method Iterate(current: Item?<T>) returns (item: Item?<T>)
      requires Valid() && (current == null || current in Items)
      ensures current == null ==> item == if |Items| == 0 then null else Items[0]
      ensures forall k :: 0 <= k < |Items| && current == Items[k] ==>
                item == if k == |Items| - 1 then null else Items[k + 1]
    {
      if current == null {
        return head;
      }
      return current.next;
    }

    /** The items that n calls of queue_iterate pass, from an item on. */
    ghost function Forward(item: Item?<T>, n: nat): seq<Item<T>>
      requires Valid() && (item == null || item in Items)
      reads this, Items
      decreases n
    {
      if item == null || n == 0 then [] else [item] + Forward(item.next, n - 1)
    }

    /** The same along the other links. */
    ghost function Backward(item: Item?<T>, n: nat): seq<Item<T>>
      requires Valid() && (item == null || item in Items)
      reads this, Items
      decreases n
    {
      if item == null || n == 0 then [] else [item] + Backward(item.prev, n - 1)
    }

    lemma {:induction false} ForwardFrom(k: nat, n: nat)
      requires Valid() && k < |Items| && n >= |Items| - k
      ensures Forward(Items[k], n) == Items[k..]
      decreases n
    {
      if k < |Items| - 1 {
        ForwardFrom(k + 1, n - 1);
      }
    }

    lemma {:induction false} BackwardFrom(k: nat, n: nat)
      requires Valid() && k < |Items| && n > k
      ensures Backward(Items[k], n) == Reverse(Items[..k + 1])
      decreases n
    {
      var r := Reverse(Items[..k + 1]);
      if k > 0 {
        BackwardFrom(k - 1, n - 1);
        assert r == [Items[k]] + Reverse(Items[..k]);
      } else {
        assert r == [Items[0]];
      }
    }

    /** However long a walk goes on, it passes every item once: forward in the order of the queue,
        backward in the reverse order. */
    lemma Walks(n: nat)
      requires Valid() && n >= count
      ensures Forward(head, n) == Items && Backward(tail, n) == Reverse(Items)
      ensures Data(Forward(head, n)) == Contents() && Data(Backward(tail, n)) == Reverse(Contents())
    {
      if |Items| > 0 {
        ForwardFrom(0, n);
        BackwardFrom(|Items| - 1, n);
        assert Items[..|Items|] == Items;
      }
    }
  }

  /** Removing the item that was just inserted restores the queue. */
  lemma InsertRemove<X>(s: seq<X>, p: nat, x: X)
    requires p <= |s|
    ensures RemoveAt(InsertAt(s, p, x), p) == s
  {
    assert s[..p] + s[p..] == s;
  }
}
