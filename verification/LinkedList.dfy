/** The doubly linked list of gps/utils/linked_list.c, proved to behave as a sequence. */
module LinkedListClass {
  import opened Wrappers
  import opened Selections

  /** A negative number each, but for SUCCESS. */
  datatype Err = SUCCESS | INVALID_PARAMETER | INVALID_HANDLE | UNAVAILABLE_RESOURCE

  /** eLINKED_LIST_INVALID_HANDLE, as linked_list_empty returns it. */
  const EMPTY_INVALID_HANDLE := -3

  /** What an element carries: its data pointer and whether it has a dealloc function. */
  datatype Item<T> = Item(data: T, dealloc: bool)

  class ListElement<T> {
    var next: ListElement?<T>
    var prev: ListElement?<T>
    const item: Item<T>

    constructor (item: Item<T>)
      ensures next == null && prev == null && this.item == item
    {
      next, prev := null, null;
      this.item := item;
    }
  }

  // ----- The operations on the sequence -----

  /** The index of the first item whose data satisfies `equal`, or the length. */
  function FirstMatch<T>(items: seq<Item<T>>, equal: T -> bool): (i: nat)
    ensures i <= |items|
    ensures i < |items| ==> equal(items[i].data)
    ensures forall k :: 0 <= k < i ==> !equal(items[k].data)
  {
    if items == [] || equal(items[0].data) then 0 else 1 + FirstMatch(items[1..], equal)
  }

  function Without<A>(s: seq<A>, i: nat): seq<A>
    requires i < |s|
  {
    s[..i] + s[i + 1..]
  }

  /** The data handed to dealloc when all the items are flushed, in order. */
  function Deallocated<T>(items: seq<Item<T>>): seq<T> {
    if items == [] then []
    else (if items[0].dealloc then [items[0].data] else []) + Deallocated(items[1..])
  }

  lemma {:induction false} DeallocatedLast<T>(items: seq<Item<T>>, x: Item<T>)
    ensures Deallocated(items + [x]) == Deallocated(items) + if x.dealloc then [x.data] else []
  {
    if items == [] {
      assert items + [x] == [x] && [x][1..] == [];
    } else {
      DeallocatedLast(items[1..], x);
      assert (items + [x])[1..] == items[1..] + [x];
    }
  }

  /** A flush deallocates the data of exactly the items that have a dealloc function, once each and in the
      order of the list. */
  lemma {:induction false} DeallocatedOnceEach<T>(items: seq<Item<T>>)
    ensures Selects(items, Deallocated(items), (x: Item<T>) => x.dealloc, (x: Item<T>) => x.data)
  {
    hide Selects, Deallocated;
    if items == [] {
      NothingDeallocated<T>();
      SelectsNothing((x: Item<T>) => x.dealloc, (x: Item<T>) => x.data);
    } else {
      var front, last := items[..|items| - 1], items[|items| - 1];
      DeallocatedOnceEach(front);
      DeallocatedLast(front, last);
      SelectsLast(front, Deallocated(front), (x: Item<T>) => x.dealloc, (x: Item<T>) => x.data, last);
      assert items == front + [last];
    }
  }

  lemma NothingDeallocated<T>()
    ensures Deallocated<T>([]) == []
  {
  }

  // ----- The pointers -----

  class LinkedList<T> {
    var head: ListElement?<T>
    var tail: ListElement?<T>
    ghost var nodes: seq<ListElement<T>>
    /** Every data pointer that was passed to a dealloc function, in order. */
    var deallocated: seq<T>

    ghost predicate Valid()
      reads this, nodes
    {
      && (forall i, j :: 0 <= i < j < |nodes| ==> nodes[i] != nodes[j])
      && (head == if nodes == [] then null else nodes[0])
      && (tail == if nodes == [] then null else nodes[|nodes| - 1])
      && (forall i {:trigger nodes[i].next} :: 0 <= i < |nodes| ==>
            nodes[i].next == if i + 1 < |nodes| then nodes[i + 1] else null)
      && (forall i {:trigger nodes[i].prev} :: 0 <= i < |nodes| ==>
            nodes[i].prev == if i > 0 then nodes[i - 1] else null)
    }

    /** The list as a sequence, head first. */
    ghost function Items(): (s: seq<Item<T>>)
      reads this
      ensures |s| == |nodes|
    {
      seq(|nodes|, (i: int) requires 0 <= i < |nodes| reads this => nodes[i].item)
    }

    static ghost function Footprint(list: LinkedList?<T>): set<object>
      reads list
    {
      if list == null then {} else {list} + set n: ListElement<T> | n in list.nodes :: n as object
    }

    constructor ()
      ensures Valid() && Items() == [] && deallocated == []
    {
      head, tail, nodes, deallocated := null, null, [], [];
    }

    /** linked_list_add: at the head. */
    static method Add(list: LinkedList?<T>, data: Option<T>, dealloc: bool) returns (err: Err)
      requires list != null ==> list.Valid()
      modifies Footprint(list)
      ensures err == if list == null then INVALID_HANDLE
                     else if data.None? then INVALID_PARAMETER else SUCCESS
      ensures list != null ==> list.Valid() && list.deallocated == old(list.deallocated)
      ensures fresh(Footprint(list) - old(Footprint(list)))
      ensures list != null ==>
                list.Items() == (if err.SUCCESS? then [Item(data.value, dealloc)] else []) + old(list.Items())
    {
      if list == null {
        return INVALID_HANDLE;
      }
      if data.None? {
        return INVALID_PARAMETER;
      }
      var elem := new ListElement<T>(Item(data.value, dealloc));
      var tmp := list.head;
      list.head := elem;
      elem.next := tmp;
      if tmp != null {
        assert old(list.nodes)[0] in old(list.nodes);
        tmp.prev := elem;
      } else {
        list.tail := elem;
      }
      list.nodes := [elem] + list.nodes;
      return SUCCESS;
    }

    /** linked_list_remove: from the tail. `wantData` is data_obj != NULL. */
    static method Remove(list: LinkedList?<T>, wantData: bool) returns (err: Err, data: Option<T>)
      requires list != null ==> list.Valid()
      modifies Footprint(list)
      ensures err == if list == null then INVALID_HANDLE
                     else if !wantData then INVALID_PARAMETER
                     else if old(list.Items()) == [] then UNAVAILABLE_RESOURCE else SUCCESS
      ensures list != null ==> list.Valid() && list.deallocated == old(list.deallocated)
      ensures list != null ==> forall n :: n in list.nodes ==> n in old(list.nodes)
      ensures !err.SUCCESS? ==> data == None && (list != null ==> list.Items() == old(list.Items()))
      ensures err.SUCCESS? ==>
                var was := old(list.Items());
                was != [] && list.Items() == was[..|was| - 1] && data == Some(was[|was| - 1].data)
    {
      data := None;
      if list == null {
        return INVALID_HANDLE, None;
      }
      if !wantData {
        return INVALID_PARAMETER, None;
      }
      if list.tail == null {
        return UNAVAILABLE_RESOURCE, None;
      }
      var tmp := list.tail;
      list.tail := tmp.prev;
      if list.tail != null {
        assert list.nodes[|list.nodes| - 2] in list.nodes;
        list.tail.next := null;
      } else {
        list.head := list.tail;
      }
      list.nodes := list.nodes[..|list.nodes| - 1];
      return SUCCESS, Some(tmp.item.data);
    }

    /** linked_list_empty: an error number, which a caller takes for true, for a missing list. */
    static method Empty(list: LinkedList?<T>) returns (r: int)
      requires list != null ==> list.Valid()
      ensures r == if list == null then EMPTY_INVALID_HANDLE else if list.Items() == [] then 1 else 0
    {
      if list == null {
        r := EMPTY_INVALID_HANDLE;
      } else {
        r := if list.head == null then 1 else 0;
      }
    }

    /** linked_list_flush: deallocates each element once, from the head. */
    static method Flush(list: LinkedList?<T>) returns (err: Err)
      requires list != null ==> list.Valid()
      modifies Footprint(list)
      ensures err == if list == null then INVALID_HANDLE else SUCCESS
      ensures list != null ==> list.Valid() && list.Items() == []
      ensures list != null ==> list.deallocated == old(list.deallocated) + Deallocated(old(list.Items()))
    {
      if list == null {
        return INVALID_HANDLE;
      }
      ghost var all, items := list.nodes, list.Items();
      ghost var i := 0;
      while list.head != null
        invariant i <= |all|
        invariant forall k :: 0 <= k < |all| ==> all[k].next == if k + 1 < |all| then all[k + 1] else null
        invariant list.head == if i < |all| then all[i] else null
        invariant list.deallocated + Deallocated(items[i..])
               == old(list.deallocated) + Deallocated(items)
        modifies list
        decreases |all| - i
      {
        var tmp := list.head.next;
        if list.head.item.dealloc {
          list.deallocated := list.deallocated + [list.head.item.data];
        }
        assert items[i..][1..] == items[i + 1..];
        list.head := tmp;
        i := i + 1;
      }
      list.tail := null;
      list.nodes := [];
      return SUCCESS;
    }

    /** linked_list_search.  `equal` may be NULL; `wantData` is data_p != NULL; `found` is what *data_p
        receives. */
    static method Search(list: LinkedList?<T>, equal: Option<T -> bool>, wantData: bool, rmIfFound: bool)
      returns (err: Err, found: Option<T>)
      requires list != null ==> list.Valid()
      modifies Footprint(list)
      ensures err == if list == null || equal.None? then INVALID_HANDLE
                     else if old(list.Items()) == [] then UNAVAILABLE_RESOURCE else SUCCESS
      ensures list == null || equal.None? ==> found == None
      ensures list != null && equal.None? ==> list.Items() == old(list.Items()) && list.deallocated == old(list.deallocated)
      ensures list != null ==> list.Valid() && forall n :: n in list.nodes ==> n in old(list.nodes)
      ensures list != null && equal.Some? ==>
                var was := old(list.Items());
                var i := FirstMatch(was, equal.value);
                if i == |was| then
                  found == None && list.Items() == was && list.deallocated == old(list.deallocated)
                else
                  && found == (if wantData then Some(was[i].data) else None)
                  && list.Items() == (if rmIfFound then Without(was, i) else was)
                  && list.deallocated == old(list.deallocated)
                       + if rmIfFound && !wantData && was[i].dealloc then [was[i].data] else []
    {
      found := None;
      if list == null || equal.None? {
        return INVALID_HANDLE, None;
      }
      if list.tail == null {
        return UNAVAILABLE_RESOURCE, None;
      }
      ghost var items := list.Items();
      var tmp := list.head;
      ghost var i := 0;
      while tmp != null && !equal.value(tmp.item.data)
        invariant i <= |items|
        invariant tmp == if i < |items| then list.nodes[i] else null
        invariant forall k :: 0 <= k < i ==> !equal.value(items[k].data)
        decreases |items| - i
      {
        assert items[i] == tmp.item;
        tmp := tmp.next;
        i := i + 1;
      }
      assert i < |items| ==> items[i] == tmp.item;
      assert i == FirstMatch(items, equal.value);
      if tmp != null {
        if wantData {
          found := Some(tmp.item.data);
        }
        if rmIfFound {
          list.Unlink(tmp, i);
          if !wantData && tmp.item.dealloc {
            list.deallocated := list.deallocated + [tmp.item.data];
          }
        }
      }
      return SUCCESS, found;
    }

    /** Lines 298-310: takes an element out of the chain. */
    method Unlink(tmp: ListElement<T>, ghost i: nat)
      requires Valid() && i < |nodes| && nodes[i] == tmp
      modifies Footprint(this)
      ensures Valid() && nodes == Without(old(nodes), i) && deallocated == old(deallocated)
      ensures Items() == Without(old(Items()), i)
    {
      assert nodes[i] in nodes && (i > 0 ==> nodes[i - 1] in nodes);
      assert i + 1 < |nodes| ==> nodes[i + 1] in nodes;
      if tmp.prev == null {
        head := tmp.next;
      } else {
        tmp.prev.next := tmp.next;
      }
      if tmp.next == null {
        tail := tmp.prev;
      } else {
        tmp.next.prev := tmp.prev;
      }
      tmp.prev, tmp.next := null, null;
      nodes := nodes[..i] + nodes[i + 1..];
    }
  }
}
