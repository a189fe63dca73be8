/** The synchronized queue: its linked list, what it does under the lock. */
module SyncQueue {
  import opened Options

  class Element<T> {
    var next: Element?<T>
    const data: T

    constructor (data: T)
      ensures this.data == data && next == null
    {
      this.data := data;
      next := null;
    }
  }

  class Queue<T> {
    var head: Element?<T>
    var tail: Element?<T>
    ghost var elements: seq<Element<T>>

    /** The tail is null while there is no more than one element. */
    ghost predicate Valid()
      reads this, elements
    {
      && (forall i, j :: 0 <= i < j < |elements| ==> elements[i] != elements[j])
      && (forall i :: 0 <= i < |elements| - 1 ==> elements[i].next == elements[i + 1])
      && (elements != [] ==> elements[|elements| - 1].next == null)
      && head == (if elements == [] then null else elements[0])
      && tail == (if |elements| <= 1 then null else elements[|elements| - 1])
    }

    ghost function Contents(): seq<T>
      reads this, elements
    {
      seq(|elements|, i requires 0 <= i < |elements| reads this, elements => elements[i].data)
    }

    constructor ()
      ensures Valid() && Contents() == [] && elements == []
    {
      head, tail := null, null;
      elements := [];
    }

    /** squeue_push, between lock and unlock; notify: whether it signals the event. */
    method Push(item: T) returns (notify: bool)
      requires Valid()
      modifies this, elements
      ensures Valid() && fresh(set e | e in elements && e !in old(elements))
      ensures Contents() == old(Contents()) + [item]
      ensures notify == (old(Contents()) == [])
    {
      var el := new Element(item);
      assert !(head == null && tail != null);
      notify := false;
      if head == null {
        head := el;
        notify := true;
      } else if tail == null {
        tail := el;
        head.next := el;
      } else {
        tail.next := el;
        tail := el;
      }
      elements := elements + [el];
      assert Contents() == old(Contents()) + [item];
    }

    /** squeue_pop, between lock and unlock; None if it has to wait. */
    method Pop() returns (item: Option<T>)
      requires Valid()
      modifies this
      ensures Valid()
      ensures old(Contents()) == [] ==> item == None && Contents() == []
      ensures old(Contents()) != [] ==> item == Some(old(Contents())[0]) && Contents() == old(Contents())[1..]
    {
      var el := head;
      if el == null {
        return None;
      }
      head := el.next;
      if tail == head {
        tail := null;
      }
      elements := elements[1..];
      assert old(Contents()) != [];
      assert Contents() == old(Contents())[1..];
      return Some(el.data);
    }
  }
}
