/** The doubly linked lists of requests and responses (src/rs_worker.c). */
module ResponseList {

  class Node {
    var prev: Node?
    var next: Node?

    constructor ()
      ensures prev == null && next == null
    {
      prev, next := null, null;
    }
  }

  /** The node that stands before position i, and the one that stands at it. */
  ghost function Before(s: seq<Node>, i: int): Node? {
    if 0 < i <= |s| then s[i - 1] else null
  }

  ghost function Here(s: seq<Node>, i: int): Node? {
    if 0 <= i < |s| then s[i] else null
  }

  ghost predicate Distinct(s: seq<Node>) {
    forall i, j :: 0 <= i < j < |s| ==> s[i] != s[j]
  }

  /** The links of the nodes of s are those of a list that holds exactly s. */
  ghost predicate Linked(s: seq<Node>)
    reads s
  {
    && (forall i {:trigger s[i].prev} :: 0 <= i < |s| ==> s[i].prev == Before(s, i))
    && (forall i {:trigger s[i].next} :: 0 <= i < |s| ==> s[i].next == Here(s, i + 1))
  }

  /** The links of s once the node at k has been bypassed. */
  ghost predicate Bypassed(s: seq<Node>, k: nat)
    reads s
  {
    && (forall i {:trigger s[i].prev} :: 0 <= i < |s| && i != k ==>
      s[i].prev == if i == k + 1 then Before(s, k) else Before(s, i))
    && (forall i {:trigger s[i].next} :: 0 <= i < |s| && i != k ==>
      s[i].next == if i == k - 1 then Here(s, k + 1) else Here(s, i + 1))
  }

  lemma BypassedLinked(s: seq<Node>, k: nat)
    requires k < |s| && Distinct(s) && Bypassed(s, k)
    ensures var r := s[..k] + s[k + 1..];
      Linked(r) && Distinct(r) && Here(r, 0) == Here(s, if k == 0 then 1 else 0)
      && Before(r, |r|) == Before(s, if k == |s| - 1 then k else |s|)
  {
    var r := s[..k] + s[k + 1..];
    assert forall i :: 0 <= i < |r| ==> r[i] == s[if i < k then i else i + 1];
  }

  /** The node at k and its two neighbours stand nowhere else. */
  lemma Neighbours(s: seq<Node>, k: nat)
    requires k < |s| && Distinct(s)
    ensures forall i :: 0 <= i < |s| ==> (s[i] == s[k] <==> i == k)
    ensures forall i :: 0 <= i < |s| ==> (s[i] == Before(s, k) <==> i == k - 1)
    ensures forall i :: 0 <= i < |s| ==> (s[i] == Here(s, k + 1) <==> i == k + 1)
  {
  }

  lemma SecondNode(s: seq<Node>)
    requires s != [] && Distinct(s)
    ensures Here(s, 1) == null <==> |s| == 1
    ensures Here(s, 1) != s[0] && Here(s, 0) == s[0] && Before(s, 0) == null
    ensures |s| > 1 ==> Here(s, 1) == s[1]
  {
  }

  lemma TwoNodes(s: seq<Node>, i: nat, j: nat)
    requires Distinct(s) && i < j < |s|
    ensures s[i] != s[j]
  {
  }

  lemma Links(s: seq<Node>)
    requires Linked(s)
    ensures forall i {:trigger s[i].prev} :: 0 <= i < |s| ==> s[i].prev == Before(s, i)
    ensures forall i {:trigger s[i].next} :: 0 <= i < |s| ==> s[i].next == Here(s, i + 1)
  {
  }

  lemma Ends(s: seq<Node>)
    ensures s == [] ==> Here(s, 0) == null == Before(s, |s|)
  {
  }

  lemma HeadBypassed(s: seq<Node>)
    requires forall i {:trigger s[i].prev} :: 1 <= i < |s| ==> s[i].prev == if i == 1 then null else Before(s, i)
    requires forall i {:trigger s[i].next} :: 1 <= i < |s| ==> s[i].next == Here(s, i + 1)
    ensures Bypassed(s, 0)
  {
  }

  lemma AppendedLinked(s: seq<Node>, rsp: Node)
    requires Distinct(s) && rsp !in s
    requires forall i {:trigger s[i].prev} :: 0 <= i < |s| ==> s[i].prev == Before(s, i)
    requires forall i {:trigger s[i].next} :: 0 <= i < |s| ==>
      s[i].next == if i == |s| - 1 then rsp else Here(s, i + 1)
    requires rsp.prev == Before(s, |s|) && rsp.next == null
    ensures Linked(s + [rsp]) && Distinct(s + [rsp])
  {
    var r := s + [rsp];
    assert forall i :: 0 <= i < |s| ==> r[i] == s[i];
  }

  class List {
    var head: Node?
    var tail: Node?
    ghost var items: seq<Node>

    ghost predicate Valid()
      reads this, items
    {
      Distinct(items) && Linked(items) && head == Here(items, 0) && tail == Before(items, |items|)
    }

    constructor ()
      ensures Valid() && items == []
    {
      head, tail, items := null, null, [];
    }

    method Enqueue(rsp: Node)
      requires Valid() && rsp !in items && rsp.prev == null && rsp.next == null
      modifies this, items, rsp
      ensures Valid() && items == old(items) + [rsp]
    {
      ghost var s := items;
      if tail == null {
        assert head == null;
        head := rsp;
        tail := rsp;
      } else {
        tail.next := rsp;
        rsp.prev := tail;
        tail := rsp;
      }
      AppendedLinked(s, rsp);
      hide Linked, Distinct;
      items := items + [rsp];
    }

    /** Takes off the oldest node, if there is one. */
    method Dequeue() returns (oldest: Node?)
      requires Valid()
      modifies this, items
      ensures Valid() && oldest == old(head)
      ensures if old(items) == [] then oldest == null && items == []
              else oldest == old(items)[0] && items == old(items)[1..] && oldest.prev == null && oldest.next == null
    {
      if head == null {
        return null;
      }
      oldest := TakeHead();
    }

    method TakeHead() returns (oldest: Node)
      requires Valid() && items != []
      modifies this, items
      ensures Valid() && oldest == old(items)[0] && items == old(items)[1..]
      ensures oldest.prev == null && oldest.next == null
    {
      hide Distinct, Bypassed, Linked, Before, Here;
      ghost var s, r := items, items[1..];
      SecondNode(s);
      Links(s);
      oldest := head;
      head := oldest.next;
      oldest.next := null;
      if head != null {
        head.prev := null;
      } else {
        tail := null;
      }
      forall i {:trigger s[i].prev} | 1 <= i < |s| ensures s[i].prev == if i == 1 then null else Before(s, i) {
        TwoNodes(s, 0, i);
        if i > 1 {
          TwoNodes(s, 1, i);
        }
      }
      forall i {:trigger s[i].next} | 1 <= i < |s| ensures s[i].next == Here(s, i + 1) {
        TwoNodes(s, 0, i);
      }
      HeadBypassed(s);
      BypassedLinked(s, 0);
      assert s[..0] + s[1..] == r;
      Ends(r);
      items := r;
    }

    /** Takes a node out of the list, wherever it stands. */
    method Remove(rsp: Node, ghost k: nat)
      requires Valid() && k < |items| && items[k] == rsp
      modifies this, items
      ensures Valid() && items == old(items)[..k] + old(items)[k + 1..]
      ensures rsp.prev == null && rsp.next == null
    {
      ghost var s := items;
      Neighbours(s, k);
      hide Distinct;
      assert rsp.prev == Before(s, k) && rsp.next == Here(s, k + 1);
      assert head != null && tail != null;
      if rsp.prev != null {
        rsp.prev.next := rsp.next;
      } else {
        assert head == rsp;
        head := rsp.next;
      }
      if rsp.next != null {
        rsp.next.prev := rsp.prev;
      } else {
        assert tail == rsp;
        tail := rsp.prev;
      }
      rsp.next := null;
      rsp.prev := null;
      assert Bypassed(s, k);
      BypassedLinked(s, k);
      hide Linked, Distinct, Bypassed;
      items := s[..k] + s[k + 1..];
    }
  }
}
