/** The intrusive list of sessions of one slot (authn/sessions.go, SessionList). The links of a
    list determine a sequence; the operations are the operations on that sequence. Two fields are
    left alone by the invariant, because the code leaves them stale: the `prev` of the head, and
    the `tail` of an empty list. */
module SessionLists {
  import opened Sql
  import opened SessionPool

  class Session {
    const key: string
    var claims: Option<string>
    var lastUsedAt: int
    var db: Option<string>
    var dbConn: Option<nat>
    var inUse: bool
    var prev: Session?
    var next: Session?

    constructor (key: string)
      ensures this.key == key && claims == None && db == None && dbConn == None && !inUse && prev == null && next == null
      ensures lastUsedAt == 0
    {
      this.key := key;
      claims, db, dbConn, lastUsedAt, inUse, prev, next := None, None, None, 0, false, null, null;
    }
  }

  class SessionList {
    var head: Session?
    var tail: Session?
    ghost var nodes: seq<Session>

    ghost predicate Valid()
      reads this, nodes`next, nodes`prev
    {
      && (forall i, j :: 0 <= i < j < |nodes| ==> nodes[i] != nodes[j])
      && (nodes == [] <==> head == null)
      && (nodes != [] ==> head == nodes[0] && tail == nodes[|nodes| - 1] && nodes[|nodes| - 1].next == null)
      && (forall i :: 0 <= i < |nodes| - 1 ==> nodes[i].next == nodes[i + 1])
      && (forall i :: 0 < i < |nodes| ==> nodes[i].prev == nodes[i - 1])
    }

    /** The links of an inner node. */
    lemma Neighbours(i: nat)
      requires Valid() && i < |nodes|
      ensures i == 0 <==> nodes[i] == head
      ensures i == |nodes| - 1 <==> nodes[i] == tail
      ensures i > 0 ==> nodes[i].prev == nodes[i - 1] && nodes[i - 1].next == nodes[i]
      ensures i < |nodes| - 1 ==> nodes[i].next == nodes[i + 1] && nodes[i + 1].prev == nodes[i]
      ensures i == |nodes| - 1 ==> nodes[i].next == null
    {
      var j := i - 1;
      assert i > 0 ==> nodes[j].next == nodes[j + 1];
      assert i < |nodes| - 1 ==> nodes[i + 1].prev == nodes[i];
    }

    /** Head and tail tell whether there is anything to rotate. */
    lemma Ends()
      requires Valid()
      ensures nodes != [] ==> (head == tail <==> |nodes| == 1)
      ensures |nodes| <= 1 ==> nodes == if nodes == [] then [] else nodes[1..] + [nodes[0]]
    {
      if nodes != [] {
        Neighbours(0);
        Neighbours(|nodes| - 1);
      }
    }

    constructor ()
      ensures Valid() && nodes == []
    {
      head, tail, nodes := null, null, [];
    }

    method IsEmpty() returns (b: bool)
      requires Valid()
      ensures b <==> nodes == []
    {
      b := head == null;
    }

    method Append(s: Session)
      requires Valid() && s !in nodes && s.next == null
      modifies this, s`prev, nodes`next
      ensures Valid() && nodes == old(nodes) + [s] && s.next == null
    {
      if head != null {
        tail.next := s;
        s.prev := tail;
        tail := s;
      } else {
        head := s;
        tail := s;
      }
      nodes := nodes + [s];
    }

    /** The removed session keeps its own links; a traversal can go on from it. */
    method Remove(s: Session, ghost i: nat)
      requires Valid() && i < |nodes| && nodes[i] == s
      modifies this, nodes`next, nodes`prev
      ensures Valid() && nodes == Drop(old(nodes), i)
      ensures s.next == old(s.next)
    {
      Neighbours(i);
      if s == head {
        head := s.next;
      } else {
        s.prev.next := s.next;
      }
      if s == tail {
        tail := s.prev;
      } else {
        s.next.prev := s.prev;
      }
      nodes := Drop(nodes, i);
    }

    method FrontToBack()
      requires Valid()
      modifies this, nodes`next, nodes`prev
      ensures Valid() && nodes == if old(nodes) == [] then [] else old(nodes)[1..] + [old(nodes)[0]]
      ensures |nodes| > 1 ==> head.prev == old(head.next.prev)
    {
      Ends();
      if head == null || head == tail {
        return;
      }
      Neighbours(0);
      Neighbours(1);
      Neighbours(|nodes| - 1);
      var s := head;
      tail.next := s;
      head := s.next;
      s.next := null;
      s.prev := tail;
      tail := s;
      nodes := nodes[1..] + [nodes[0]];
    }

    method ToFront(s: Session, ghost i: nat)
      requires Valid() && i < |nodes| && nodes[i] == s
      modifies this, nodes`next, nodes`prev
      ensures Valid() && nodes == [s] + Drop(old(nodes), i)
    {
      Neighbours(i);
      if head == s {
        return;
      }
      Unlink(s, i);
      s.next := head;
      s.prev := null;
      head.prev := s;
      head := s;
      nodes := [s] + nodes;
    }

    /** The first half of toFront: the neighbours of a session that is not the head close up. */
    method Unlink(s: Session, ghost i: nat)
      requires Valid() && 0 < i < |nodes| && nodes[i] == s
      modifies this, nodes`next, nodes`prev
      ensures Valid() && nodes == Drop(old(nodes), i) && s !in nodes && nodes != []
    {
      Neighbours(i);
      if s == tail {
        tail := s.prev;
      } else {
        s.next.prev := s.prev;
      }
      s.prev.next := s.next;
      nodes := Drop(nodes, i);
    }
  }
}
