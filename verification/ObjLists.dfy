/** The doubly linked list `ObjList` of AccessNode/Shared/ObjList.h, kept as linked heap nodes and
    proved to refine a sequence.  A position is a node reference or null; the ghost index `k` that
    accompanies it says where in the list that node sits. */
module ObjLists {
  import opened Basics

  class Elem<T> {
    var obj: T
    var next: Elem?<T>
    var prev: Elem?<T>

    constructor (v: T)
      ensures obj == v && next == null && prev == null
    {
      obj, next, prev := v, null, null;
    }
  }

  /** The sequence `s` with `x` put in at index `n`. */
  ghost function Splice<X>(s: seq<X>, n: nat, x: X): (r: seq<X>)
    requires n <= |s|
    ensures |r| == |s| + 1 && r[n] == x
    ensures forall i :: 0 <= i < n ==> r[i] == s[i]
    ensures forall i :: n < i < |r| ==> r[i] == s[i - 1]
    ensures forall y :: y in r ==> y in s || y == x
  {
    s[..n] + [x] + s[n..]
  }

  class ObjList<T> {
    var count: int
    var headNode: Elem?<T>
    var tailNode: Elem?<T>
    ghost var Nodes: seq<Elem<T>>
    ghost var Contents: seq<T>  // the sequence this list stands for

    /** The nodes are distinct, `next` and `prev` mirror each other along the list, the two ends are
        where the list says they are, and `count` is the length. */
    ghost predicate Valid()
      reads this, Nodes
    {
      && count == |Nodes| == |Contents|
      && (forall i {:trigger Nodes[i].obj} :: 0 <= i < |Nodes| ==> Nodes[i].obj == Contents[i])
      && (forall i, j :: 0 <= i < j < |Nodes| ==> Nodes[i] != Nodes[j])
      && headNode == (if Nodes == [] then null else Nodes[0])
      && tailNode == (if Nodes == [] then null else Nodes[|Nodes| - 1])
      && (forall i {:trigger Nodes[i].next} :: 0 <= i < |Nodes| ==>
            Nodes[i].next == if i + 1 < |Nodes| then Nodes[i + 1] else null)
      && (forall i {:trigger Nodes[i].prev} :: 0 <= i < |Nodes| ==>
            Nodes[i].prev == if 0 < i then Nodes[i - 1] else null)
    }

    /** `pos` is node number `k`; the null position is past the end. */
    ghost predicate At(pos: Elem?<T>, k: nat)
      reads this
    {
      if pos == null then k == |Nodes| else k < |Nodes| && Nodes[k] == pos
    }

    constructor ()
      ensures Valid() && Nodes == [] && Contents == []
    {
      headNode, tailNode, count := null, null, 0;
      Nodes, Contents := [], [];
    }

    method AddHead(v: T) returns (pos: Elem<T>)
      requires Valid()
      modifies this, Nodes
      ensures Valid() && fresh(pos) && Nodes == [pos] + old(Nodes)
      ensures Contents == [v] + old(Contents)
    {
      pos := new Elem(v);
      if count == 0 {
        tailNode := pos;
        headNode := pos;
        headNode.prev := null;
        tailNode.next := null;
      } else {
        pos.next := headNode;
        pos.prev := null;
        headNode.prev := pos;
        headNode := pos;
      }
      count := count + 1;
      Nodes, Contents := [pos] + Nodes, [v] + Contents;
    }

    method AddTail(v: T) returns (pos: Elem<T>)
      requires Valid()
      modifies this, Nodes
      ensures Valid() && fresh(pos) && Nodes == old(Nodes) + [pos]
      ensures Contents == old(Contents) + [v]
    {
      if count != 0 {
        pos := new Elem(v);
        pos.prev := tailNode;
        pos.next := null;
        tailNode.next := pos;
        tailNode := pos;
        count := count + 1;
        Nodes, Contents := Nodes + [pos], Contents + [v];
      } else {
        pos := AddHead(v);
        assert old(Nodes) == [];
      }
    }

    /** The four pointer updates that hang `added` between two neighbouring nodes. */
    method LinkBetween(pred: Elem<T>, added: Elem<T>, succ: Elem<T>, ghost k: nat)
      requires Valid() && added !in Nodes
      requires 0 < k < |Nodes| && Nodes[k - 1] == pred && Nodes[k] == succ
      modifies this, pred`next, succ`prev, added`next, added`prev
      ensures Valid() && Nodes == Splice(old(Nodes), k, added)
      ensures Contents == Splice(old(Contents), k, added.obj)
    {
      added.prev := pred;
      added.next := succ;
      pred.next := added;
      succ.prev := added;
      count := count + 1;
      Nodes, Contents := Splice(Nodes, k, added), Splice(Contents, k, added.obj);
    }

    /** Inserts behind `pos`; a null position or the last node means the end of the list. */
    method InsertAfter(pos: Elem?<T>, v: T, ghost k: nat) returns (added: Elem<T>)
      requires Valid() && At(pos, k)
      modifies this, Nodes
      ensures Valid() && fresh(added)
      ensures var n := if pos == null then k else k + 1;
              Nodes == Splice(old(Nodes), n, added) && Contents == Splice(old(Contents), n, v)
    {
      if pos == null || pos.next == null {
        added := AddTail(v);
      } else {
        added := new Elem(v);
        LinkBetween(pos, added, pos.next, k + 1);
      }
    }

    /** Inserts in front of `pos`; a null position or the first node means the start of the list. */
    method InsertBefore(pos: Elem?<T>, v: T, ghost k: nat) returns (added: Elem<T>)
      requires Valid() && At(pos, k)
      modifies this, Nodes
      ensures Valid() && fresh(added)
      ensures var n := if pos == null then 0 else k;
              Nodes == Splice(old(Nodes), n, added) && Contents == Splice(old(Contents), n, v)
    {
      if pos == null || pos.prev == null {
        added := AddHead(v);
      } else {
        added := new Elem(v);
        LinkBetween(pos.prev, added, pos, k);
      }
    }

    /** Unlinks the node at `pos` and moves the cursor to its successor, or to null when there is
        none.  An empty list or a null position is left alone. */
    method RemoveAt(pos: Elem?<T>, ghost k: nat) returns (next: Elem?<T>)
      requires Valid() && At(pos, k)
      modifies this, Nodes
      ensures Valid()
      ensures pos == null ==> next == null && Nodes == old(Nodes) && Contents == old(Contents)
      ensures pos != null ==>
                && Nodes == Without(old(Nodes), k)
                && Contents == Without(old(Contents), k)
                && At(next, k)
    {
      if count == 0 || pos == null {
        return pos;
      }
      if pos.next == null && pos.prev == null {
        assert k == 0 && k + 1 == |Nodes|;
        headNode, tailNode := null, null;
        next := null;
      } else if pos.prev != null && pos.next != null {
        pos.prev.next := pos.next;
        pos.next.prev := pos.prev;
        next := pos.next;
      } else if pos.prev == null {
        assert k == 0;
        headNode := pos.next;
        headNode.prev := null;
        next := pos.next;
      } else {
        assert k == |Nodes| - 1;
        tailNode := pos.prev;
        tailNode.next := null;
        next := null;
      }
      count := count - 1;
      Nodes, Contents := Without(Nodes, k), Without(Contents, k);
    }

    /** Frees every node: `freed` records the nodes in the order they are deleted, so each is
        deleted exactly once and none is left behind. */
    method RemoveAll() returns (ghost freed: seq<Elem<T>>)
      requires Valid()
      modifies this
      ensures Valid() && Nodes == []
      ensures freed == old(Nodes)
    {
      freed := [];
      var pos := headNode;
      if pos == null {
        return;
      }
      while pos != null
        invariant |freed| <= |Nodes| && At(pos, |freed|)
        invariant freed == Nodes[..|freed|]
        decreases |Nodes| - |freed|
      {
        var succ := pos.next;
        freed := freed + [pos];
        pos := succ;
      }
      headNode, tailNode := null, null;
      count := 0;
      Nodes, Contents := [], [];
    }

    /** Overwrites the element under the cursor; a null position is refused.  Writing through the
        reference that `GetAt` hands out has the same effect. */
    method SetAt(pos: Elem?<T>, v: T, ghost k: nat) returns (ok: bool)
      requires Valid() && At(pos, k)
      modifies this`Contents, Nodes`obj
      ensures Valid() && ok == (pos != null)
      ensures Contents == if pos == null then old(Contents) else old(Contents)[k := v]
    {
      if pos == null {
        return false;
      }
      pos.obj := v;
      Contents := Contents[k := v];
      return true;
    }

    /** Reads the element under the cursor and moves one node towards the tail. */
    method GetNext(pos: Elem<T>, ghost k: nat) returns (v: T, next: Elem?<T>)
      requires Valid() && At(pos, k)
      ensures v == Contents[k] && At(next, k + 1)
    {
      v := pos.obj;
      if pos != tailNode {
        next := pos.next;
      } else {
        next := null;
      }
    }

    /** Reads the element under the cursor and moves one node towards the head; in front of the
        first node the cursor becomes null. */
    method GetPrev(pos: Elem<T>, ghost k: nat) returns (v: T, prev: Elem?<T>)
      requires Valid() && At(pos, k)
      ensures v == Contents[k]
      ensures if k == 0 then prev == null else prev == Nodes[k - 1]
    {
      v := pos.obj;
      if pos != headNode {
        prev := pos.prev;
      } else {
        prev := null;
      }
    }
  }
}
