/** The kernel's intrusive doubly linked list with sentinel nodes at both ends. */
module List {
  import opened Common

  class Node {
    var prev: Node?
    var next: Node?
    var owner: List?
    var base: int
    var size: int

    constructor (base: int, size: int)
      ensures this.base == base && this.size == size && prev == null && next == null && owner == null
    {
      this.base, this.size := base, size;
      prev, next, owner := null, null, null;
    }
  }

  /** What the comparison and merge callbacks see of a node. */
  datatype Range = Range(base: int, size: int)

  /** The place of a node with base `b`. */
  function SortedIndex(s: seq<Range>, b: int): (i: nat)
    ensures i <= |s| && (forall j :: 0 <= j < i ==> s[j].base < b) && (i < |s| ==> s[i].base >= b)
  {
    FirstAtLeast(s, (r: Range) => r.base, b)
  }

  ghost predicate Ascending(s: seq<Range>) { forall i, j :: 0 <= i < j < |s| ==> s[i].base <= s[j].base }

  function InsertSorted(s: seq<Range>, x: Range): seq<Range> { Inserted(s, SortedIndex(s, x.base), x) }

  predicate Touch(x: Range, y: Range) { x.base + x.size == y.base }

  function Grow(x: Range, y: Range): Range { x.(size := x.size + y.size) }

  /** Joins the entry at `i` with the one before it, if they touch. */
  function MergePrev(s: seq<Range>, i: nat): seq<Range>
    requires i < |s|
  {
    if i > 0 && Touch(s[i - 1], s[i]) then Removed(s[i - 1 := Grow(s[i - 1], s[i])], i) else s
  }

  /** Joins the entry at `i` with the one after it, if they touch. */
  function MergeNext(s: seq<Range>, i: nat): seq<Range>
    requires i < |s|
  {
    if i + 1 < |s| && Touch(s[i], s[i + 1]) then Removed(s[i := Grow(s[i], s[i + 1])], i + 1) else s
  }

  /** `list_merge`: first with the predecessor, then whatever resulted with the successor. */
  function MergeAround(s: seq<Range>, i: nat): seq<Range>
    requires i < |s|
  {
    if i > 0 && Touch(s[i - 1], s[i]) then MergeNext(MergePrev(s, i), i - 1) else MergeNext(s, i)
  }

  lemma MergeShrinks(s: seq<Range>, i: nat)
    requires i < |s|
    ensures |MergeAround(s, i)| <= |s|
  {
  }

  lemma InsertSortedKeepsOrder(s: seq<Range>, x: Range)
    requires Ascending(s)
    ensures Ascending(InsertSorted(s, x))
  {
  }

  class List {
    const head: Node
    const tail: Node
    var count: nat
    ghost var nodes: seq<Node>

    ghost function All(): seq<Node>
      reads this
    {
      [head] + nodes + [tail]
    }

    /** The nodes of the list, sentinels included. */
    ghost function Foot(): set<Node>
      reads this
    {
      {head, tail} + set x | x in nodes
    }

    ghost predicate LinkAt(s: seq<Node>, i: int)
      requires 0 <= i < |s| - 1
      reads s
    {
      s[i].next == s[i + 1] && s[i + 1].prev == s[i]
    }

    ghost predicate Linked(s: seq<Node>)
      reads s
    {
      forall i {:trigger LinkAt(s, i)} :: 0 <= i < |s| - 1 ==> LinkAt(s, i)
    }

    ghost predicate Distinct(s: seq<Node>) { forall i, j :: 0 <= i < j < |s| ==> s[i] != s[j] }

    ghost predicate Valid()
      reads this, head, tail, nodes
    {
      && Distinct(All()) && Linked(All())
      && head.prev == null && tail.next == null
      && count == |nodes|
      && forall n :: n in nodes ==> n.owner == this
    }

    ghost function Ranges(): (r: seq<Range>)
      reads this, nodes
      ensures |r| == |nodes| && forall i :: 0 <= i < |r| ==> r[i] == Range(nodes[i].base, nodes[i].size)
    {
      seq(|nodes|, i requires 0 <= i < |nodes| reads this, nodes => Range(nodes[i].base, nodes[i].size))
    }

    constructor ()
      ensures Valid() && nodes == [] && fresh(head) && fresh(tail)
    {
      var h := new Node(0, 0);
      var t := new Node(0, 0);
      h.next, t.prev := t, h;
      head, tail, count, nodes := h, t, 0, [];
      new;
      assert All() == [head, tail];
    }

    /** Links `n` in behind the node at position `i` of the list with its sentinels. */
    method Insert(prev: Node, n: Node, ghost i: nat)
      requires Valid() && i <= |nodes| && prev == All()[i] && n !in All()
      modifies this`count, this`nodes, prev`next, {All()[i + 1]}`prev, n`prev, n`next, n`owner
      ensures Valid() && nodes == Inserted(old(nodes), i, n)
    {
      ghost var s := All();
      assert LinkAt(s, i);
      var next := prev.next;
      next.prev := n;
      prev.next := n;
      n.prev := prev;
      n.next := next;
      count := count + 1;
      n.owner := this;
      nodes := Inserted(nodes, i, n);
      ghost var t := s[..i + 1] + [n] + s[i + 1..];
      assert All() == t;
      forall j | 0 <= j < |t| - 1 ensures LinkAt(t, j) {
        if j < i {
          assert old(LinkAt(s, j));
          assert t[j] == s[j] && t[j + 1] == s[j + 1];
        } else if j > i + 1 {
          assert old(LinkAt(s, j - 1));
          assert t[j] == s[j - 1] && t[j + 1] == s[j];
        }
      }
    }

    method Remove(n: Node, ghost i: nat)
      requires Valid() && i < |nodes| && n == nodes[i]
      modifies this`count, this`nodes, {All()[i]}`next, {All()[i + 2]}`prev
      ensures Valid() && nodes == Removed(old(nodes), i)
    {
      ghost var s := All();
      assert s[i + 1] == n;
      assert LinkAt(s, i) && LinkAt(s, i + 1);
      var prev, next := n.prev, n.next;
      prev.next := next;
      next.prev := prev;
      count := count - 1;
      nodes := Removed(nodes, i);
      ghost var t := s[..i + 1] + s[i + 2..];
      assert All() == t;
      forall j | 0 <= j < |t| - 1 ensures LinkAt(t, j) {
        if j < i {
          assert old(LinkAt(s, j));
          assert t[j] == s[j] && t[j + 1] == s[j + 1];
        } else if j > i {
          assert old(LinkAt(s, j + 1));
          assert t[j] == s[j + 1] && t[j + 1] == s[j + 2];
        }
      }
    }

    /** `Insert` and `Remove`, in terms of the ranges the nodes stand for. */
    method InsertRange(prev: Node, n: Node, ghost i: nat)
      requires Valid() && i <= |nodes| && prev == All()[i] && n !in All()
      modifies this`count, this`nodes, prev`next, {All()[i + 1]}`prev, n`prev, n`next, n`owner
      ensures Valid() && nodes == Inserted(old(nodes), i, n)
      ensures Ranges() == Inserted(old(Ranges()), i, Range(n.base, n.size))
    {
      Insert(prev, n, i);
    }

    method RemoveRange(n: Node, ghost i: nat)
      requires Valid() && i < |nodes| && n == nodes[i]
      modifies this`count, this`nodes, {All()[i]}`next, {All()[i + 2]}`prev
      ensures Valid() && nodes == Removed(old(nodes), i) && Ranges() == Removed(old(Ranges()), i)
    {
      Remove(n, i);
    }

    /** The node behind which `n` belongs.  There always is a place, on any list, so the panic
        behind the loop is unreachable. */
    method FindPlace(n: Node) returns (left: Node, ghost i: nat)
      requires Valid()
      ensures i == SortedIndex(Ranges(), n.base) && left == All()[SortedIndex(Ranges(), n.base)]
    {
      ghost var s, r := All(), Ranges();
      ghost var t := SortedIndex(r, n.base);
      left := head;
      i := 0;
      assert s[|s| - 1] == tail;
      while left != tail
        invariant 0 <= i <= t && left == s[i]
        decreases t - i
      {
        assert LinkAt(s, i);
        assert s[|nodes| + 1] == tail && s[0] == head;
        assert i < |nodes| ==> s[i + 1] == nodes[i] && r[i].base == nodes[i].base;
        assert i > 0 ==> s[i] == nodes[i - 1] && r[i - 1].base == nodes[i - 1].base;
        var right := left.next;
        var cmpLeft := if left == head then 1 else Compare(n, left);
        var cmpRight := if right == tail then 1 else Compare(right, n);
        if cmpLeft >= 0 && cmpRight >= 0 {
          return;
        }
        left := right;
        i := i + 1;
      }
      assert false;
    }

    method InsertSortedNode(n: Node) returns (ghost i: nat)
      requires Valid() && n !in All()
      modifies this`count, this`nodes, Foot()`next, Foot()`prev, n`prev, n`next, n`owner
      ensures Valid() && i == SortedIndex(old(Ranges()), n.base) && nodes == Inserted(old(nodes), i, n)
      ensures Ranges() == InsertSorted(old(Ranges()), Range(n.base, n.size))
    {
      var left;
      left, i := FindPlace(n);
      assert left in Foot() && All()[i + 1] in Foot() by {
        assert i < |nodes| ==> All()[i + 1] == nodes[i];
        assert i > 0 ==> All()[i] == nodes[i - 1];
      }
      InsertRange(left, n, i);
    }

    static function Compare(a: Node, b: Node): int
      reads a, b
    {
      if a.base > b.base then 1 else if a.base < b.base then -1 else 0
    }

    method PushBack(n: Node)
      requires Valid() && n !in All()
      modifies this`count, this`nodes, Foot()`next, Foot()`prev, n`prev, n`next, n`owner
      ensures Valid() && nodes == old(nodes) + [n]
    {
      assert LinkAt(All(), |nodes|);
      Insert(tail.prev, n, |nodes|);
    }

    /** Unlinks the first node; on an empty list the sentinel is refused and null returned. */
    method PopFront() returns (n: Node?)
      requires Valid()
      modifies this`count, this`nodes, Foot()`next, Foot()`prev
      ensures Valid()
      ensures if old(nodes) == [] then n == null && nodes == [] else n == old(nodes)[0] && nodes == old(nodes)[1..]
    {
      assert LinkAt(All(), 0);
      n := head.next;
      assert All()[1] == n && All()[|nodes| + 1] == tail;
      if n == tail {
        return null;
      }
      Remove(n, 0);
    }

    method PopBack() returns (n: Node?)
      requires Valid()
      modifies this`count, this`nodes, Foot()`next, Foot()`prev
      ensures Valid()
      ensures if old(nodes) == [] then n == null && nodes == []
              else n == old(nodes)[|old(nodes)| - 1] && nodes == old(nodes)[..|old(nodes)| - 1]
    {
      assert LinkAt(All(), |nodes|);
      n := tail.prev;
      assert All()[|nodes|] == n && All()[0] == head;
      if n == head {
        return null;
      }
      Remove(n, |nodes| - 1);
    }

    method SetSize(n: Node, size: int, ghost i: nat)
      requires Valid() && i < |nodes| && nodes[i] == n
      modifies n`size
      ensures Valid() && Ranges() == old(Ranges())[i := Range(n.base, size)]
    {
      n.size := size;
      forall k | 0 <= k < |nodes| && k != i ensures nodes[k] != n {
        assert All()[k + 1] == nodes[k] && All()[i + 1] == n;
      }
      forall j | 0 <= j < |All()| - 1 ensures LinkAt(All(), j) { assert old(LinkAt(All(), j)); }
    }

    /** Adds the size of the node at `i + 1` to the node at `i` and unlinks it, if they touch. */
    method Absorb(n: Node, next: Node, ghost i: nat) returns (merged: bool)
      requires Valid() && i + 1 < |nodes| && nodes[i] == n && nodes[i + 1] == next
      modifies this`count, this`nodes, Foot()`next, Foot()`prev, n`size
      ensures Valid() && merged == Touch(old(Ranges())[i], old(Ranges())[i + 1])
      ensures Ranges() == MergeNext(old(Ranges()), i)
      ensures nodes == if merged then Removed(old(nodes), i + 1) else old(nodes)
      ensures !merged ==> count == old(count)
    {
      ghost var s := Ranges();
      assert s[i] == Range(n.base, n.size) && s[i + 1] == Range(next.base, next.size);
      merged := n.base + n.size == next.base;
      if merged {
        SetSize(n, n.size + next.size, i);
        assert Ranges() == s[i := Grow(s[i], s[i + 1])];
        RemoveRange(next, i + 1);
      }
    }

    /** Joins `n` with its neighbours where they touch; returns the nodes that were absorbed. */
    method Merge(n: Node, ghost i: nat) returns (free1: Node?, free2: Node?)
      requires Valid() && i < |nodes| && nodes[i] == n
      modifies this`count, this`nodes, Foot()`next, Foot()`prev, Foot()`size
      ensures Valid() && Ranges() == MergeAround(old(Ranges()), i)
      ensures |nodes| + (if free1 != null then 1 else 0) + (if free2 != null then 1 else 0) == |old(nodes)|
      ensures free1 != null ==> free1 == n
    {
      free1, free2 := null, null;
      var cur := n;
      ghost var j := i;
      assert LinkAt(All(), i);
      assert All()[i + 1] == n && (i > 0 ==> All()[i] == nodes[i - 1]) && All()[0] == head;
      if n.prev != head {
        var p := n.prev;
        var merged := Absorb(p, n, i - 1);
        if merged {
          free1 := n;
          cur := p;
          j := i - 1;
        }
      }
      assert Foot() <= old(Foot());
      assert LinkAt(All(), j + 1);
      assert All()[j + 1] == cur && All()[|nodes| + 1] == tail && (j + 1 < |nodes| ==> All()[j + 2] == nodes[j + 1]);
      if cur.next != tail {
        var next := cur.next;
        var merged := Absorb(cur, next, j);
        if merged {
          free2 := next;
        }
      }
    }

    method InsertMergeSorted(n: Node) returns (free1: Node?, free2: Node?)
      requires Valid() && n !in All()
      modifies this`count, this`nodes, Foot(), n
      ensures Valid()
      ensures var s := InsertSorted(old(Ranges()), old(Range(n.base, n.size)));
        Ranges() == MergeAround(s, SortedIndex(old(Ranges()), old(n.base)))
      ensures |nodes| + (if free1 != null then 1 else 0) + (if free2 != null then 1 else 0) == |old(nodes)| + 1
    {
      ghost var i := InsertSortedNode(n);
      assert Foot() <= old(Foot()) + {n};
      free1, free2 := Merge(n, i);
    }
  }
}
