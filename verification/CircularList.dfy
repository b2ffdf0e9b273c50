/** Closing a linked list into a ring, and telling lists that end from lists that do not with two cursors. */
module CircularList {
  import Sets

  class Node<T> {
    var data: T
    var next: Node?<T>

    constructor (d: T)
      ensures data == d && next == null
    {
      data, next := d, null;
    }
  }

  class LinkedList<T> {
    var head: Node?<T>
    /** The nodes of the heap among which the list runs. */
    ghost var nodes: set<Node<T>>

    constructor ()
      ensures head == null && nodes == {} && Valid()
    {
      head, nodes := null, {};
    }

    ghost predicate Valid()
      reads this, nodes
    {
      && (head != null ==> head in nodes)
      && forall n :: n in nodes && n.next != null ==> n.next in nodes
    }

    /** The k-th node from head, null once the list has ended. */
    ghost function Nth(k: nat): (n: Node?<T>)
      requires Valid()
      reads this, nodes
      ensures n != null ==> n in nodes
    {
      if k == 0 then head else
      var n := Nth(k - 1);
      if n == null then null else n.next
    }

    ghost predicate Ends()
      requires Valid()
      reads this, nodes
    {
      exists k :: Nth(k) == null
    }

    /** Some node is reached again. */
    ghost predicate EntersCycle()
      requires Valid()
      reads this, nodes
    {
      exists i: nat, j: nat :: i < j && Nth(i) != null && Nth(i) == Nth(j)
    }

    lemma {:induction false} StaysEnded(i: nat, j: nat)
      requires Valid() && i <= j && Nth(i) == null
      ensures Nth(j) == null
    {
      if i < j { StaysEnded(i, j - 1); }
    }

    /** From equal nodes the list goes on equally. */
    lemma {:induction false} GoesOnEqually(i: nat, j: nat, m: nat)
      requires Valid() && Nth(i) == Nth(j)
      ensures Nth(i + m) == Nth(j + m)
    {
      if m > 0 {
        GoesOnEqually(i, j, m - 1);
        assert Nth(i + m) == if Nth(i + m - 1) == null then null else Nth(i + m - 1).next;
        assert Nth(j + m) == if Nth(j + m - 1) == null then null else Nth(j + m - 1).next;
      }
    }

    /** A period that starts at i repeats any number of times. */
    lemma {:induction false} Repeats(i: nat, d: nat, k: nat, t: nat)
      requires Valid() && Nth(i) == Nth(i + d) && i <= k
      ensures Nth(k) == Nth(k + t * d)
    {
      if t > 0 {
        Repeats(i, d, k, t - 1);
        GoesOnEqually(i, i + d, k + (t - 1) * d - i);
        assert i + (k + (t - 1) * d - i) == k + (t - 1) * d;
        assert i + d + (k + (t - 1) * d - i) == k + t * d;
      }
    }

    /** A list that enters a cycle never ends. */
    lemma CycleNeverEnds(i: nat, j: nat, k: nat)
      requires Valid() && i < j && Nth(i) == Nth(j) != null
      ensures Nth(k) != null
    {
      if Nth(k) == null {
        Repeats(i, j - i, i, k);
        Reaches(i, k, j - i);
        StaysEnded(k, i + k * (j - i));
      }
    }

    lemma Reaches(i: nat, k: nat, d: nat)
      requires d > 0
      ensures k <= i + k * d
    {
      assert k * d >= k by { if k > 0 { assert k * (d - 1) >= 0; } }
    }

    /** The first k nodes. */
    ghost function First(k: nat): (r: set<Node<T>>)
      requires Valid() && forall j :: 0 <= j < k ==> Nth(j) != null
      reads this, nodes
      ensures r <= nodes
    {
      if k == 0 then {} else First(k - 1) + {Nth(k - 1)}
    }

    lemma {:induction false} FirstHas(k: nat, n: Node<T>) returns (m: nat)
      requires Valid() && (forall j :: 0 <= j < k ==> Nth(j) != null) && n in First(k)
      ensures m < k && Nth(m) == n
    {
      if n == Nth(k - 1) { m := k - 1; } else { m := FirstHas(k - 1, n); }
    }

    /** k nodes are k different ones, unless one is reached again. */
    lemma {:induction false} CountsOrRepeats(k: nat) returns (i: nat, j: nat)
      requires Valid() && forall j :: 0 <= j < k ==> Nth(j) != null
      ensures if i == j then |First(k)| == k else i < j < k && Nth(i) == Nth(j)
    {
      hide Nth, Valid;
      i, j := 0, 0;
      if k > 0 {
        i, j := CountsOrRepeats(k - 1);
        if i == j && Nth(k - 1) in First(k - 1) {
          i := FirstHas(k - 1, Nth(k - 1));
          j := k - 1;
        }
      }
    }

    /** A list that has not ended after as many steps as there are nodes has reached a node again. */
    lemma LongListsRepeat() returns (i: nat, j: nat)
      requires Valid() && Nth(|nodes|) != null
      ensures i < j <= |nodes| && Nth(i) == Nth(j) != null
    {
      forall m: nat | m <= |nodes| ensures Nth(m) != null {
        if Nth(m) == null { StaysEnded(m, |nodes|); }
      }
      i, j := CountsOrRepeats(|nodes| + 1);
      Sets.SubsetSize(First(|nodes| + 1), nodes);
    }

    /** Every list either ends or enters a cycle, and not both. */
    lemma EndsOrCycles()
      requires Valid()
      ensures EntersCycle() <==> !Ends()
      ensures Ends() <==> Nth(|nodes|) == null
    {
      if Nth(|nodes|) != null {
        var i, j := LongListsRepeat();
        forall k: nat ensures Nth(k) != null { CycleNeverEnds(i, j, k); }
      } else if EntersCycle() {
        var i: nat, j: nat :| i < j && Nth(i) != null && Nth(i) == Nth(j);
        CycleNeverEnds(i, j, |nodes|);
      }
    }

    /** After b steps the two cursors stand on the same node, or both have run off the end. */
    lemma CursorsMeet() returns (b: nat)
      requires Valid()
      ensures b > 0 && Nth(b) == Nth(2 * b)
    {
      if Nth(|nodes|) == null {
        b := |nodes| + 1;
        StaysEnded(|nodes|, b);
        StaysEnded(|nodes|, 2 * b);
      } else {
        var i, j := LongListsRepeat();
        b := (i + 1) * (j - i);
        Reaches(0, i + 1, j - i);
        hide *;
        Repeats(i, j - i, b, i + 1);
      }
    }

    /** Tortoise and hare. Whatever the nodes are, it comes to an end, and says whether the list does not. */
    method IsCircular() returns (r: bool)
      requires Valid()
      ensures r <==> EntersCycle()
      ensures r <==> !Ends()
    {
      EndsOrCycles();
      if head == null || head.next == null {
        assert Nth(1) == null;
        return false;
      }
      var p, pp := head, head;
      ghost var i := 0;
      ghost var b := CursorsMeet();
      while pp != null
        invariant i < b && p == Nth(i) && pp == Nth(2 * i)
        decreases b - i
      {
        assert p != null by { if Nth(i) == null { StaysEnded(i, 2 * i); } }
        p := p.next;
        if pp.next == null {
          assert Nth(2 * i + 1) == null;
          return false;
        }
        pp := pp.next.next;
        i := i + 1;
        assert Nth(2 * i - 1) != null && Nth(2 * i) == Nth(2 * i - 1).next;
        if p == pp {
          assert Nth(i) != null by { if Nth(i) == null { StaysEnded(i, 2 * i - 1); } }
          assert i < 2 * i;
          return true;
        }
      }
      r := false;
    }

    // ---------------------------------------------------------------- closing the list

    ghost function After(s: seq<Node<T>>, i: nat, last: Node?<T>): Node?<T>
      requires i < |s|
    {
      if i + 1 < |s| then s[i + 1] else last
    }

    /** The list is s, and ends. */
    ghost predicate IsList(s: seq<Node<T>>)
      reads this, s
    {
      && (s == [] ==> head == null) && (s != [] ==> head == s[0])
      && forall i :: 0 <= i < |s| ==> s[i].next == After(s, i, null)
    }

    /** The nodes of s, each leading to the next and the last to the first. */
    ghost predicate IsRing(s: seq<Node<T>>)
      reads this, s
    {
      && s != [] && head == s[0]
      && forall i :: 0 <= i < |s| ==> s[i].next == After(s, i, s[0])
    }

    /** Appends d; the list s, which ends, becomes s with one new node. */
    method Add(d: T, ghost s: seq<Node<T>>) returns (n: Node<T>)
      requires Valid() && IsList(s) && forall x :: x in s ==> x in nodes
      modifies this, s
      ensures fresh(n) && n.data == d && nodes == old(nodes) + {n}
      ensures Valid() && IsList(s + [n]) && forall x :: x in s ==> x.data == old(x.data)
    {
      n := new Node<T>(d);
      nodes := nodes + {n};
      if head == null {
        head := n;
        return;
      }
      assert s != [] && s[0].next == After(s, 0, null);
      var p := head;
      ghost var i := 0;
      while p.next != null
        invariant i < |s| && p == s[i] && IsList(s)
        decreases |s| - i
      {
        assert s[i].next == After(s, i, null);
        p := p.next;
        i := i + 1;
        assert i + 1 < |s| ==> s[i].next == After(s, i, null);
      }
      assert s[i].next == After(s, i, null);
      assert i == |s| - 1;
      assert forall j :: 0 <= j < i ==> s[j].next == After(s, j, null) != null;
      p.next := n;
      forall j | 0 <= j < |s + [n]| ensures (s + [n])[j].next == After(s + [n], j, null) {
        if j < i { assert s[j].next == After(s, j, null); }
      }
    }

    lemma {:induction false} RingNeverEnds(s: seq<Node<T>>, k: nat)
      requires Valid() && IsRing(s)
      ensures exists i :: 0 <= i < |s| && Nth(k) == s[i]
    {
      if k > 0 {
        RingNeverEnds(s, k - 1);
        var i :| 0 <= i < |s| && Nth(k - 1) == s[i];
        assert s[i].next == After(s, i, s[0]);
        assert Nth(k) == s[i].next;
      } else {
        assert Nth(0) == s[0];
      }
    }

    lemma RingIsCircular(s: seq<Node<T>>)
      requires Valid() && IsRing(s)
      ensures EntersCycle() && !Ends()
    {
      forall k: nat ensures Nth(k) != null { RingNeverEnds(s, k); }
      EndsOrCycles();
    }

    /** Leads the last node of a list of at least two back to the first; shorter lists stay as they are. */
    method MakeCircular(ghost s: seq<Node<T>>)
      requires Valid() && IsList(s) && forall n :: n in s ==> n in nodes
      modifies s
      ensures Valid() && head == old(head)
      ensures if |s| >= 2 then IsRing(s) && EntersCycle() else IsList(s)
      ensures forall n :: n in s ==> n.data == old(n.data)
    {
      assert s != [] ==> s[0].next == After(s, 0, null);
      if head == null || head.next == null {
        return;
      }
      var p := head;
      ghost var i := 0;
      while p != null
        invariant i < |s| && p == s[i] && IsList(s)
        decreases |s| - i
      {
        assert s[i].next == After(s, i, null);
        if p.next == null {
          assert i == |s| - 1;
          assert forall j :: 0 <= j < i ==> s[j].next == After(s, j, null) != null;
          p.next := head;
          RingIsCircular(s);
          return;
        }
        p := p.next;
        i := i + 1;
      }
    }
  }
}
