/** The `Heap` wrapper of src/maze.py, kept abstract: a multiset of
    `(f, i, j)` entries from which the least entry, in Python's tuple
    order, is taken first. The binary-heap layout behind it is left out. */
module PriorityQueue {

  /** A heap entry `(f, i, j)`: a finite f score and a grid position. */
  datatype Entry = Entry(f: int, i: int, j: int)

  /** Python's ordering of `(f, i, j)` tuples: by f, then row, then column. */
  predicate LexLe(a: Entry, b: Entry) {
    a.f < b.f || (a.f == b.f && (a.i < b.i || (a.i == b.i && a.j <= b.j)))
  }

  lemma LexLeTotalOrder(a: Entry, b: Entry, c: Entry)
    ensures LexLe(a, a)
    ensures LexLe(a, b) || LexLe(b, a)
    ensures LexLe(a, b) && LexLe(b, a) ==> a == b
    ensures LexLe(a, b) && LexLe(b, c) ==> LexLe(a, c)
  {
  }

  /** `e` is a least entry of `m`. */
  predicate IsMin(e: Entry, m: multiset<Entry>) {
    e in m && forall x | x in m :: LexLe(e, x)
  }

  /** Every non-empty heap has a least entry. */
  lemma {:induction false} MinExists(m: multiset<Entry>)
    requires |m| > 0
    ensures exists e :: IsMin(e, m)
    decreases |m|
  {
    var x :| x in m;
    var rest := m - multiset{x};
    if |rest| == 0 {
      assert m == multiset{x};
      assert IsMin(x, m);
    } else {
      MinExists(rest);
      var e :| IsMin(e, rest);
      forall y | y in m
        ensures y == x || y in rest
      {
      }
      if LexLe(x, e) {
        forall y | y in m
          ensures LexLe(x, y)
        {
          if y != x { LexLeTotalOrder(x, e, y); }
        }
        assert IsMin(x, m);
      } else {
        LexLeTotalOrder(e, x, x);
        assert IsMin(e, m);
      }
    }
  }

  /** The least entry is unique, so popping is deterministic. */
  lemma MinUnique(a: Entry, b: Entry, m: multiset<Entry>)
    requires IsMin(a, m) && IsMin(b, m)
    ensures a == b
  {
    LexLeTotalOrder(a, b, b);
  }

  class Heap {
    var contents: multiset<Entry>

    /** Heap(array=...): the given entries (heapify only reorders them). */
    constructor (entries: seq<Entry>)
      ensures contents == multiset(entries)
    {
      contents := multiset(entries);
    }

    /** heapq.heappush. */
    method Push(x: Entry)
      modifies this
      ensures contents == old(contents) + multiset{x}
    {
      contents := contents + multiset{x};
    }

    /** heapq.heappop: remove and return the least entry. */
    method Pop() returns (x: Entry)
      requires |contents| > 0
      modifies this
      ensures IsMin(x, old(contents))
      ensures contents == old(contents) - multiset{x}
    {
      MinExists(contents);
      x :| IsMin(x, contents);
      contents := contents - multiset{x};
    }
  }
}
