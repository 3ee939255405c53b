/** The doubly linked lists of seabios/src/list.h.  A node's `pprev` is the address of
    the pointer that points to it: a list head, or the `next` field of another node.
    The same two operations serve zone lists, which end in a null pointer, and the
    ring of threads, which has no head at all. */
module Hlist {

  const NULL := 0

  /** A place that holds a pointer to a node. */
  datatype Slot = Head(list: nat) | NextOf(node: nat)

  type Cells = map<Slot, nat>
  type Backs = map<nat, Slot>

  predicate Distinct(ns: seq<nat>)
    decreases ns
  {
    ns == [] || (ns[0] != NULL && ns[0] !in ns[1..] && Distinct(ns[1..]))
  }

  /** From the slot `from`, the pointers lead through `ns` to `to`, and each node points
      back at the slot that points to it. */
  predicate Leads(cells: Cells, backs: Backs, from: Slot, ns: seq<nat>, to: nat)
    decreases ns
  {
    && from in cells
    && if ns == [] then cells[from] == to
       else
         && cells[from] == ns[0] && ns[0] in backs && backs[ns[0]] == from
         && Leads(cells, backs, NextOf(ns[0]), ns[1..], to)
  }

  /** The list behind head `h`. */
  predicate IsList(cells: Cells, backs: Backs, h: nat, ns: seq<nat>) {
    Distinct(ns) && Leads(cells, backs, Head(h), ns, NULL)
  }

  function Last(from: Slot, ns: seq<nat>): Slot {
    if ns == [] then from else NextOf(ns[|ns| - 1])
  }

  /** A ring, read from any of its nodes. */
  predicate IsRing(cells: Cells, backs: Backs, ns: seq<nat>) {
    && ns != [] && Distinct(ns) && Leads(cells, backs, NextOf(ns[0]), ns[1..], ns[0])
    && ns[0] in backs && backs[ns[0]] == Last(NextOf(ns[0]), ns[1..])
  }

  class Links {
    var cells: Cells
    var backs: Backs

    /** A lone node that points to itself, as `MainThread` does. */
    constructor Ring(n: nat)
      requires n != NULL
      ensures IsRing(cells, backs, [n])
    {
      cells, backs := map[NextOf(n) := n], map[n := NextOf(n)];
      assert [n][1..] == [];
    }

    /** `count` empty lists. */
    constructor Lists(count: nat)
      ensures forall h | 0 <= h < count :: IsList(cells, backs, h, [])
    {
      cells, backs := map h | 0 <= h < count :: Head(h) := NULL, map[];
    }

    /** `hlist_add`. */
    method Add(n: nat, at: Slot)
      requires at in cells
      modifies this
      ensures cells == CellsAdd(old(cells), n, at) && backs == BacksAdd(old(cells), old(backs), n, at)
    {
      var next := cells[at];
      backs := backs[n := at];
      cells := cells[NextOf(n) := next];
      if next != NULL {
        backs := backs[next := NextOf(n)];
      }
      cells := cells[at := n];
    }

    /** `hlist_del`. */
    method Del(n: nat)
      requires NextOf(n) in cells && n in backs
      modifies this
      ensures cells == CellsDel(old(cells), old(backs), n) && backs == BacksDel(old(cells), old(backs), n)
    {
      var next, at := cells[NextOf(n)], backs[n];
      cells := cells[at := next];
      if next != NULL {
        backs := backs[next := at];
      }
    }
  }

  function CellsAdd(cells: Cells, n: nat, at: Slot): Cells
    requires at in cells
  {
    cells[NextOf(n) := cells[at]][at := n]
  }

  function BacksAdd(cells: Cells, backs: Backs, n: nat, at: Slot): Backs
    requires at in cells
  {
    if cells[at] == NULL then backs[n := at] else backs[n := at][cells[at] := NextOf(n)]
  }

  function CellsDel(cells: Cells, backs: Backs, n: nat): Cells
    requires NextOf(n) in cells && n in backs
  {
    cells[backs[n] := cells[NextOf(n)]]
  }

  function BacksDel(cells: Cells, backs: Backs, n: nat): Backs
    requires NextOf(n) in cells && n in backs
  {
    if cells[NextOf(n)] == NULL then backs else backs[cells[NextOf(n)] := backs[n]]
  }

  // ------------------------------------------------------------- stretches

  lemma {:induction false} LeadsJoin(cells: Cells, backs: Backs, from: Slot, a: seq<nat>, b: seq<nat>, to: nat)
    ensures Leads(cells, backs, from, a + b, to) <==>
            Leads(cells, backs, from, a, if b == [] then to else b[0]) &&
            (b != [] ==> Leads(cells, backs, Last(from, a), b, to))
    decreases a
  {
    if a == [] {
      assert a + b == b;
    } else {
      assert (a + b)[1..] == a[1..] + b;
      LeadsJoin(cells, backs, NextOf(a[0]), a[1..], b, to);
      assert Last(NextOf(a[0]), a[1..]) == Last(from, a);
    }
  }

  /** The slots of a stretch: where it starts, and the `next` fields of its nodes. */
  predicate Uses(from: Slot, ns: seq<nat>, s: Slot) {
    s == from || (s.NextOf? && s.node in ns)
  }

  /** A stretch does not notice changes elsewhere. */
  lemma {:induction false} LeadsFrame(cells: Cells, backs: Backs, cells': Cells, backs': Backs, from: Slot,
                                      ns: seq<nat>, to: nat)
    requires Leads(cells, backs, from, ns, to)
    requires forall s | s in cells && Uses(from, ns, s) :: s in cells' && cells'[s] == cells[s]
    requires forall n | n in ns && n in backs :: n in backs' && backs'[n] == backs[n]
    ensures Leads(cells', backs', from, ns, to)
    decreases ns
  {
    assert Uses(from, ns, from);
    if ns != [] {
      forall s | s in cells && Uses(NextOf(ns[0]), ns[1..], s)
        ensures s in cells' && cells'[s] == cells[s]
      {
        assert Uses(from, ns, s);
      }
      LeadsFrame(cells, backs, cells', backs', NextOf(ns[0]), ns[1..], to);
    }
  }

  lemma {:induction false} DistinctJoin(a: seq<nat>, b: seq<nat>)
    ensures Distinct(a + b) <==> Distinct(a) && Distinct(b) && forall n | n in a :: n !in b
    decreases a
  {
    if a == [] {
      assert a + b == b;
    } else {
      assert (a + b)[1..] == a[1..] + b;
      DistinctJoin(a[1..], b);
    }
  }

  lemma {:induction false} EndOf(cells: Cells, backs: Backs, from: Slot, ns: seq<nat>, to: nat)
    requires Leads(cells, backs, from, ns, to)
    ensures Last(from, ns) in cells && cells[Last(from, ns)] == to
    decreases ns
  {
    if ns != [] {
      EndOf(cells, backs, NextOf(ns[0]), ns[1..], to);
      assert Last(NextOf(ns[0]), ns[1..]) == Last(from, ns);
    }
  }

  /** Where a stretch starts may change, if its first node points back there. */
  lemma Restart(cells: Cells, backs: Backs, cells': Cells, backs': Backs, from: Slot, from': Slot, ns: seq<nat>,
                to: nat)
    requires Leads(cells, backs, from, ns, to) && Distinct(ns)
    requires from' in cells' && cells'[from'] == cells[from]
    requires forall n | n in ns && NextOf(n) in cells :: NextOf(n) in cells' && cells'[NextOf(n)] == cells[NextOf(n)]
    requires forall n | n in ns && n in backs && n != ns[0] :: n in backs' && backs'[n] == backs[n]
    requires ns != [] ==> ns[0] in backs' && backs'[ns[0]] == from'
    ensures Leads(cells', backs', from', ns, to)
  {
    if ns != [] {
      forall s | s in cells && Uses(NextOf(ns[0]), ns[1..], s)
        ensures s in cells' && cells'[s] == cells[s]
      {
        assert s.node in ns;
      }
      LeadsFrame(cells, backs, cells', backs', NextOf(ns[0]), ns[1..], to);
    }
  }

  /** Where it ends may change too. */
  lemma {:induction false} Retarget(cells: Cells, backs: Backs, cells': Cells, backs': Backs, from: Slot,
                                    ns: seq<nat>, to: nat, to': nat)
    requires Leads(cells, backs, from, ns, to) && Distinct(ns) && (from.NextOf? ==> from.node !in ns)
    requires forall s | s in cells && Uses(from, ns, s) && s != Last(from, ns) :: s in cells' && cells'[s] == cells[s]
    requires Last(from, ns) in cells' && cells'[Last(from, ns)] == to'
    requires forall n | n in ns && n in backs :: n in backs' && backs'[n] == backs[n]
    ensures Leads(cells', backs', from, ns, to')
    decreases ns
  {
    if ns != [] {
      assert Last(NextOf(ns[0]), ns[1..]) == Last(from, ns);
      assert Uses(from, ns, from);
      forall s | s in cells && Uses(NextOf(ns[0]), ns[1..], s) && s != Last(from, ns)
        ensures s in cells' && cells'[s] == cells[s]
      {
        assert Uses(from, ns, s);
      }
      Retarget(cells, backs, cells', backs', NextOf(ns[0]), ns[1..], to, to');
    }
  }

  /** A stretch outside which nothing it leads to lies. */
  predicate Proper(from: Slot, ns: seq<nat>, to: nat) {
    Distinct(ns) && to !in ns && (from.NextOf? ==> from.node !in ns && from.node == to)
  }

  // --------------------------------------------- the two operations on a stretch

  lemma AddBetween(cells: Cells, backs: Backs, from: Slot, a: seq<nat>, b: seq<nat>, to: nat, n: nat)
    requires Leads(cells, backs, from, a + b, to) && Proper(from, a + b, to) && n !in a + b && n != to && n != NULL
    requires (to == NULL ==> from.Head?) && from != NextOf(n)
    ensures Last(from, a) in cells
    ensures Leads(CellsAdd(cells, n, Last(from, a)), BacksAdd(cells, backs, n, Last(from, a)), from, a + [n] + b, to)
  {
    var at, next := Last(from, a), if b == [] then to else b[0];
    LeadsJoin(cells, backs, from, a, b, to);
    EndOf(cells, backs, from, a, next);
    DistinctJoin(a, b);
    var cells', backs' := CellsAdd(cells, n, at), BacksAdd(cells, backs, n, at);
    Retarget(cells, backs, cells', backs', from, a, next, n);
    if b != [] { NotNull(b, 0); }
    Restart(cells, backs, cells', backs', at, NextOf(n), b, to);
    assert Leads(cells', backs', NextOf(n), [], next);
    assert [n][1..] == [];
    assert Leads(cells', backs', at, [n], next);
    LeadsJoin(cells', backs', at, [n], b, to);
    LeadsJoin(cells', backs', from, a, [n] + b, to);
    assert a + ([n] + b) == a + [n] + b;
  }

  lemma {:induction false} NotNull(ns: seq<nat>, i: nat)
    requires Distinct(ns) && i < |ns|
    ensures ns[i] != NULL
    decreases ns
  {
    if i > 0 { NotNull(ns[1..], i - 1); }
  }

  lemma DelBetween(cells: Cells, backs: Backs, from: Slot, a: seq<nat>, b: seq<nat>, to: nat, n: nat)
    requires Leads(cells, backs, from, a + [n] + b, to) && Proper(from, a + [n] + b, to)
    ensures NextOf(n) in cells && n in backs && backs[n] == Last(from, a) &&
            cells[NextOf(n)] == if b == [] then to else b[0]
    ensures Leads(CellsDel(cells, backs, n), BacksDel(cells, backs, n), from, a + b, to)
  {
    var at, next := Last(from, a), if b == [] then to else b[0];
    assert a + ([n] + b) == a + [n] + b;
    LeadsJoin(cells, backs, from, a, [n] + b, to);
    assert ([n] + b)[1..] == b && ([n] + b)[0] == n;
    DistinctJoin(a, [n] + b);
    DistinctJoin([n], b);
    EndOf(cells, backs, from, a, n);
    var cells', backs' := CellsDel(cells, backs, n), BacksDel(cells, backs, n);
    Retarget(cells, backs, cells', backs', from, a, n, next);
    if b != [] { NotNull(b, 0); }
    forall x | x in b
      ensures NextOf(x) != at
    {
      assert x in a + [n] + b;
    }
    Restart(cells, backs, cells', backs', NextOf(n), at, b, to);
    LeadsJoin(cells', backs', from, a, b, to);
  }

  // ------------------------------------------------------------- lists and rings

  /** `hlist_add` at the slot behind `a` inserts there. */
  lemma AddInserts(cells: Cells, backs: Backs, h: nat, a: seq<nat>, b: seq<nat>, n: nat)
    requires IsList(cells, backs, h, a + b) && n !in a + b && n != NULL
    ensures Last(Head(h), a) in cells
    ensures var at := Last(Head(h), a); IsList(CellsAdd(cells, n, at), BacksAdd(cells, backs, n, at), h, a + [n] + b)
  {
    NullIsNoNode(a + b);
    AddBetween(cells, backs, Head(h), a, b, NULL, n);
    DistinctJoin(a, b);
    DistinctJoin([n], b);
    assert ([n] + b)[1..] == b && [n][1..] == [];
    DistinctJoin(a, [n] + b);
    assert a + ([n] + b) == a + [n] + b;
  }

  /** And leaves any other list alone. */
  lemma AddElsewhere(cells: Cells, backs: Backs, h: nat, a: seq<nat>, b: seq<nat>, n: nat, o: nat, ms: seq<nat>)
    requires IsList(cells, backs, h, a + b) && IsList(cells, backs, o, ms) && o != h
    requires n !in ms && forall x | x in a + b :: x !in ms
    ensures Last(Head(h), a) in cells
    ensures var at := Last(Head(h), a); IsList(CellsAdd(cells, n, at), BacksAdd(cells, backs, n, at), o, ms)
  {
    var at := Last(Head(h), a);
    LeadsJoin(cells, backs, Head(h), a, b, NULL);
    EndOf(cells, backs, Head(h), a, if b == [] then NULL else b[0]);
    if b != [] { assert b[0] in a + b; }
    if a != [] { assert a[|a| - 1] in a + b; }
    LeadsFrame(cells, backs, CellsAdd(cells, n, at), BacksAdd(cells, backs, n, at), Head(o), ms, NULL);
  }

  lemma {:induction false} NullIsNoNode(ns: seq<nat>)
    requires Distinct(ns)
    ensures NULL !in ns
    decreases ns
  {
    if ns != [] { NullIsNoNode(ns[1..]); }
  }

  /** `hlist_del` takes a node out. */
  lemma DelRemoves(cells: Cells, backs: Backs, h: nat, a: seq<nat>, b: seq<nat>, n: nat)
    requires IsList(cells, backs, h, a + [n] + b)
    ensures NextOf(n) in cells && n in backs
    ensures IsList(CellsDel(cells, backs, n), BacksDel(cells, backs, n), h, a + b)
  {
    NullIsNoNode(a + [n] + b);
    DelBetween(cells, backs, Head(h), a, b, NULL, n);
    assert a + ([n] + b) == a + [n] + b;
    DistinctJoin(a, [n] + b);
    assert ([n] + b)[1..] == b;
    DistinctJoin(a, b);
  }

  lemma DelElsewhere(cells: Cells, backs: Backs, h: nat, a: seq<nat>, b: seq<nat>, n: nat, o: nat, ms: seq<nat>)
    requires IsList(cells, backs, h, a + [n] + b) && IsList(cells, backs, o, ms) && o != h
    requires forall x | x in a + [n] + b :: x !in ms
    ensures NextOf(n) in cells && n in backs
    ensures IsList(CellsDel(cells, backs, n), BacksDel(cells, backs, n), o, ms)
  {
    NullIsNoNode(a + [n] + b);
    DelBetween(cells, backs, Head(h), a, b, NULL, n);
    if b != [] { assert b[0] in a + [n] + b; }
    if a != [] { assert a[|a| - 1] in a + [n] + b; }
    LeadsFrame(cells, backs, CellsDel(cells, backs, n), BacksDel(cells, backs, n), Head(o), ms, NULL);
  }

  /** A ring may be read from its next node. */
  lemma Rotate(cells: Cells, backs: Backs, ns: seq<nat>)
    requires IsRing(cells, backs, ns) && |ns| > 1
    ensures IsRing(cells, backs, ns[1..] + [ns[0]])
    ensures NextOf(ns[0]) in cells && cells[NextOf(ns[0])] == ns[1]
  {
    var c, d, rest := ns[0], ns[1], ns[2..];
    assert ns[1..][0] == d && ns[1..][1..] == rest;
    EndOf(cells, backs, NextOf(d), rest, c);
    assert Leads(cells, backs, NextOf(c), [], d) && [c][1..] == [];
    LeadsJoin(cells, backs, NextOf(d), rest, [c], d);
    assert (ns[1..] + [c])[1..] == rest + [c];
    DistinctJoin(ns[1..], [c]);
  }

  lemma Alone(cells: Cells, backs: Backs, ns: seq<nat>)
    requires IsRing(cells, backs, ns)
    ensures NextOf(ns[0]) in cells && (cells[NextOf(ns[0])] == ns[0] <==> |ns| == 1)
  {
    if |ns| > 1 { Rotate(cells, backs, ns); }
  }

  /** `hlist_add_after` puts a node behind the one the ring is read from. */
  lemma AddToRing(cells: Cells, backs: Backs, ns: seq<nat>, n: nat)
    requires IsRing(cells, backs, ns) && n !in ns && n != NULL
    ensures NextOf(ns[0]) in cells
    ensures IsRing(CellsAdd(cells, n, NextOf(ns[0])), BacksAdd(cells, backs, n, NextOf(ns[0])), [ns[0], n] + ns[1..])
  {
    var c, rest := ns[0], ns[1..];
    NotNull(ns, 0);
    assert [] + rest == rest && [] + [n] + rest == [n] + rest;
    AddBetween(cells, backs, NextOf(c), [], rest, c, n);
    AddedShape(ns, n);
    if rest != [] { NotNull(rest, 0); }
  }

  lemma AddedShape(ns: seq<nat>, n: nat)
    requires ns != [] && Distinct(ns) && n !in ns && n != NULL
    ensures var all := [ns[0], n] + ns[1..]; all[0] == ns[0] && all[1..] == [n] + ns[1..] && Distinct(all)
    ensures Last(NextOf(ns[0]), [n] + ns[1..]) == if |ns| == 1 then NextOf(n) else Last(NextOf(ns[0]), ns[1..])
  {
    TwoInFront(ns[0], n, ns[1..]);
    LastBehind(NextOf(ns[0]), n, ns[1..]);
    DistinctTail(ns, n);
  }

  lemma TwoInFront(m: nat, n: nat, rest: seq<nat>)
    ensures ([m, n] + rest)[0] == m && ([m, n] + rest)[1..] == [n] + rest
  {
  }

  lemma LastBehind(from: Slot, n: nat, rest: seq<nat>)
    ensures Last(from, [n] + rest) == if rest == [] then NextOf(n) else Last(from, rest)
  {
    if rest != [] { assert ([n] + rest)[|rest|] == rest[|rest| - 1]; }
  }

  lemma DistinctTail(ns: seq<nat>, n: nat)
    requires ns != [] && Distinct(ns) && n !in ns && n != NULL
    ensures Distinct([n] + ns[1..]) && ns[0] !in [n] + ns[1..]
  {
    assert ([n] + ns[1..])[1..] == ns[1..];
  }

  /** `hlist_del` of the node the ring is read from leaves the others in order. */
  lemma DelFromRing(cells: Cells, backs: Backs, ns: seq<nat>)
    requires IsRing(cells, backs, ns) && |ns| > 1
    ensures NextOf(ns[0]) in cells && ns[0] in backs && cells[NextOf(ns[0])] == ns[1]
    ensures IsRing(CellsDel(cells, backs, ns[0]), BacksDel(cells, backs, ns[0]), ns[1..])
  {
    Rotate(cells, backs, ns);
    var c, d, rest := ns[0], ns[1], ns[2..];
    assert ns[1..][0] == d && ns[1..][1..] == rest && (ns[1..] + [c])[1..] == rest + [c] + [];
    assert rest + [] == rest && rest + [c] + [] == rest + [c];
    DistinctJoin(ns[1..], [c]);
    DistinctJoin(rest, [c]);
    DelBetween(cells, backs, NextOf(d), rest, [], d, c);
    NotNull(ns[1..], 0);
  }
}
