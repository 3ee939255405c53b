/** The allocator of seabios/src/malloc.c in one memory with the pointers of list.h.  The
    steps of addSpace, _malloc and _free on `next` and `pprev` are the steps of the model
    that is written on lists of nodes. */
module LinkedHeap {
  import opened Basics
  import opened Rounding
  import opened Hlist
  import opened ZoneList
  import opened ZoneHeap
  import opened ZoneAllocator
  import opened ZoneRuns

  /** The fields of an `allocinfo_s` besides its list node. */
  datatype Fields = Fields(data: nat, dataend: nat, allocend: nat)

  type Store = map<nat, Fields>

  function Infos(ns: Zone): (r: seq<nat>)
    ensures |r| == |ns|
    decreases ns
  {
    if ns == [] then [] else [ns[0].info] + Infos(ns[1..])
  }

  function Content(n: Node): Fields {
    Fields(n.data, n.dataend, n.allocend)
  }

  /** Memory holds the fields of every node. */
  predicate Stored(store: Store, ns: Zone)
    decreases ns
  {
    ns == [] || (ns[0].info in store && store[ns[0].info] == Content(ns[0]) && Stored(store, ns[1..]))
  }

  lemma {:induction false} InfosJoin(a: Zone, b: Zone)
    ensures Infos(a + b) == Infos(a) + Infos(b)
    decreases a
  {
    if a == [] {
      assert a + b == b;
    } else {
      assert (a + b)[1..] == a[1..] + b;
      InfosJoin(a[1..], b);
    }
  }

  lemma {:induction false} StoredJoin(store: Store, a: Zone, b: Zone)
    ensures Stored(store, a + b) <==> Stored(store, a) && Stored(store, b)
    decreases a
  {
    if a == [] {
      assert a + b == b;
    } else {
      assert (a + b)[1..] == a[1..] + b;
      StoredJoin(store, a[1..], b);
    }
  }

  lemma {:induction false} StoredKept(store: Store, ns: Zone, info: nat, f: Fields)
    requires Stored(store, ns) && info !in Infos(ns)
    ensures Stored(store[info := f], ns)
    decreases ns
  {
    if ns != [] { StoredKept(store, ns[1..], info, f); }
  }

  // ------------------------------------------------------------ one memory

  /** The list of zone `z` in memory: its pointers and its fields. */
  predicate Lies(cells: Cells, backs: Backs, store: Store, z: nat, ns: Zone) {
    IsList(cells, backs, z, Infos(ns)) && Stored(store, ns)
  }

  predicate Disjoint(a: seq<nat>, b: seq<nat>) {
    forall x | x in a :: x !in b
  }

  /** All lists, without a node in common. */
  predicate InMemory(cells: Cells, backs: Backs, store: Store, zs: seq<Zone>) {
    && (forall z | 0 <= z < |zs| :: Lies(cells, backs, store, z, zs[z]))
    && (forall y, z | 0 <= y < |zs| && 0 <= z < |zs| && y != z :: Disjoint(Infos(zs[y]), Infos(zs[z])))
  }

  /** An address where no node is. */
  predicate IsNew(zs: seq<Zone>, n: nat) {
    n != NULL && forall z | 0 <= z < |zs| :: n !in Infos(zs[z])
  }

  /** The list around position `i`: its two halves and the pointers between them. */
  lemma Halves(cells: Cells, backs: Backs, store: Store, z: nat, ns: Zone, i: nat)
    requires Lies(cells, backs, store, z, ns) && i <= |ns|
    ensures var a, b, at := Infos(ns[..i]), Infos(ns[i..]), Last(Head(z), Infos(ns[..i]));
            && Infos(ns) == a + b && at in cells && cells[at] == (if i == |ns| then NULL else ns[i].info)
            && (i < |ns| ==> ns[i].info != NULL && ns[i].info in backs && backs[ns[i].info] == at)
    ensures Stored(store, ns[..i]) && Stored(store, ns[i..])
    ensures i < |ns| ==> ns[i].info in store && store[ns[i].info] == Content(ns[i])
  {
    var a, b := Infos(ns[..i]), Infos(ns[i..]);
    assert ns == ns[..i] + ns[i..];
    InfosJoin(ns[..i], ns[i..]);
    StoredJoin(store, ns[..i], ns[i..]);
    LeadsJoin(cells, backs, Head(z), a, b, NULL);
    EndOf(cells, backs, Head(z), a, if b == [] then NULL else b[0]);
    DistinctJoin(a, b);
  }

  /** Where the next step of a walk looks. */
  lemma OneFurther(z: nat, ns: Zone, i: nat)
    requires i < |ns|
    ensures Last(Head(z), Infos(ns[..i + 1])) == NextOf(ns[i].info)
  {
    assert ns[..i + 1] == ns[..i] + [ns[i]];
    InfosJoin(ns[..i], [ns[i]]);
    assert Infos([ns[i]]) == [ns[i].info];
  }

  /** A stretch put in the place of one node. */
  lemma Middle(ns: Zone, i: nat, mid: Zone)
    requires i < |ns|
    ensures Infos(ns[..i] + mid + ns[i + 1..]) == Infos(ns[..i]) + Infos(mid) + Infos(ns[i + 1..])
    ensures Infos(ns) == Infos(ns[..i]) + [ns[i].info] + Infos(ns[i + 1..])
  {
    InfosJoin(ns[..i] + mid, ns[i + 1..]);
    InfosJoin(ns[..i], mid);
    assert ns == ns[..i] + [ns[i]] + ns[i + 1..];
    InfosJoin(ns[..i] + [ns[i]], ns[i + 1..]);
    InfosJoin(ns[..i], [ns[i]]);
    assert Infos([ns[i]]) == [ns[i].info];
  }

  lemma PairShape(ns: Zone, i: nat, x: Node, y: Node)
    requires i < |ns| && y.info == ns[i].info
    ensures var ms := ns[i := y];
            ms[..i] == ns[..i] && Infos(ms[i..]) == Infos(ns[i..]) &&
                ns[..i] + [x, y] + ns[i + 1..] == ms[..i] + [x] + ms[i..]
  {
    var ms := ns[i := y];
    assert ms[..i] == ns[..i];
    assert ms[i..] == [y] + ns[i + 1..];
    assert ms[i..][1..] == ns[i..][1..];
  }

  lemma {:induction false} InfoAt(ns: Zone, i: nat)
    requires i < |ns|
    ensures Infos(ns)[i] == ns[i].info
    decreases ns
  {
    if i > 0 { InfoAt(ns[1..], i - 1); }
  }

  /** A new node put in at `i`. */
  lemma PutIn(store: Store, ns: Zone, i: nat, n: nat, f: Fields)
    requires Stored(store, ns) && i <= |ns| && n !in Infos(ns)
    ensures var m := ns[..i] + [Node(n, f.data, f.dataend, f.allocend)] + ns[i..];
            Infos(m) == Infos(ns[..i]) + [n] + Infos(ns[i..]) && Stored(store[n := f], m)
  {
    var x := Node(n, f.data, f.dataend, f.allocend);
    StoredKept(store, ns, n, f);
    assert ns == ns[..i] + ns[i..];
    StoredJoin(store[n := f], ns[..i], ns[i..]);
    StoredJoin(store[n := f], ns[..i], [x]);
    StoredJoin(store[n := f], ns[..i] + [x], ns[i..]);
    InfosJoin(ns[..i], [x]);
    InfosJoin(ns[..i] + [x], ns[i..]);
    assert [x][1..] == [];
  }

  lemma {:induction false} SameInfos(ns: Zone, i: nat, n: Node)
    requires i < |ns| && n.info == ns[i].info
    ensures Infos(ns[i := n]) == Infos(ns)
    decreases ns
  {
    if i > 0 {
      assert ns[i := n][1..] == ns[1..][i - 1 := n];
      SameInfos(ns[1..], i - 1, n);
    } else {
      assert ns[i := n][1..] == ns[1..];
    }
  }

  lemma {:induction false} StoredChange(store: Store, ns: Zone, i: nat, f: Fields)
    requires Stored(store, ns) && Distinct(Infos(ns)) && i < |ns|
    ensures Stored(store[ns[i].info := f], ns[i := Node(ns[i].info, f.data, f.dataend, f.allocend)])
    decreases ns
  {
    var n := Node(ns[i].info, f.data, f.dataend, f.allocend);
    InfoAt(ns, i);
    if i > 0 {
      assert ns[i := n][1..] == ns[1..][i - 1 := n];
      StoredChange(store, ns[1..], i - 1, f);
      assert Infos(ns)[1..][i - 1] == ns[i].info;
    } else {
      assert ns[i := n][1..] == ns[1..];
      StoredKept(store, ns[1..], ns[0].info, f);
    }
  }

  lemma DropsStored(store: Store, ns: Zone, i: nat)
    requires Stored(store, ns) && i < |ns|
    ensures Stored(store, Dropped(ns, i)) && Infos(Dropped(ns, i)) == Infos(ns[..i]) + Infos(ns[i + 1..])
  {
    assert ns == ns[..i] + ns[i..] && ns[i..][1..] == ns[i + 1..];
    StoredJoin(store, ns[..i], ns[i..]);
    StoredJoin(store, ns[..i], ns[i + 1..]);
    InfosJoin(ns[..i], ns[i + 1..]);
  }

  /** No earlier node is kept at the same address. */
  lemma {:induction false} FirstNamed(ns: Zone, i: nat)
    requires Distinct(Infos(ns)) && i < |ns|
    ensures forall j | 0 <= j < i :: ns[j].info != ns[i].info
    decreases ns
  {
    if i > 0 {
      FirstNamed(ns[1..], i - 1);
      InfoAt(ns, i);
      assert Infos(ns)[1..][i - 1] == ns[i].info;
      forall j | 0 <= j < i
        ensures ns[j].info != ns[i].info
      {
        if j > 0 { assert ns[1..][j - 1] == ns[j]; }
      }
    }
  }

  /** Changing one list by at most one new node keeps the lists apart. */
  lemma OneChanged(cells: Cells, backs: Backs, store: Store, zs: seq<Zone>, z: nat, ns: Zone, n: nat)
    requires z < |zs| && Lies(cells, backs, store, z, ns)
    requires forall y | 0 <= y < |zs| && y != z :: Lies(cells, backs, store, y, zs[y]) && n !in Infos(zs[y])
    requires forall y, w | 0 <= y < |zs| && 0 <= w < |zs| && y != w :: Disjoint(Infos(zs[y]), Infos(zs[w]))
    requires forall x | x in Infos(ns) :: x == n || x in Infos(zs[z])
    ensures InMemory(cells, backs, store, zs[z := ns])
  {
    var zs' := zs[z := ns];
    forall y, w | 0 <= y < |zs| && 0 <= w < |zs| && y != w
      ensures Disjoint(Infos(zs'[y]), Infos(zs'[w]))
    {
      assert Disjoint(Infos(zs[y]), Infos(zs[w]));
    }
  }

  function AsNode(n: nat, f: Fields): Node {
    Node(n, f.data, f.dataend, f.allocend)
  }

  /** A new node linked in at position `i` of zone `z`. */
  lemma LinksIn(cells: Cells, backs: Backs, store: Store, zs: seq<Zone>, z: nat, i: nat, n: nat, f: Fields)
    requires InMemory(cells, backs, store, zs) && z < |zs| && i <= |zs[z]| && IsNew(zs, n)
    ensures Last(Head(z), Infos(zs[z][..i])) in cells
    ensures var at := Last(Head(z), Infos(zs[z][..i]));
            InMemory(CellsAdd(cells, n, at), BacksAdd(cells, backs, n, at), store[n := f],
                     zs[z := zs[z][..i] + [AsNode(n, f)] + zs[z][i..]])
  {
    var ns := zs[z];
    var a, b, at := Infos(ns[..i]), Infos(ns[i..]), Last(Head(z), Infos(ns[..i]));
    assert Lies(cells, backs, store, z, ns) && n !in Infos(ns);
    Halves(cells, backs, store, z, ns, i);
    AddInserts(cells, backs, z, a, b, n);
    PutIn(store, ns, i, n, f);
    var cells', backs' := CellsAdd(cells, n, at), BacksAdd(cells, backs, n, at);
    forall y | 0 <= y < |zs| && y != z
      ensures Lies(cells', backs', store[n := f], y, zs[y]) && n !in Infos(zs[y])
    {
      assert Lies(cells, backs, store, y, zs[y]) && n !in Infos(zs[y]) && Disjoint(Infos(zs[z]), Infos(zs[y]));
      AddElsewhere(cells, backs, z, a, b, n, y, Infos(zs[y]));
      StoredKept(store, zs[y], n, f);
    }
    OneChanged(cells', backs', store[n := f], zs, z, ns[..i] + [AsNode(n, f)] + ns[i..], n);
  }

  /** A node taken out. */
  lemma LinksOut(cells: Cells, backs: Backs, store: Store, zs: seq<Zone>, z: nat, i: nat)
    requires InMemory(cells, backs, store, zs) && z < |zs| && i < |zs[z]|
    ensures var n := zs[z][i].info;
            && NextOf(n) in cells && n in backs
            && InMemory(CellsDel(cells, backs, n), BacksDel(cells, backs, n), store, zs[z := Dropped(zs[z], i)])
  {
    var ns, n := zs[z], zs[z][i].info;
    var a, b := Infos(ns[..i]), Infos(ns[i + 1..]);
    assert Lies(cells, backs, store, z, ns);
    Middle(ns, i, []);
    DelRemoves(cells, backs, z, a, b, n);
    DropsStored(store, ns, i);
    var cells', backs' := CellsDel(cells, backs, n), BacksDel(cells, backs, n);
    forall y | 0 <= y < |zs| && y != z
      ensures Lies(cells', backs', store, y, zs[y]) && n !in Infos(zs[y])
    {
      assert Lies(cells, backs, store, y, zs[y]) && Disjoint(Infos(zs[z]), Infos(zs[y]));
      DelElsewhere(cells, backs, z, a, b, n, y, Infos(zs[y]));
      assert n in Infos(ns);
    }
    OneChanged(cells', backs', store, zs, z, Dropped(ns, i), n);
  }

  /** The fields of a node changed. */
  lemma FieldsChange(cells: Cells, backs: Backs, store: Store, zs: seq<Zone>, z: nat, i: nat, f: Fields)
    requires InMemory(cells, backs, store, zs) && z < |zs| && i < |zs[z]|
    ensures var n := zs[z][i].info; InMemory(cells, backs, store[n := f], zs[z := zs[z][i := AsNode(n, f)]])
    ensures Infos(zs[z][i := AsNode(zs[z][i].info, f)]) == Infos(zs[z])
  {
    var ns, n := zs[z], zs[z][i].info;
    assert Lies(cells, backs, store, z, ns);
    StoredChange(store, ns, i, f);
    SameInfos(ns, i, AsNode(n, f));
    InfoAt(ns, i);
    forall y | 0 <= y < |zs| && y != z
      ensures Lies(cells, backs, store[n := f], y, zs[y]) && n !in Infos(zs[y])
    {
      assert Lies(cells, backs, store, y, zs[y]) && Disjoint(Infos(zs[z]), Infos(zs[y]));
      assert Infos(ns)[i] == n;
      StoredKept(store, zs[y], n, f);
    }
    OneChanged(cells, backs, store[n := f], zs, z, ns[i := AsNode(n, f)], n);
  }

  /** A block cut off the free space of node `i`, with its new node before that one. */
  lemma LinksBefore(cells: Cells, backs: Backs, store: Store, zs: seq<Zone>, z: nat, i: nat, n: nat,
                    f: Fields, g: Fields)
    requires InMemory(cells, backs, store, zs) && z < |zs| && i < |zs[z]| && IsNew(zs, n)
    ensures zs[z][i].info in backs && backs[zs[z][i].info] in cells
    ensures var info, at := zs[z][i].info, backs[zs[z][i].info];
            InMemory(CellsAdd(cells, n, at), BacksAdd(cells, backs, n, at), store[n := f][info := g],
                     zs[z := zs[z][..i] + [AsNode(n, f), AsNode(info, g)] + zs[z][i + 1..]])
  {
    var ns, info := zs[z], zs[z][i].info;
    assert Lies(cells, backs, store, z, ns) && n !in Infos(ns);
    Halves(cells, backs, store, z, ns, i);
    InfoAt(ns, i);
    FieldsChange(cells, backs, store, zs, z, i, g);
    var ms := ns[i := AsNode(info, g)];
    var zs1 := zs[z := ms];
    PairShape(ns, i, AsNode(n, f), AsNode(info, g));
    forall y | 0 <= y < |zs1|
      ensures n !in Infos(zs1[y])
    {
      assert n !in Infos(zs[y]);
    }
    LinksIn(cells, backs, store[info := g], zs1, z, i, n, f);
    assert Infos(ns)[i] == info && store[info := g][n := f] == store[n := f][info := g];
    assert zs1[z := ms[..i] + [AsNode(n, f)] + ms[i..]] == zs[z := ms[..i] + [AsNode(n, f)] + ms[i..]];
  }

  // ---------------------------------------------------------- steps on the lists

  class Lists {
    const links: Links
    var store: Store
    /** What the pointers stand for. */
    ghost var nodes: seq<Zone>

    ghost predicate Formed()
      reads this, links
    {
      InMemory(links.cells, links.backs, store, nodes)
    }

    constructor (count: nat)
      ensures Formed() && nodes == seq(count, _ => []) && fresh(links)
    {
      links := new Links.Lists(count);
      store, nodes := map[], seq(count, _ => []);
    }

    /** The search of `allocSpace`: the first node with room. */
    method Search(z: nat, size: nat, align: nat) returns (info: nat, ghost i: nat)
      requires Formed() && z < |nodes| && align > 0
      ensures i <= |nodes[z]| && (forall j | 0 <= j < i :: !Fits(nodes[z][j], size, align))
      ensures info == NULL <==> i == |nodes[z]|
      ensures i < |nodes[z]| ==> info == nodes[z][i].info && Fits(nodes[z][i], size, align)
    {
      i := 0;
      ghost var ns := nodes[z];
      assert Lies(links.cells, links.backs, store, z, ns);
      Halves(links.cells, links.backs, store, z, ns, 0);
      info := links.cells[Head(z)];
      while info != NULL
        invariant i <= |ns| && (forall j | 0 <= j < i :: !Fits(ns[j], size, align))
        invariant info == if i == |ns| then NULL else ns[i].info
        decreases |ns| - i
      {
        Halves(links.cells, links.backs, store, z, ns, i);
        var f := store[info];
        var newallocend := AlignDown(Sub32(f.allocend, size), align);
        if newallocend >= f.dataend && newallocend <= f.allocend {
          return;
        }
        OneFurther(z, ns, i);
        Halves(links.cells, links.backs, store, z, ns, i + 1);
        info := links.cells[NextOf(info)];
        i := i + 1;
      }
      Halves(links.cells, links.backs, store, z, ns, i);
    }

    /** `allocSpace`. */
    method AllocSpace(z: nat, size: nat, align: nat, fill: Option<nat>) returns (data: Option<nat>)
      requires Formed() && z < |nodes| && align > 0
      requires Alloc(nodes[z], size, align, fill).Some? ==>
                 IsNew(nodes, At(fill, Alloc(nodes[z], size, align, fill).value.1))
      modifies this, links
      ensures Formed() && |nodes| == |old(nodes)|
      ensures data == None ==> Alloc(old(nodes)[z], size, align, fill) == None && nodes == old(nodes)
      ensures data.Some? ==> nodes == old(nodes)[z := nodes[z]] &&
                             Alloc(old(nodes)[z], size, align, fill) == Some((nodes[z], data.value))
    {
      var info;
      ghost var i;
      info, i := Search(z, size, align);
      ghost var ns := nodes[z];
      if info == NULL {
        AllocScanned(ns, size, align, fill);
        return None;
      }
      AllocScan(ns, i, size, align, fill);
      var a := Reserve(info, size, align, fill, z, i);
      data := Some(a);
    }

    /** Reserves the space found in a node. */
    method Reserve(info: nat, size: nat, align: nat, fill: Option<nat>, ghost z: nat, ghost i: nat) returns (a: nat)
      requires Formed() && z < |nodes| && i < |nodes[z]| && info == nodes[z][i].info && align > 0
      requires IsNew(nodes, At(fill, Place(nodes[z][i], size, align)))
      modifies this, links
      ensures Formed() && a == Place(old(nodes)[z][i], size, align)
      ensures nodes == old(nodes)[z := Placed(old(nodes)[z], i, At(fill, a), a, size)]
    {
      ghost var ns := nodes[z];
      assert Lies(links.cells, links.backs, store, z, ns);
      Halves(links.cells, links.backs, store, z, ns, i);
      PlacedIs(ns, i, At(fill, Place(ns[i], size, align)), Place(ns[i], size, align), size);
      hide InMemory, Infos, Placed;
      var f := store[info];
      a := AlignDown(Sub32(f.allocend, size), align);
      AddBefore(At(fill, a), info, Fields(a, a + size, f.allocend), f.(allocend := a), z, i);
    }

    /** `hlist_add_before` with the fields of both nodes. */
    method AddBefore(n: nat, info: nat, f: Fields, g: Fields, ghost z: nat, ghost i: nat)
      requires Formed() && z < |nodes| && i < |nodes[z]| && info == nodes[z][i].info && IsNew(nodes, n)
      modifies this, links
      ensures Formed()
      ensures nodes == old(nodes)[z := old(nodes)[z][..i] + [AsNode(n, f), AsNode(info, g)] + old(nodes)[z][i + 1..]]
    {
      hide InMemory, CellsAdd, BacksAdd;
      LinksBefore(links.cells, links.backs, store, nodes, z, i, n, f, g);
      store := store[n := f][info := g];
      links.Add(n, links.backs[info]);
      nodes := nodes[z := nodes[z][..i] + [AsNode(n, f), AsNode(info, g)] + nodes[z][i + 1..]];
    }

    /** `freeSpace`. */
    method FreeSpace(info: nat, ghost z: nat, ghost i: nat)
      requires Formed() && z < |nodes| && i < |nodes[z]| && info == nodes[z][i].info
      modifies this, links
      ensures Formed() && nodes == old(nodes)[z := Release(old(nodes)[z], i)]
    {
      ghost var ns := nodes[z];
      ReleaseAt(ns, i);
      assert Lies(links.cells, links.backs, store, z, ns);
      Halves(links.cells, links.backs, store, z, ns, i);
      OneFurther(z, ns, i);
      Halves(links.cells, links.backs, store, z, ns, i + 1);
      var next := links.cells[NextOf(info)];
      if next != NULL && store[next].allocend == store[info].data {
        FieldsChange(links.cells, links.backs, store, nodes, z, i + 1, store[next].(allocend := store[info].allocend));
        store := store[next := store[next].(allocend := store[info].allocend)];
      }
      nodes := nodes[z := Merged(ns, i)];
      Unlink(info, z, i);
    }

    /** `hlist_del`. */
    method Unlink(info: nat, ghost z: nat, ghost i: nat)
      requires Formed() && z < |nodes| && i < |nodes[z]| && info == nodes[z][i].info
      modifies this`nodes, links
      ensures Formed() && nodes == old(nodes)[z := Dropped(old(nodes)[z], i)]
    {
      hide InMemory, CellsDel, BacksDel, Dropped;
      LinksOut(links.cells, links.backs, store, nodes, z, i);
      links.Del(info);
      nodes := nodes[z := Dropped(nodes[z], i)];
    }

    /** The first loop of `addSpace`, over the pointers that point to the nodes, and the
        temporary node put there. */
    method AddTemporary(z: nat, temp: nat, start: nat, end: nat) returns (ghost i: nat)
      requires Formed() && z < |nodes| && IsNew(nodes, temp)
      modifies this, links
      ensures Formed() && nodes == old(nodes)[z := Insert(old(nodes)[z], Node(temp, start, start, end))]
      ensures i < |nodes[z]| && nodes[z][i].info == temp && Dropped(nodes[z], i) == old(nodes)[z]
    {
      i := 0;
      var pprev := Head(z);
      ghost var ns := nodes[z];
      assert Lies(links.cells, links.backs, store, z, ns);
      Halves(links.cells, links.backs, store, z, ns, 0);
      while links.cells[pprev] != NULL && store[links.cells[pprev]].data >= start
        invariant i <= |ns| && (forall j | 0 <= j < i :: ns[j].data >= start)
        invariant pprev == Last(Head(z), Infos(ns[..i])) && pprev in links.cells
        invariant links.cells[pprev] == if i == |ns| then NULL else ns[i].info
        invariant i < |ns| ==> ns[i].info != NULL && ns[i].info in store && store[ns[i].info] == Content(ns[i])
        modifies {}
        decreases |ns| - i
      {
        OneFurther(z, ns, i);
        Halves(links.cells, links.backs, store, z, ns, i + 1);
        pprev := NextOf(links.cells[pprev]);
        i := i + 1;
      }
      TemporaryIs(ns, i, temp, start, end);
      hide InMemory, Insert, Dropped;
      LinkAt(temp, pprev, Fields(start, start, end), z, i);
    }

    /** `hlist_add` of a new node. */
    method LinkAt(n: nat, pprev: Slot, f: Fields, ghost z: nat, ghost i: nat)
      requires Formed() && z < |nodes| && i <= |nodes[z]| && IsNew(nodes, n)
      requires pprev == Last(Head(z), Infos(nodes[z][..i]))
      modifies this, links
      ensures Formed() && nodes == old(nodes)[z := old(nodes)[z][..i] + [AsNode(n, f)] + old(nodes)[z][i..]]
    {
      hide InMemory, CellsAdd, BacksAdd;
      LinksIn(links.cells, links.backs, store, nodes, z, i, n, f);
      store := store[n := f];
      links.Add(n, pprev);
      nodes := nodes[z := nodes[z][..i] + [AsNode(n, f)] + nodes[z][i..]];
    }

    /** The end of `addSpace`: the temporary node goes, and the one in the record takes
        its place behind the pointer that pointed to it. */
    method Settle(temp: nat, final: nat, ghost z: nat, ghost i: nat)
      requires Formed() && z < |nodes| && i < |nodes[z]| && nodes[z][i].info == temp && IsNew(nodes, final)
      modifies this, links
      ensures Formed() && nodes == old(nodes)[z := Rename(old(nodes)[z], temp, final)]
    {
      ghost var ns, zs := nodes[z], nodes;
      assert Lies(links.cells, links.backs, store, z, ns);
      Halves(links.cells, links.backs, store, z, ns, i);
      FirstNamed(ns, i);
      RenameAt(ns, i, temp, final);
      var pprev := links.backs[temp];
      var f := store[temp];
      Unlink(temp, z, i);
      SettledShape(ns, i, final, f);
      forall y | 0 <= y < |nodes|
        ensures final !in Infos(nodes[y])
      {
        assert final !in Infos(zs[y]);
      }
      LinkAt(final, pprev, f, z, i);
    }

    /** The inner loop of `findAlloc`. */
    method FindIn(z: nat, data: nat) returns (info: nat, ghost i: nat)
      requires Formed() && z < |nodes|
      ensures i <= |nodes[z]| && (forall j | 0 <= j < i :: nodes[z][j].data != data)
      ensures info == NULL <==> i == |nodes[z]|
      ensures i < |nodes[z]| ==> info == nodes[z][i].info && nodes[z][i].data == data
      ensures i < |nodes[z]| ==> info in store && store[info] == Content(nodes[z][i])
    {
      i := 0;
      ghost var ns := nodes[z];
      assert Lies(links.cells, links.backs, store, z, ns);
      Halves(links.cells, links.backs, store, z, ns, 0);
      info := links.cells[Head(z)];
      while info != NULL && store[info].data != data
        invariant i <= |ns| && (forall j | 0 <= j < i :: ns[j].data != data)
        invariant info == if i == |ns| then NULL else ns[i].info
        invariant i < |ns| ==> info != NULL && info in store && store[info] == Content(ns[i])
        decreases |ns| - i
      {
        OneFurther(z, ns, i);
        Halves(links.cells, links.backs, store, z, ns, i);
        Halves(links.cells, links.backs, store, z, ns, i + 1);
        info := links.cells[NextOf(info)];
        i := i + 1;
      }
    }

    /** `findAlloc`. */
    method FindAlloc(data: nat) returns (info: nat, ghost z: nat, ghost i: nat)
      requires Formed() && |nodes| == ZONES
      ensures info == NULL ==> forall y, j | 0 <= y < |nodes| && 0 <= j < |nodes[y]| :: nodes[y][j].data != data
      ensures info != NULL ==> FirstAt(nodes, z, i, data) && nodes[z][i].info == info
      ensures info != NULL ==> info in store && store[info] == Content(nodes[z][i])
    {
      z, i := 0, 0;
      var y := 0;
      while y < ZONES
        invariant y <= ZONES
        invariant forall w, j | 0 <= w < y && 0 <= j < |nodes[w]| :: nodes[w][j].data != data
      {
        info, i := FindIn(y, data);
        if info != NULL {
          z := y;
          return;
        }
        y := y + 1;
      }
      info := NULL;
    }
  }

  lemma PlacedIs(ns: Zone, i: nat, n: nat, a: nat, size: nat)
    requires i < |ns|
    ensures var f := Content(ns[i]);
            Placed(ns, i, n, a, size) ==
            ns[..i] + [AsNode(n, Fields(a, a + size, f.allocend)), AsNode(ns[i].info, f.(allocend := a))] + ns[i + 1..]
  {
  }

  lemma TemporaryIs(ns: Zone, i: nat, temp: nat, start: nat, end: nat)
    requires i <= |ns| && (forall j | 0 <= j < i :: ns[j].data >= start) && (i < |ns| ==> ns[i].data < start)
    ensures var m := ns[..i] + [AsNode(temp, Fields(start, start, end))] + ns[i..];
            && m == Insert(ns, Node(temp, start, start, end))
            && i < |m| && m[i].info == temp && Dropped(m, i) == ns
  {
    InsertScan(ns, i, Node(temp, start, start, end));
    Uninsert(ns, i, Node(temp, start, start, end));
  }

  lemma SettledShape(ns: Zone, i: nat, final: nat, f: Fields)
    requires i < |ns| && f == Content(ns[i])
    ensures var ms := Dropped(ns, i);
            && i <= |ms| && ms[..i] == ns[..i]
            && ms[..i] + [AsNode(final, f)] + ms[i..] == ns[i := ns[i].(info := final)]
            && Infos(ms) == Infos(ns[..i]) + Infos(ns[i + 1..])
            && Infos(ns) == Infos(ns[..i]) + [ns[i].info] + Infos(ns[i + 1..])
  {
    var ms := Dropped(ns, i);
    assert ms[..i] == ns[..i] && ms[i..] == ns[i + 1..];
    InfosJoin(ns[..i], ns[i + 1..]);
    Middle(ns, i, []);
  }

  // -------------------------------------------------------- new nodes are new

  lemma {:induction false} InfoHasKey(ns: Zone, x: nat) returns (k: Node)
    requires x in Infos(ns)
    ensures k in Keys(ns) && k.info == x
    decreases ns
  {
    if x == ns[0].info {
      k := Key(ns[0]);
    } else {
      k := InfoHasKey(ns[1..], x);
    }
  }

  /** Every node belongs to a tracked block, but for the temporary one. */
  predicate Known(zs: seq<Zone>, live: Tracking) {
    forall z, k | 0 <= z < |zs| && k in Keys(zs[z]) :: k.info == STACK || k in Expected(live, z)
  }

  lemma SoundIsKnown(zs: seq<Zone>, live: Tracking)
    requires Sound(zs, live)
    ensures Known(zs, live) && IsNew(zs, STACK)
  {
    Unfold(zs, live);
    SoundLists(zs, live);
    forall z, k | 0 <= z < |zs| && k in Keys(zs[z])
      ensures k in Expected(live, z)
    {
      assert Keys(zs[z]) == Expected(live, z);
    }
    forall z | 0 <= z < |zs|
      ensures STACK !in Infos(zs[z])
    {
      if STACK in Infos(zs[z]) {
        var k := InfoHasKey(zs[z], STACK);
        InfosLow(zs, live, z, k);
      }
    }
  }

  lemma RegionIsKnown(zs: seq<Zone>, live: Tracking, z: nat, start: nat, end: nat)
    requires Sound(zs, live) && z < ZONES && start < end <= TOP && AllClear(zs, start, end)
    ensures Known(WithRegion(zs, z, start, end), live)
  {
    SoundIsKnown(zs, live);
    RegionKept(zs, live, z, start, end);
    var zs1 := WithRegion(zs, z, start, end);
    forall y, k | 0 <= y < |zs1| && k in Keys(zs1[y])
      ensures k.info == STACK || k in Expected(live, y)
    {
      assert k in Keys(zs[y]) || k == Node(STACK, start, start, 0);
    }
  }

  /** No region starts at address 0, the null pointer. */
  ghost predicate OffZero(layout: seq<seq<Region>>) {
    forall z, r | 0 <= z < |layout| && r in multiset(layout[z]) :: r.start > 0
  }

  lemma {:induction false} NotContained(rs: seq<Region>)
    requires forall r | r in multiset(rs) :: r.start > 0
    ensures Containing(rs, 0) == 0
    decreases rs
  {
    if rs != [] {
      assert rs[0] in multiset(rs) && rs == [rs[0]] + rs[1..];
      NotContained(rs[1..]);
    }
  }

  lemma IdleOffZero(zs: seq<Zone>, z: nat, a: nat, b: nat)
    requires AllListed(zs) && OffZero(Layout(zs)) && z < ZONES && Idle(zs[z], a, b) && a < b
    ensures a > 0
  {
    assert Listed(zs[z]);
    LayoutAt(zs, z);
    NotContained(Regions(zs[z], TOP, false));
    Partition(zs[z], TOP, 0);
    var i := IdleAt(zs[z], a, b);
    AtIndex(zs[z], TOP, false, i);
    if a == 0 { OwnerCounts(zs[z], i, 0); }
  }

  /** Neither a new record nor the second node in it is where a node is already. */
  lemma RecordIsNew(zs: seq<Zone>, live: Tracking, t: Taken)
    requires AllListed(zs) && Exclusive(zs) && RecordsListed(zs, live) && Known(zs, live) && OffZero(Layout(zs))
    requires TakeRecord(zs) == Some(t)
    ensures IsNew(zs, t.record) && IsNew(t.zones, DataInfo(t.record))
  {
    TakeRecordAdds(zs, live);
    IdleOffZero(zs, t.home, t.record, t.record + DETAIL);
    KeysBelow(t.zones[t.home], TOP, false);
    assert RecordKey(t.record) in Keys(t.zones[t.home]) && RecordKey(t.record).dataend <= TOP;
    forall z | 0 <= z < |zs|
      ensures t.record !in Infos(zs[z]) && DataInfo(t.record) !in Infos(t.zones[z])
    {
      if t.record in Infos(zs[z]) {
        var k := InfoHasKey(zs[z], t.record);
        var o := InfoIsTracked(live, z, k);
      }
      if DataInfo(t.record) in Infos(t.zones[z]) {
        var k := InfoHasKey(t.zones[z], DataInfo(t.record));
        DataIsNew(zs, live, t, z, k);
      }
    }
  }

  lemma DataIsNew(zs: seq<Zone>, live: Tracking, t: Taken, z: nat, k: Node)
    requires Known(zs, live) && z < |zs| == ZONES && t.home < ZONES && |t.zones| == ZONES
    requires t.zones == zs[t.home := t.zones[t.home]]
    requires Keys(t.zones[t.home]) == Keys(zs[t.home]) + {RecordKey(t.record)} && t.record + DETAIL <= TOP
    requires t.record !in live && DataInfo(t.record) !in live && (forall o | o in live :: DataInfo(o) != t.record)
    requires k in Keys(t.zones[z])
    ensures k.info != DataInfo(t.record)
  {
    if k != RecordKey(t.record) {
      assert k in Keys(zs[z]);
      if k.info != STACK { var o := InfoIsTracked(live, z, k); }
    }
  }

  // ------------------------------------------------------------ the allocator

  class Allocator {
    const lists: Lists
    var handles: map<nat, nat>
    ghost var live: Tracking

    ghost predicate Valid()
      reads this, lists, lists.links
    {
      Good(Now()) && lists.Formed() && OffZero(Layout(lists.nodes))
    }

    ghost function Now(): State
      reads this, lists
    {
      State(lists.nodes, handles, live)
    }

    constructor ()
      ensures Valid() && Now() == State([[], [], [], [], []], map[], map[])
      ensures fresh(lists) && fresh(lists.links)
    {
      lists := new Lists(ZONES);
      handles, live := map[], map[];
      new;
      assert lists.nodes == [[], [], [], [], []];
      EmptyHeap();
    }

    /** Space for a tracking record, from high temporary memory or else from low. */
    method AllocDetail() returns (detail: Option<nat>)
      requires lists.Formed() && |lists.nodes| == ZONES && NewRecord(lists.nodes)
      modifies lists, lists.links
      ensures lists.Formed()
      ensures detail == None ==> TakeRecord(old(lists.nodes)) == None && lists.nodes == old(lists.nodes)
      ensures detail.Some? ==> TakeRecord(old(lists.nodes)).Some?
                               && TakeRecord(old(lists.nodes)).value.record == detail.value
                               && lists.nodes == TakeRecord(old(lists.nodes)).value.zones
    {
      detail := lists.AllocSpace(TMP_HIGH, DETAIL, MIN_ALIGN, None);
      if detail == None {
        detail := lists.AllocSpace(TMP_LOW, DETAIL, MIN_ALIGN, None);
      }
    }

    /** `addSpace`. */
    method AddSpace(z: nat, start: nat, end: nat)
      requires Valid() && z < ZONES && 0 < start < end <= TOP && AllClear(lists.nodes, start, end)
      modifies this, lists, lists.links
      ensures Valid() && Step(old(Now()), AddRegion(z, start, end), Now())
    {
      hide Alloc, TakeRecord, SoundFrom, Layout, InMemory, Settled;
      ghost var zs := lists.nodes;
      SoundIsKnown(zs, live);
      ghost var i := lists.AddTemporary(z, STACK, start, end);
      RegionFresh(zs, live, z, start, end);
      var detail := AllocDetail();
      if detail == None {
        lists.Unlink(STACK, z, i);
        assert lists.nodes == zs;
        return;
      }
      SettleInto(zs, TakeRecord(WithRegion(zs, z, start, end)).value, z, start, end, detail.value);
    }

    /** The temporary node replaced by the one in the record. */
    method SettleInto(ghost zs: seq<Zone>, ghost t: Taken, ghost z: nat, ghost start: nat, ghost end: nat, detail: nat)
      requires Sound(zs, live) && Anonymous(live, handles) && OffZero(Layout(zs))
      requires z < ZONES && 0 < start < end <= TOP && AllClear(zs, start, end)
      requires TakeRecord(WithRegion(zs, z, start, end)) == Some(t) && t.record == detail
      requires lists.Formed() && lists.nodes == t.zones && IsNew(t.zones, DataInfo(detail))
      modifies this, lists, lists.links
      ensures Valid() && Step(State(zs, old(handles), old(live)), AddRegion(z, start, end), Now())
    {
      StackIsListed(zs, live, z, start, end, t);
      ghost var y: nat, j: nat :| y < |t.zones| && j < |t.zones[y]| && t.zones[y][j].info == STACK;
      StackIsAlone(zs, live, z, start, end, t, y, j);
      lists.Settle(STACK, DataInfo(detail), z, j);
      RegionStep(State(zs, handles, live), z, start, end, t);
      handles := handles[detail := DEFAULT_HANDLE];
      live := live[detail := Detail(t.home, z, start, start)];
    }

    /** `_malloc`. */
    method Malloc(z: nat, size: nat, align: nat) returns (data: Option<nat>, ghost r: nat)
      requires Valid() && z < ZONES && PowerOfTwo(align) && size + align <= WORD
      modifies this, lists, lists.links
      ensures Valid() && Step(old(Now()), Allocate(z, size, align), Now())
      ensures data == None <==> size == 0 || !CanMalloc(old(lists.nodes), z, size, align)
      ensures data.Some? ==> r !in old(live) && r in live && live[r].data == data.value
    {
      r := 0;
      if size == 0 {
        return None, 0;
      }
      ghost var zs := lists.nodes;
      SoundFresh(zs, live);
      var detail := AllocDetail();
      if detail == None {
        NoBlockStep(Now(), z, size, align);
        return None, 0;
      }
      r := detail.value;
      data := TakeBlock(zs, TakeRecord(zs).value, detail.value, z, size, align);
    }

    /** The second half of `_malloc`, with the record in place. */
    method TakeBlock(ghost zs: seq<Zone>, ghost t: Taken, detail: nat, z: nat, size: nat, align: nat)
      returns (data: Option<nat>)
      requires Good(State(zs, handles, live)) && OffZero(Layout(zs)) && IsNew(t.zones, DataInfo(detail))
      requires z < ZONES && PowerOfTwo(align) && Reasonable(size, align)
      requires TakeRecord(zs) == Some(t) && t.record == detail && lists.Formed() && lists.nodes == t.zones
      requires z < |t.zones|
      modifies this, lists, lists.links
      ensures Valid() && Step(State(zs, old(handles), old(live)), Allocate(z, size, align), Now())
      ensures data == None <==> !CanMalloc(zs, z, size, align)
      ensures data.Some? ==> detail !in old(live) && detail in live && live[detail].data == data.value
    {
      data := lists.AllocSpace(z, size, align, Some(DataInfo(detail)));
      if data == None {
        NoBlockStep(State(zs, handles, live), z, size, align);
        GiveUp(zs, t, detail);
      } else {
        ghost var s' := BlockStep(State(zs, handles, live), z, size, align, t, lists.nodes[z], data.value);
        Enter(detail, s');
      }
    }

    /** The record filled in. */
    method Enter(detail: nat, ghost s': State)
      requires lists.Formed() && Good(s') && OffZero(Layout(s'.zones))
      requires s'.zones == lists.nodes && s'.handles == handles[detail := DEFAULT_HANDLE]
      modifies this
      ensures Valid() && Now() == s'
    {
      handles := handles[detail := DEFAULT_HANDLE];
      live := s'.live;
    }

    /** Gives the record back. */
    method GiveUp(ghost zs: seq<Zone>, ghost t: Taken, detail: nat)
      requires Sound(zs, live) && TakeRecord(zs) == Some(t) && t.record == detail
      requires lists.Formed() && lists.nodes == t.zones
      requires Anonymous(live, handles) && OffZero(Layout(zs))
      modifies lists, lists.links
      ensures Valid() && Now() == State(zs, handles, live)
    {
      RecordIsListed(zs, live, t);
      ghost var y: nat, j: nat :| y < |t.zones| && j < |t.zones[y]| && t.zones[y][j].info == t.record;
      RecordIsAlone(zs, live, t, y, j);
      lists.FreeSpace(detail, y, j);
      RecordUndone(zs, live, t, j);
    }

    /** `_free`. */
    method Free(data: nat) returns (ret: int)
      requires Valid()
      modifies this, lists, lists.links
      ensures Valid() && Step(old(Now()), GiveBack(data), Now())
      ensures ret == if exists r :: Starts(old(live), r, data) then 0 else -1
    {
      var info;
      ghost var z, i;
      info, z, i := lists.FindAlloc(data);
      if info == NULL {
        NotListedNotLive(lists.nodes, live, data);
        return -1;
      }
      if data == info || data == lists.store[info].dataend {
        RejectedNotLive(lists.nodes, live, z, i, data);
        return -1;
      }
      ghost var r := BlockFound(lists.nodes, live, z, i, data);
      FreeBoth(info, r, z, i);
      ret := 0;
    }

    method FreeBoth(info: nat, ghost r: nat, ghost z: nat, ghost i: nat)
      requires Valid() && z < ZONES && r in live && live[r].zone == z && live[r].data < live[r].dataend
      requires i < |lists.nodes[z]| && Key(lists.nodes[z][i]) == DataKey(r, live[r])
      requires info == lists.nodes[z][i].info == DataInfo(r)
      modifies this, lists, lists.links
      ensures Valid() && Step(old(Now()), GiveBack(old(live)[r].data), Now())
    {
      ghost var s := Now();
      lists.FreeSpace(info, z, i);
      ghost var home, j := RecordFollows(s, r, z, i);
      var detail := info - DATAINFO;
      lists.FreeSpace(detail, home, j);
      ReleaseStep(s, r, i, j);
      live := live - {r};
      handles := handles - {detail};
    }

    /** `malloc_sethandle`. */
    method SetHandle(data: nat, handle: nat)
      requires Valid()
      modifies `handles
      ensures Valid() && Step(old(Now()), Name(data, handle), Now())
    {
      var info;
      ghost var z, i;
      info, z, i := lists.FindAlloc(data);
      if info == NULL {
        NotListedNotLive(lists.nodes, live, data);
        return;
      }
      if data == info || data == lists.store[info].dataend {
        RejectedNotLive(lists.nodes, live, z, i, data);
        return;
      }
      ghost var r := BlockFound(lists.nodes, live, z, i, data);
      handles := handles[info - DATAINFO := handle];
      assert Starts(live, r, data);
    }
  }

  /** A record would be where no node is, and so would the second node in it. */
  ghost predicate NewRecord(zs: seq<Zone>)
    requires |zs| == ZONES
  {
    TakeRecord(zs).Some? ==>
      IsNew(zs, TakeRecord(zs).value.record) && IsNew(TakeRecord(zs).value.zones, DataInfo(TakeRecord(zs).value.record))
  }

  lemma SoundFresh(zs: seq<Zone>, live: Tracking)
    requires Sound(zs, live) && OffZero(Layout(zs))
    ensures NewRecord(zs)
  {
    Unfold(zs, live);
    SoundLists(zs, live);
    SoundIsKnown(zs, live);
    if TakeRecord(zs).Some? { RecordIsNew(zs, live, TakeRecord(zs).value); }
  }

  lemma NoBlockStep(s: State, z: nat, size: nat, align: nat)
    requires Good(s) && z < ZONES && Reasonable(size, align) && PowerOfTwo(align) && !Succeeds(s.zones, z, size, align)
    ensures Step(s, Allocate(z, size, align), s) && !CanMalloc(s.zones, z, size, align)
  {
    CanMallocIs(s.zones, s.live, z, size, align);
  }

  lemma BlockStep(s: State, z: nat, size: nat, align: nat, t: Taken, ns: Zone, a: nat) returns (s': State)
    requires Good(s) && OffZero(Layout(s.zones)) && z < ZONES && Reasonable(size, align) && PowerOfTwo(align)
    requires TakeRecord(s.zones) == Some(t) && z < |t.zones| && Block(t, z, size, align) == Some((ns, a))
    ensures s' == State(t.zones[z := ns], s.handles[t.record := DEFAULT_HANDLE],
                        s.live[t.record := Detail(t.home, z, a, a + size)])
    ensures Good(s') && Step(s, Allocate(z, size, align), s') && OffZero(Layout(s'.zones))
    ensures t.record !in s.live && CanMalloc(s.zones, z, size, align)
  {
    hide Alloc, TakeRecord, SoundFrom, Layout, Room, AfterRecord, Highest;
    CanMallocIs(s.zones, s.live, z, size, align);
    MallocTracks(s.zones, s.live, t, z, size, align, ns, a);
    TwoFits(s, z, size, align, t, (ns, a));
    s' := State(t.zones[z := ns], s.handles[t.record := DEFAULT_HANDLE],
                s.live[t.record := Detail(t.home, z, a, a + size)]);
  }

  /** So it is with the temporary node in its list. */
  lemma RegionFresh(zs: seq<Zone>, live: Tracking, z: nat, start: nat, end: nat)
    requires Sound(zs, live) && z < ZONES && 0 < start < end <= TOP && AllClear(zs, start, end) && OffZero(Layout(zs))
    ensures NewRecord(WithRegion(zs, z, start, end))
  {
    var zs1 := WithRegion(zs, z, start, end);
    Unfold(zs, live);
    RegionKept(zs, live, z, start, end);
    StillListed(zs, live, z, zs1);
    RegionIsKnown(zs, live, z, start, end);
    LayoutUpdate(zs, z, zs1[z]);
    LayoutAt(zs, z);
    StaysOffZero(Layout(zs), Layout(zs1), z, Region(start, end));
    if TakeRecord(zs1).Some? { RecordIsNew(zs1, live, TakeRecord(zs1).value); }
  }

  lemma RegionStep(s: State, z: nat, start: nat, end: nat, t: Taken)
    requires Good(s) && OffZero(Layout(s.zones)) && z < ZONES && 0 < start < end <= TOP && AllClear(s.zones, start, end)
    requires TakeRecord(WithRegion(s.zones, z, start, end)) == Some(t)
    ensures z < |t.zones|
    ensures var s' := State(Settled(t, z), s.handles[t.record := DEFAULT_HANDLE],
                            s.live[t.record := Detail(t.home, z, start, start)]);
            Step(s, AddRegion(z, start, end), s') && OffZero(Layout(s'.zones))
  {
    SpaceTracks(s.zones, s.live, z, start, end, t);
    StaysOffZero(Layout(s.zones), Layout(Settled(t, z)), z, Region(start, end));
    RegionAdded(s, z, start, end, t, Settled(t, z));
  }

  lemma RegionAdded(s: State, z: nat, start: nat, end: nat, t: Taken, zs: seq<Zone>)
    requires Good(s) && z < ZONES && 0 < start < end <= TOP && AllClear(s.zones, start, end) && t.record !in s.live
    requires TakeRecord(WithRegion(s.zones, z, start, end)) == Some(t) && z < |t.zones| && zs == Settled(t, z)
    requires Sound(zs, s.live[t.record := Detail(t.home, z, start, start)])
    ensures Step(s, AddRegion(z, start, end), State(zs, s.handles[t.record := DEFAULT_HANDLE],
                                                    s.live[t.record := Detail(t.home, z, start, start)]))
  {
    assert Joins(s, t.record, t.home, z, start, start, State(zs, s.handles[t.record := DEFAULT_HANDLE],
                                                             s.live[t.record := Detail(t.home, z, start, start)]));
  }

  /** Where the record of a block is once the block is given back. */
  lemma RecordFollows(s: State, r: nat, z: nat, i: nat) returns (home: nat, j: nat)
    requires Good(s) && r in s.live && z < ZONES && s.live[r].zone == z && i < |s.zones[z]|
    requires Key(s.zones[z][i]) == DataKey(r, s.live[r]) && !Sentinel(s.zones[z][i])
    ensures var zs := s.zones[z := Release(s.zones[z], i)];
            home == s.live[r].home < |zs| && j < |zs[home]| && zs[home][j].info == r &&
            Key(zs[home][j]) == RecordKey(r)
  {
    RecordStays(s.zones, s.live, r, z, i);
    var zs: seq<Zone> := s.zones[z := Release(s.zones[z], i)];
    home, j :| home < |zs| && j < |zs[home]| && zs[home][j].info == r;
    RecordStillAlone(s.zones, s.live, r, z, i, home, j);
  }

  lemma ReleaseStep(s: State, r: nat, i: nat, j: nat)
    requires Good(s) && OffZero(Layout(s.zones)) && r in s.live && s.live[r].data < s.live[r].dataend
    requires s.live[r].zone < ZONES && s.live[r].home < ZONES
    requires i < |s.zones[s.live[r].zone]| && Key(s.zones[s.live[r].zone][i]) == DataKey(r, s.live[r])
    requires var zs := s.zones[s.live[r].zone := Release(s.zones[s.live[r].zone], i)];
             j < |zs[s.live[r].home]| && Key(zs[s.live[r].home][j]) == RecordKey(r)
    ensures var zs := s.zones[s.live[r].zone := Release(s.zones[s.live[r].zone], i)];
            var s' := State(zs[s.live[r].home := Release(zs[s.live[r].home], j)], s.handles - {r}, s.live - {r});
            Step(s, GiveBack(s.live[r].data), s') && OffZero(Layout(s'.zones))
  {
    FreeUntracks(s.zones, s.live, r, i, j);
    assert Starts(s.live, r, s.live[r].data);
  }

  lemma StaysOffZero(before: seq<seq<Region>>, after: seq<seq<Region>>, z: nat, r: Region)
    requires OffZero(before) && z < |before| == |after| && after == before[z := after[z]] && r.start > 0
    requires multiset(after[z]) == multiset(before[z]) + multiset{r}
    ensures OffZero(after)
  {
    forall y, o | 0 <= y < |after| && o in multiset(after[y])
      ensures o.start > 0
    {
      assert o in multiset(before[y]) || o == r;
    }
  }

  // --------------------------------------------------------------------- runs

  /** A region that is added is new memory, and not at address 0. */
  predicate Clean(s: State, q: Request) {
    q.AddRegion? ==> 0 < q.start && AllClear(s.zones, q.start, q.end)
  }

  method Serve(heap: Allocator, q: Request)
    requires heap.Valid() && Acceptable(q) && Clean(heap.Now(), q)
    modifies heap, heap.lists, heap.lists.links
    ensures heap.Valid() && Step(old(heap.Now()), q, heap.Now())
  {
    match q {
      case AddRegion(z, start, end) =>
        heap.AddSpace(z, start, end);
      case Allocate(z, size, align) =>
        var data;
        ghost var r;
        data, r := heap.Malloc(z, size, align);
      case GiveBack(data) =>
        var ret := heap.Free(data);
      case Name(data, handle) =>
        heap.SetHandle(data, handle);
    }
  }

  /** The pointers follow every run of the model: whatever holds of its states holds of
      the lists in memory. */
  method Follow(heap: Allocator, requests: seq<Request>, ghost states: seq<State>)
    requires heap.Valid() && Run(states, requests) && states[0] == heap.Now()
    requires forall i | 0 <= i < |requests| :: Clean(states[i], requests[i])
    modifies heap, heap.lists, heap.lists.links
    ensures heap.Valid() && heap.Now() == states[|requests|]
  {
    var i := 0;
    while i < |requests|
      invariant i <= |requests| && heap.Valid() && heap.Now() == states[i]
    {
      assert Step(states[i], requests[i], states[i + 1]) && Clean(states[i], requests[i]);
      ghost var s := heap.Now();
      Serve(heap, requests[i]);
      StepsAgree(s, requests[i], heap.Now(), states[i + 1]);
      i := i + 1;
    }
  }
}
