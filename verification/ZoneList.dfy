/** The zone lists of seabios/src/malloc.c.  A zone is a list of `allocinfo_s` nodes
    from high addresses to low; each node owns `data..allocend`, of which
    `data..dataend` is in use and the rest is free.  A node that uses nothing is the
    sentinel that closes a region of memory given to the zone. */
module ZoneList {
  import opened Basics
  import opened Rounding

  /** `info` is the address of the node itself. */
  datatype Node = Node(info: nat, data: nat, dataend: nat, allocend: nat)
  type Zone = seq<Node>

  datatype Region = Region(start: nat, end: nat)

  const TOP := 0xFFFF_FFFF

  predicate Sentinel(n: Node) {
    n.data == n.dataend
  }

  /** What a node is apart from the free space it has at the moment. */
  function Key(n: Node): Node {
    n.(allocend := 0)
  }

  /** The list invariant, from the address `hi` down.  Behind a block (`joined`) the
      next node starts exactly where the block ends; behind a sentinel a new region
      starts anywhere lower.  The last node is a sentinel. */
  predicate Chain(ns: Zone, hi: nat, joined: bool)
    decreases ns
  {
    if ns == [] then !joined
    else
      var n := ns[0];
      && n.data <= n.dataend <= n.allocend
      && (if joined then n.allocend == hi else n.allocend <= hi)
      && Chain(ns[1..], n.data, !Sentinel(n))
  }

  /** The regions a zone manages; `top` is where the current one ends. */
  function Regions(ns: Zone, top: nat, joined: bool): seq<Region>
    decreases ns
  {
    if ns == [] then []
    else
      var t := if joined then top else ns[0].allocend;
      if Sentinel(ns[0]) then [Region(ns[0].data, t)] + Regions(ns[1..], t, false)
      else Regions(ns[1..], t, true)
  }

  function Keys(ns: Zone): set<Node>
    decreases ns
  {
    if ns == [] then {} else {Key(ns[0])} + Keys(ns[1..])
  }

  // ------------------------------------------------------------- partitioning

  function One(b: bool): nat {
    if b then 1 else 0
  }

  /** How many nodes own the byte at `x`, and how many regions contain it. */
  function Owners(ns: Zone, x: nat): nat
    decreases ns
  {
    if ns == [] then 0 else One(ns[0].data <= x < ns[0].allocend) + Owners(ns[1..], x)
  }

  function Containing(rs: seq<Region>, x: nat): nat
    decreases rs
  {
    if rs == [] then 0 else One(rs[0].start <= x < rs[0].end) + Containing(rs[1..], x)
  }

  /** The nodes of a zone partition its regions: every byte of a region is owned by
      exactly one node, and no node owns any other byte. */
  lemma Partition(ns: Zone, hi: nat, x: nat)
    requires Chain(ns, hi, false)
    ensures Owners(ns, x) == Containing(Regions(ns, hi, false), x) <= 1
  {
    PartitionFrom(ns, hi, hi, false, x);
  }

  lemma {:induction false} PartitionFrom(ns: Zone, hi: nat, top: nat, joined: bool, x: nat)
    requires Chain(ns, hi, joined) && hi <= top
    ensures Owners(ns, x) + One(joined && hi <= x < top) == Containing(Regions(ns, top, joined), x) <= 1
    ensures hi <= x ==> Owners(ns, x) == 0
    decreases ns
  {
    if ns != [] {
      var n, t := ns[0], if joined then top else ns[0].allocend;
      PartitionFrom(ns[1..], n.data, t, !Sentinel(n), x);
      if Sentinel(n) {
        var rs := Regions(ns[1..], t, false);
        assert Regions(ns, top, joined) == [Region(n.data, t)] + rs && ([Region(n.data, t)] + rs)[1..] == rs;
        assert Containing(Regions(ns, top, joined), x) == One(n.data <= x < t) + Containing(rs, x);
      }
    }
  }

  /** Blocks never overlap: each node lies wholly below every earlier one. */
  lemma {:induction false} Descending(ns: Zone, hi: nat, joined: bool, i: nat, j: nat)
    requires Chain(ns, hi, joined) && i < j < |ns|
    ensures ns[j].data <= ns[j].dataend <= ns[j].allocend <= ns[i].data <= ns[i].dataend <= ns[i].allocend <= hi
    decreases ns
  {
    if i > 0 {
      Descending(ns[1..], ns[0].data, !Sentinel(ns[0]), i - 1, j - 1);
    } else if j == 1 {
      assert ns[1..][0] == ns[1];
    } else {
      assert ns[1..][0] == ns[1] && ns[1..][j - 1] == ns[j];
      Descending(ns[1..], ns[0].data, !Sentinel(ns[0]), 0, j - 1);
    }
  }

  lemma {:induction false} AtIndex(ns: Zone, hi: nat, joined: bool, i: nat)
    requires Chain(ns, hi, joined) && i < |ns|
    ensures ns[i].data <= ns[i].dataend <= ns[i].allocend <= hi && Key(ns[i]) in Keys(ns)
    decreases ns
  {
    if i > 0 { AtIndex(ns[1..], ns[0].data, !Sentinel(ns[0]), i - 1); }
  }

  lemma {:induction false} KeyHasIndex(ns: Zone, k: Node) returns (i: nat)
    requires k in Keys(ns)
    ensures i < |ns| && Key(ns[i]) == k
    decreases ns
  {
    if k == Key(ns[0]) {
      i := 0;
    } else {
      i := KeyHasIndex(ns[1..], k);
      i := i + 1;
    }
  }

  // --------------------------------------------------- the placement arithmetic

  /** 32-bit subtraction. */
  function Sub32(a: nat, b: nat): nat {
    if a >= b then a - b else if a + WORD >= b then a + WORD - b else 0
  }

  /** Where `allocSpace` would put a block of `size` bytes in a node's free space. */
  function Place(n: Node, size: nat, align: nat): nat
    requires align > 0
  {
    AlignDown(Sub32(n.allocend, size), align)
  }

  predicate Fits(n: Node, size: nat, align: nat)
    requires align > 0
  {
    n.dataend <= Place(n, size, align) <= n.allocend
  }

  predicate Reasonable(size: nat, align: nat) {
    0 < size && 0 < align && size + align <= WORD
  }

  /** The test finds a place exactly when there is one, and the highest one. */
  lemma FitsIsRight(n: Node, size: nat, align: nat)
    requires n.dataend <= n.allocend <= TOP && Reasonable(size, align)
    ensures Fits(n, size, align) ==>
              && Aligned(Place(n, size, align), align)
              && n.dataend <= Place(n, size, align) && Place(n, size, align) + size <= n.allocend
    ensures forall a: nat | n.dataend <= a && a + size <= n.allocend && Aligned(a, align) ::
              Fits(n, size, align) && a <= Place(n, size, align)
  {
    AlignDownIsAligned(Sub32(n.allocend, size), align);
    forall a: nat | n.dataend <= a && a + size <= n.allocend && Aligned(a, align)
      ensures a <= Place(n, size, align)
    {
      AlignDownIsGreatest(n.allocend - size, a, align);
    }
  }

  lemma {:induction false} MulPow2(k: nat, j: nat)
    ensures Mul(Pow2(k), Pow2(j)) == Pow2(k + j)
  {
    MulIsProduct(Pow2(k), Pow2(j));
    Pow2Add(k, j);
  }

  lemma {:induction false} LastOfBlock(x: nat, d: nat)
    requires d > 0 && Rem(x, d) == 0 && x >= d
    ensures Rem(x - 1, d) == d - 1
    decreases x
  {
    if x >= 2 * d {
      LastOfBlock(x - d, d);
    } else {
      assert Rem(x - d, d) == x - d;
    }
  }

  /** A node in which a larger request would be placed over used memory. */
  lemma WrapsAround(size: nat, k: nat)
    requires 0 < size <= TOP && k < 32 && size + Pow2(k) > WORD
    ensures var n := Node(0, 0, 0, size - 1);
            Fits(n, size, Pow2(k)) && Place(n, size, Pow2(k)) + size > n.allocend
  {
    var align := Pow2(k);
    MulPow2(k, 32 - k);
    RemOfMultiple(align, Pow2(32 - k));
    assert Pow2(32) == WORD by { Pow2Small(); Pow2Add(8, 8); Pow2Add(16, 16); }
    Pow2Monotone(k, 32);
    LastOfBlock(WORD, align);
  }

  predicate SafeIn(lo: nat, hi: nat, size: nat, align: nat)
    requires align > 0
  {
    Fits(Node(0, lo, lo, hi), size, align) ==> Place(Node(0, lo, lo, hi), size, align) + size <= hi
  }

  /** The 32-bit test is safe for every node exactly when size and alignment together
      stay within 32 bits; beyond that a wrapped address passes it. */
  lemma SafeExactlyWhen(size: nat, k: nat)
    requires 0 < size <= TOP && k < 32
    ensures (forall lo: nat, hi: nat | lo <= hi <= TOP :: SafeIn(lo, hi, size, Pow2(k))) <==> size + Pow2(k) <= WORD
  {
    var align := Pow2(k);
    if size + align <= WORD {
      forall lo: nat, hi: nat | lo <= hi <= TOP
        ensures SafeIn(lo, hi, size, align)
      {
        FitsIsRight(Node(0, lo, lo, hi), size, align);
      }
    } else {
      WrapsAround(size, k);
      assert !SafeIn(0, size - 1, size, align);
    }
  }

  // ------------------------------------------------------------ allocSpace

  /** Where the node of a block at `a` is kept. */
  function At(fill: Option<nat>, a: nat): nat {
    if fill.Some? then fill.value else a
  }

  /** First fit from the high end.  With no `fill` the node is kept in the block
      itself. */
  function Alloc(ns: Zone, size: nat, align: nat, fill: Option<nat>): Option<(Zone, nat)>
    requires align > 0
    decreases ns
  {
    if ns == [] then None
    else if Fits(ns[0], size, align) then
      var a := Place(ns[0], size, align);
      var info := At(fill, a);
      Some(([Node(info, a, a + size, ns[0].allocend), ns[0].(allocend := a)] + ns[1..], a))
    else
      match Alloc(ns[1..], size, align, fill)
      case None => None
      case Some(t) => Some(([ns[0]] + t.0, t.1))
  }

  /** The free space of some node contains `a..b`. */
  predicate Idle(ns: Zone, a: nat, b: nat)
    decreases ns
  {
    ns != [] && (ns[0].dataend <= a <= b <= ns[0].allocend || Idle(ns[1..], a, b))
  }

  /** A block cut off the top of a node's free space. */
  lemma Cut(ns: Zone, hi: nat, top: nat, joined: bool, info: nat, a: nat, end: nat)
    requires Chain(ns, hi, joined) && ns != [] && ns[0].dataend <= a < end <= ns[0].allocend
    ensures var ns' := [Node(info, a, end, ns[0].allocend), ns[0].(allocend := a)] + ns[1..];
            Chain(ns', hi, joined) && Regions(ns', top, joined) == Regions(ns, top, joined)
  {
    var ns' := [Node(info, a, end, ns[0].allocend), ns[0].(allocend := a)] + ns[1..];
    var m := ns'[1..];
    assert m == [ns[0].(allocend := a)] + ns[1..] && m[1..] == ns[1..];
    assert Chain(m, a, true);
  }

  /** A successful allocation takes aligned free space of the right size. */
  lemma {:induction false} AllocTakesIdle(ns: Zone, hi: nat, joined: bool, size: nat, align: nat, fill: Option<nat>)
    requires Chain(ns, hi, joined) && hi <= TOP && Reasonable(size, align)
    requires Alloc(ns, size, align, fill).Some?
    ensures var a := Alloc(ns, size, align, fill).value.1; Aligned(a, align) && Idle(ns, a, a + size)
    decreases ns
  {
    if Fits(ns[0], size, align) {
      FitsIsRight(ns[0], size, align);
    } else {
      AllocTakesIdle(ns[1..], ns[0].data, !Sentinel(ns[0]), size, align, fill);
    }
  }

  /** It keeps the list invariant and the regions. */
  lemma {:induction false} AllocKeeps(ns: Zone, hi: nat, top: nat, joined: bool, size: nat, align: nat,
                                      fill: Option<nat>)
    requires Chain(ns, hi, joined) && hi <= TOP && Reasonable(size, align)
    requires Alloc(ns, size, align, fill).Some?
    ensures var ns' := Alloc(ns, size, align, fill).value.0;
            Chain(ns', hi, joined) && Regions(ns', top, joined) == Regions(ns, top, joined)
    decreases ns
  {
    var n := ns[0];
    if Fits(n, size, align) {
      FitsIsRight(n, size, align);
      var a := Place(n, size, align);
      Cut(ns, hi, top, joined, At(fill, a), a, a + size);
    } else {
      var rest := Alloc(ns[1..], size, align, fill).value.0;
      AllocKeeps(ns[1..], n.data, if joined then top else n.allocend, !Sentinel(n), size, align, fill);
      Under(n, ns[1..], rest, hi, top, joined);
      assert ns == [n] + ns[1..];
    }
  }

  /** It adds one block. */
  lemma {:induction false} AllocAdds(ns: Zone, size: nat, align: nat, fill: Option<nat>)
    requires align > 0 && Alloc(ns, size, align, fill).Some?
    ensures var (ns', a) := Alloc(ns, size, align, fill).value;
            Keys(ns') == Keys(ns) + {Node(At(fill, a), a, a + size, 0)}
    decreases ns
  {
    var (ns', a) := Alloc(ns, size, align, fill).value;
    var n := ns[0];
    if Fits(n, size, align) {
      var m := [n.(allocend := a)] + ns[1..];
      assert ns'[1..] == m && m[1..] == ns[1..] && Keys(m) == Keys(ns);
    } else {
      AllocAdds(ns[1..], size, align, fill);
      assert ns'[1..] == Alloc(ns[1..], size, align, fill).value.0;
      Regroup({Key(n)}, Keys(ns[1..]), {Node(At(fill, a), a, a + size, 0)});
    }
  }

  lemma Regroup(a: set<Node>, b: set<Node>, c: set<Node>)
    ensures a + (b + c) == a + b + c
  {
  }

  /** A change further down the list. */
  lemma Under(n: Node, rest: Zone, rest': Zone, hi: nat, top: nat, joined: bool)
    requires Chain([n] + rest, hi, joined) && Chain(rest', n.data, !Sentinel(n))
    requires var t := if joined then top else n.allocend;
             Regions(rest', t, !Sentinel(n)) == Regions(rest, t, !Sentinel(n))
    ensures Chain([n] + rest', hi, joined) && Regions([n] + rest', top, joined) == Regions([n] + rest, top, joined)
    ensures Keys([n] + rest') == {Key(n)} + Keys(rest')
  {
    assert ([n] + rest)[1..] == rest && ([n] + rest')[1..] == rest';
  }

  /** First fit from the high end is the highest possible place. */
  lemma {:induction false} AllocIsHighest(ns: Zone, hi: nat, joined: bool, size: nat, align: nat, fill: Option<nat>,
                                          b: nat)
    requires Chain(ns, hi, joined) && hi <= TOP && Reasonable(size, align)
    requires Aligned(b, align) && Idle(ns, b, b + size)
    ensures Alloc(ns, size, align, fill).Some? && b <= Alloc(ns, size, align, fill).value.1
    decreases ns
  {
    var n := ns[0];
    FitsIsRight(n, size, align);
    if !(n.dataend <= b && b + size <= n.allocend) {
      IdleBelow(ns[1..], n.data, !Sentinel(n), b, b + size);
      if !Fits(n, size, align) { AllocIsHighest(ns[1..], n.data, !Sentinel(n), size, align, fill, b); }
    }
  }

  /** Free space for an aligned block. */
  ghost predicate Room(ns: Zone, size: nat, align: nat)
    requires align > 0
  {
    exists a: nat :: Aligned(a, align) && Idle(ns, a, a + size)
  }

  /** `allocSpace` succeeds exactly when there is room. */
  lemma AllocExactlyWhen(ns: Zone, hi: nat, joined: bool, size: nat, align: nat, fill: Option<nat>)
    requires Chain(ns, hi, joined) && hi <= TOP && Reasonable(size, align)
    ensures Alloc(ns, size, align, fill).Some? <==> Room(ns, size, align)
  {
    if Alloc(ns, size, align, fill).Some? {
      AllocTakesIdle(ns, hi, joined, size, align, fill);
    }
    if Room(ns, size, align) {
      var a: nat :| Aligned(a, align) && Idle(ns, a, a + size);
      AllocIsHighest(ns, hi, joined, size, align, fill, a);
    }
  }

  /** `a` is the highest aligned place for a block in free space. */
  ghost predicate Highest(ns: Zone, a: nat, size: nat, align: nat)
    requires align > 0
  {
    && Aligned(a, align) && Idle(ns, a, a + size)
    && forall b: nat | Aligned(b, align) && Idle(ns, b, b + size) :: b <= a
  }

  lemma AllocTakesHighest(ns: Zone, hi: nat, joined: bool, size: nat, align: nat, fill: Option<nat>)
    requires Chain(ns, hi, joined) && hi <= TOP && Reasonable(size, align)
    requires Alloc(ns, size, align, fill).Some?
    ensures Highest(ns, Alloc(ns, size, align, fill).value.1, size, align)
  {
    AllocTakesIdle(ns, hi, joined, size, align, fill);
    forall b: nat | Aligned(b, align) && Idle(ns, b, b + size)
      ensures b <= Alloc(ns, size, align, fill).value.1
    {
      AllocIsHighest(ns, hi, joined, size, align, fill, b);
    }
  }

  lemma {:induction false} IdleBelow(ns: Zone, hi: nat, joined: bool, a: nat, b: nat)
    requires Chain(ns, hi, joined) && Idle(ns, a, b)
    ensures a <= b <= hi
    decreases ns
  {
    if !(ns[0].dataend <= a <= b <= ns[0].allocend) { IdleBelow(ns[1..], ns[0].data, !Sentinel(ns[0]), a, b); }
  }

  // ------------------------------------------------------------- freeSpace

  /** Takes node `i` out and gives its space to the next lower node it abuts. */
  function Release(ns: Zone, i: nat): Zone
    requires i < |ns|
    decreases ns
  {
    if i > 0 then [ns[0]] + Release(ns[1..], i - 1)
    else if |ns| > 1 && ns[1].allocend == ns[0].data then [ns[1].(allocend := ns[0].allocend)] + ns[2..]
    else ns[1..]
  }

  lemma {:induction false} ReleaseRemoves(ns: Zone, hi: nat, top: nat, joined: bool, i: nat)
    requires Chain(ns, hi, joined) && i < |ns| && !Sentinel(ns[i])
    ensures Chain(Release(ns, i), hi, joined) && Regions(Release(ns, i), top, joined) == Regions(ns, top, joined)
    ensures Keys(Release(ns, i)) == Keys(ns) - {Key(ns[i])}
    decreases ns
  {
    var n, m := ns[0], Release(ns, i);
    KeysBelow(ns[1..], n.data, !Sentinel(n));
    if i > 0 {
      ReleaseRemoves(ns[1..], n.data, if joined then top else n.allocend, !Sentinel(n), i - 1);
      assert m[1..] == Release(ns[1..], i - 1);
      AtIndex(ns[1..], n.data, !Sentinel(n), i - 1);
    } else {
      assert ns[1..][0] == ns[1] && ns[1..][1..] == ns[2..] == m[1..];
      assert Key(m[0]) == Key(ns[1]) && Keys(m) == Keys(ns[1..]);
    }
  }

  /** No block starts at or above the end of what the list may use. */
  lemma {:induction false} KeysBelow(ns: Zone, hi: nat, joined: bool)
    requires Chain(ns, hi, joined)
    ensures forall k | k in Keys(ns) :: k.data <= k.dataend <= hi
    decreases ns
  {
    if ns != [] { KeysBelow(ns[1..], ns[0].data, !Sentinel(ns[0])); }
  }

  // ------------------------------------------------- regions and blocks say it all

  predicate Solid(rs: seq<Region>)
    decreases rs
  {
    rs == [] || (rs[0].start < rs[0].end && Solid(rs[1..]))
  }

  lemma {:induction false} FirstRegion(ns: Zone, hi: nat, top: nat, joined: bool)
    requires Chain(ns, hi, joined) && ns != []
    ensures var rs := Regions(ns, top, joined);
            rs != [] && rs[0].end == if joined then top else ns[0].allocend
    decreases ns
  {
    if !Sentinel(ns[0]) {
      FirstRegion(ns[1..], ns[0].data, if joined then top else ns[0].allocend, true);
    }
  }

  lemma SolidTail(ns: Zone, top: nat, joined: bool)
    requires ns != [] && Solid(Regions(ns, top, joined))
    ensures Solid(Regions(ns[1..], if joined then top else ns[0].allocend, !Sentinel(ns[0])))
  {
    var t := if joined then top else ns[0].allocend;
    var rs := Regions(ns[1..], t, !Sentinel(ns[0]));
    assert ([Region(ns[0].data, t)] + rs)[1..] == rs;
  }

  lemma KeysStrictlyBelow(ns: Zone, hi: nat, top: nat)
    requires Chain(ns, hi, false) && Solid(Regions(ns, top, false))
    ensures forall k | k in Keys(ns) :: k.data < hi
  {
    if ns != [] { KeysBelow(ns[1..], ns[0].data, !Sentinel(ns[0])); }
  }

  /** No later node has the key of the first. */
  lemma HeadIsHighest(ns: Zone, hi: nat, top: nat, joined: bool)
    requires Chain(ns, hi, joined) && Solid(Regions(ns, top, joined)) && ns != []
    ensures forall k | k in Keys(ns[1..]) ::
              k.data <= k.dataend <= ns[0].data && (Sentinel(ns[0]) ==> k.data < ns[0].data)
    ensures Keys(ns[1..]) == Keys(ns) - {Key(ns[0])}
  {
    SolidTail(ns, top, joined);
    KeysBelow(ns[1..], ns[0].data, !Sentinel(ns[0]));
    if Sentinel(ns[0]) { KeysStrictlyBelow(ns[1..], ns[0].data, if joined then top else ns[0].allocend); }
  }

  /** A zone is determined by its regions and the blocks in them: the free space needs
      no history.  So whatever is allocated and freed in between, and in whatever order,
      a zone with the same blocks is the same zone, with the same coalesced free space. */
  lemma {:induction false} Determined(a: Zone, b: Zone, hi: nat, hi': nat, top: nat, joined: bool)
    requires Chain(a, hi, joined) && Chain(b, hi', joined) && (joined ==> hi == hi')
    requires Keys(a) == Keys(b) && Regions(a, top, joined) == Regions(b, top, joined) && Solid(Regions(a, top, joined))
    ensures a == b
    decreases a
  {
    if a != [] {
      assert Key(a[0]) in Keys(b);
      HeadIsHighest(a, hi, top, joined);
      HeadIsHighest(b, hi', top, joined);
      assert Key(b[0]) in Keys(a);
      FirstRegion(a, hi, top, joined);
      FirstRegion(b, hi', top, joined);
      var t := if joined then top else a[0].allocend;
      SolidTail(a, top, joined);
      SameTails(a, b, top, joined);
      Determined(a[1..], b[1..], a[0].data, b[0].data, t, !Sentinel(a[0]));
      assert a == [a[0]] + a[1..] && b == [b[0]] + b[1..];
    }
  }

  lemma SameTails(a: Zone, b: Zone, top: nat, joined: bool)
    requires a != [] && b != [] && a[0] == b[0] && Regions(a, top, joined) == Regions(b, top, joined)
    ensures var t := if joined then top else a[0].allocend;
            Regions(a[1..], t, !Sentinel(a[0])) == Regions(b[1..], t, !Sentinel(a[0]))
  {
    var t := if joined then top else a[0].allocend;
    var ra, rb := Regions(a[1..], t, !Sentinel(a[0])), Regions(b[1..], t, !Sentinel(a[0]));
    assert ([Region(a[0].data, t)] + ra)[1..] == ra && ([Region(a[0].data, t)] + rb)[1..] == rb;
  }

  /** A block allocated down to the very start of its region stands right before the
      sentinel that starts at the same address. */
  lemma {:induction false} BeforeEmptyNode(ns: Zone, hi: nat, top: nat, joined: bool, i: nat)
    requires Chain(ns, hi, joined) && Solid(Regions(ns, top, joined))
    requires i < |ns| && ns[i].data == ns[i].allocend
    ensures if i == 0 then joined && hi == ns[i].data else ns[i - 1].data == ns[i].data < ns[i - 1].dataend
    decreases ns
  {
    if i > 0 {
      SolidTail(ns, top, joined);
      BeforeEmptyNode(ns[1..], ns[0].data, if joined then top else ns[0].allocend, !Sentinel(ns[0]), i - 1);
    }
  }

  // ------------------------------------------------------------- addSpace

  /** A range that no node of the zone reaches into. */
  predicate Clear(ns: Zone, start: nat, end: nat)
    decreases ns
  {
    ns == [] || (((ns[0].allocend <= start && ns[0].data < start) || end <= ns[0].data) && Clear(ns[1..], start, end))
  }

  /** The new node goes before the first one that starts lower. */
  function Insert(ns: Zone, n: Node): Zone
    decreases ns
  {
    if ns == [] || ns[0].data < n.data then [n] + ns else [ns[0]] + Insert(ns[1..], n)
  }

  lemma {:induction false} InsertKeeps(ns: Zone, hi: nat, joined: bool, n: Node)
    requires Chain(ns, hi, joined) && Sentinel(n) && n.data < n.allocend <= hi && Clear(ns, n.data, n.allocend)
    ensures Chain(Insert(ns, n), hi, joined) && Keys(Insert(ns, n)) == Keys(ns) + {Key(n)}
    decreases ns
  {
    var m := Insert(ns, n);
    if ns == [] || ns[0].data < n.data {
      assert m[1..] == ns;
    } else {
      InsertKeeps(ns[1..], ns[0].data, !Sentinel(ns[0]), n);
      assert m[1..] == Insert(ns[1..], n);
    }
  }

  lemma {:induction false} InsertAddsRegion(ns: Zone, hi: nat, top: nat, joined: bool, n: Node)
    requires Chain(ns, hi, joined) && Sentinel(n) && n.data < n.allocend <= hi && Clear(ns, n.data, n.allocend)
    ensures multiset(Regions(Insert(ns, n), top, joined)) ==
            multiset(Regions(ns, top, joined)) + multiset{Region(n.data, n.allocend)}
    decreases ns
  {
    hide Regions;
    if ns == [] || ns[0].data < n.data {
      RegionsFrom(n, ns, hi, top, joined);
    } else {
      var o, t := ns[0], if joined then top else ns[0].allocend;
      InsertAddsRegion(ns[1..], o.data, t, !Sentinel(o), n);
      RegionsBehind(o, Insert(ns[1..], n), top, joined);
      RegionsBehind(o, ns[1..], top, joined);
      assert ns == [o] + ns[1..];
    }
  }

  /** A new region above all others. */
  lemma RegionsFrom(n: Node, ns: Zone, hi: nat, top: nat, joined: bool)
    requires Chain(ns, hi, joined) && Sentinel(n) && n.data < n.allocend <= hi && Clear(ns, n.data, n.allocend)
    requires ns == [] || ns[0].data < n.data
    ensures multiset(Regions([n] + ns, top, joined)) ==
            multiset(Regions(ns, top, joined)) + multiset{Region(n.data, n.allocend)}
  {
    RegionsBehind(n, ns, top, joined);
  }

  lemma {:induction false} SolidMeans(rs: seq<Region>)
    ensures Solid(rs) <==> forall r | r in multiset(rs) :: r.start < r.end
    decreases rs
  {
    if rs != [] {
      SolidMeans(rs[1..]);
      assert rs == [rs[0]] + rs[1..];
    }
  }

  lemma RegionsBehind(o: Node, rest: Zone, top: nat, joined: bool)
    ensures var t := if joined then top else o.allocend;
            multiset(Regions([o] + rest, top, joined)) ==
            multiset(Regions(rest, t, !Sentinel(o))) + if Sentinel(o) then multiset{Region(o.data, t)} else multiset{}
  {
    assert ([o] + rest)[1..] == rest;
  }

  lemma {:induction false} InsertOwns(ns: Zone, n: Node, x: nat)
    ensures Owners(Insert(ns, n), x) == Owners(ns, x) + One(n.data <= x < n.allocend)
    decreases ns
  {
    var m := Insert(ns, n);
    if ns == [] || ns[0].data < n.data {
      assert m[1..] == ns;
    } else {
      InsertOwns(ns[1..], n, x);
      assert m[1..] == Insert(ns[1..], n);
    }
  }

  lemma {:induction false} ClearMeans(ns: Zone, start: nat, end: nat, x: nat)
    requires Clear(ns, start, end) && start <= x < end
    ensures Owners(ns, x) == 0
    decreases ns
  {
    if ns != [] { ClearMeans(ns[1..], start, end, x); }
  }

  /** The node kept at `from` moves to `to`. */
  function Rename(ns: Zone, from: nat, to: nat): Zone
    decreases ns
  {
    if ns == [] then []
    else if ns[0].info == from then [ns[0].(info := to)] + ns[1..]
    else [ns[0]] + Rename(ns[1..], from, to)
  }

  lemma RenamedFirst(ns: Zone, hi: nat, top: nat, joined: bool, to: nat)
    requires Chain(ns, hi, joined) && ns != []
    ensures var m := [ns[0].(info := to)] + ns[1..];
            && Chain(m, hi, joined) && Regions(m, top, joined) == Regions(ns, top, joined)
            && Keys(m) == {Key(ns[0]).(info := to)} + Keys(ns[1..])
  {
    assert ([ns[0].(info := to)] + ns[1..])[1..] == ns[1..];
  }

  lemma {:induction false} RenameKeeps(ns: Zone, hi: nat, top: nat, joined: bool, k: Node, to: nat)
    requires Chain(ns, hi, joined) && Solid(Regions(ns, top, joined))
    requires k in Keys(ns) && forall k' | k' in Keys(ns) && k' != k :: k'.info != k.info
    ensures var m := Rename(ns, k.info, to);
            && Chain(m, hi, joined) && Regions(m, top, joined) == Regions(ns, top, joined)
            && Keys(m) == Keys(ns) - {k} + {k.(info := to)}
    decreases ns
  {
    var n, m := ns[0], Rename(ns, k.info, to);
    var t := if joined then top else n.allocend;
    HeadIsHighest(ns, hi, top, joined);
    if n.info == k.info {
      RenamedFirst(ns, hi, top, joined, to);
    } else {
      SolidTail(ns, top, joined);
      RenameKeeps(ns[1..], n.data, t, !Sentinel(n), k, to);
      Under(n, ns[1..], m[1..], hi, top, joined);
      assert ns == [n] + ns[1..];
    }
  }
}
