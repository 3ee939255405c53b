/** The allocator of seabios/src/malloc.c over its five zones: every block has a
    tracking record, and the records live in the zones they track. */
module ZoneHeap {
  import opened Basics
  import opened Rounding
  import opened ZoneList

  const TMP_LOW := 0
  const LOW := 1
  const FSEG := 2
  const TMP_HIGH := 3
  const HIGH := 4
  const ZONES := 5

  /** `sizeof(struct allocdetail_s)`, and where its `datainfo` is. */
  const DETAIL := 44
  const DATAINFO := 20
  const MIN_ALIGN := 16

  /** A tracked block: the zone of its record, its own zone, and its extent. */
  datatype Detail = Detail(home: nat, zone: nat, data: nat, dataend: nat)
  type Tracking = map<nat, Detail>

  /** The address of the second node inside a record. */
  function DataInfo(r: nat): nat {
    r + DATAINFO
  }

  function RecordKey(r: nat): Node {
    Node(r, r, r + DETAIL, 0)
  }

  function DataKey(r: nat, d: Detail): Node {
    Node(DataInfo(r), d.data, d.dataend, 0)
  }

  function RecordsIn(live: Tracking, z: nat): set<Node> {
    set r | r in live && live[r].home == z :: RecordKey(r)
  }

  function BlocksIn(live: Tracking, z: nat): set<Node> {
    set r | r in live && live[r].zone == z :: DataKey(r, live[r])
  }

  /** The nodes zone `z` must hold for the tracked blocks. */
  function Expected(live: Tracking, z: nat): set<Node> {
    RecordsIn(live, z) + BlocksIn(live, z)
  }

  function AllOwners(zs: seq<Zone>, x: nat): nat
    decreases zs
  {
    if zs == [] then 0 else Owners(zs[0], x) + AllOwners(zs[1..], x)
  }

  ghost predicate Exclusive(zs: seq<Zone>) {
    forall x: nat :: AllOwners(zs, x) <= 1
  }

  predicate Listed(ns: Zone) {
    Chain(ns, TOP, false) && Solid(Regions(ns, TOP, false))
  }

  predicate AllListed(zs: seq<Zone>) {
    |zs| == ZONES && forall z | 0 <= z < ZONES :: Listed(zs[z])
  }

  predicate Tracks(zs: seq<Zone>, live: Tracking) {
    |zs| == ZONES && forall z | 0 <= z < ZONES :: Keys(zs[z]) == Expected(live, z)
  }

  predicate WellTracked(live: Tracking) {
    forall r | r in live :: Record(r, live)
  }

  predicate Record(r: nat, live: Tracking) {
    && r in live && (live[r].home == TMP_LOW || live[r].home == TMP_HIGH) && live[r].zone < ZONES
    && DataInfo(r) !in live
  }

  /** The invariant: every zone is a well-formed list, no byte has two owners, and the
      nodes are exactly the tracked blocks and their records. */
  ghost predicate Sound(zs: seq<Zone>, live: Tracking) {
    |zs| == ZONES && SoundFrom(zs, live, 0)
  }

  ghost predicate SoundFrom(zs: seq<Zone>, live: Tracking, z: nat)
    requires |zs| == ZONES && z <= ZONES
    decreases zs, ZONES - z
  {
    if z == ZONES then Exclusive(zs) && WellTracked(live)
    else Listed(zs[z]) && Keys(zs[z]) == Expected(live, z) && SoundFrom(zs, live, z + 1)
  }

  lemma {:induction false} SoundFromMeans(zs: seq<Zone>, live: Tracking, z: nat)
    requires |zs| == ZONES && z <= ZONES
    ensures SoundFrom(zs, live, z) <==>
            && (forall y | z <= y < ZONES :: Listed(zs[y]))
            && (forall y | z <= y < ZONES :: Keys(zs[y]) == Expected(live, y))
            && Exclusive(zs) && WellTracked(live)
    decreases ZONES - z
  {
    if z < ZONES { SoundFromMeans(zs, live, z + 1); }
  }

  lemma Unfold(zs: seq<Zone>, live: Tracking)
    requires Sound(zs, live)
    ensures AllListed(zs) && Exclusive(zs) && Tracks(zs, live) && WellTracked(live)
  {
    SoundFromMeans(zs, live, 0);
  }

  lemma Fold(zs: seq<Zone>, live: Tracking)
    requires AllListed(zs) && Exclusive(zs) && Tracks(zs, live) && WellTracked(live)
    ensures Sound(zs, live)
  {
    SoundFromMeans(zs, live, 0);
  }

  // ------------------------------------------------------- one byte, one owner

  predicate Owns(n: Node, x: nat) {
    n.data <= x < n.allocend
  }

  lemma {:induction false} OwnerCounts(ns: Zone, i: nat, x: nat)
    requires i < |ns| && Owns(ns[i], x)
    ensures Owners(ns, x) >= 1
    decreases ns
  {
    if i > 0 { OwnerCounts(ns[1..], i - 1, x); }
  }

  lemma {:induction false} TwoOwnersCount(ns: Zone, i: nat, j: nat, x: nat)
    requires i < j < |ns| && Owns(ns[i], x) && Owns(ns[j], x)
    ensures Owners(ns, x) >= 2
    decreases ns
  {
    if i > 0 {
      TwoOwnersCount(ns[1..], i - 1, j - 1, x);
    } else {
      OwnerCounts(ns[1..], j - 1, x);
    }
  }

  lemma {:induction false} ZoneCounts(zs: seq<Zone>, z: nat, x: nat)
    requires z < |zs|
    ensures AllOwners(zs, x) >= Owners(zs[z], x)
    decreases zs
  {
    if z > 0 { ZoneCounts(zs[1..], z - 1, x); }
  }

  lemma {:induction false} TwoZonesCount(zs: seq<Zone>, y: nat, z: nat, x: nat)
    requires y < z < |zs|
    ensures AllOwners(zs, x) >= Owners(zs[y], x) + Owners(zs[z], x)
    decreases zs
  {
    if y > 0 {
      TwoZonesCount(zs[1..], y - 1, z - 1, x);
    } else {
      ZoneCounts(zs[1..], z - 1, x);
    }
  }

  /** Two nodes that own the same byte are the same node. */
  lemma OneOwner(zs: seq<Zone>, y: nat, i: nat, z: nat, j: nat, x: nat)
    requires Exclusive(zs) && y < |zs| && z < |zs| && i < |zs[y]| && j < |zs[z]|
    requires Owns(zs[y][i], x) && Owns(zs[z][j], x)
    ensures y == z && i == j
  {
    assert AllOwners(zs, x) <= 1;
    OwnerCounts(zs[y], i, x);
    OwnerCounts(zs[z], j, x);
    ZoneCounts(zs, y, x);
    if y < z { TwoZonesCount(zs, y, z, x); }
    if z < y { TwoZonesCount(zs, z, y, x); }
    if y == z && i < j { TwoOwnersCount(zs[y], i, j, x); }
    if y == z && j < i { TwoOwnersCount(zs[y], j, i, x); }
  }

  lemma {:induction false} IdleAt(ns: Zone, a: nat, b: nat) returns (i: nat)
    requires Idle(ns, a, b)
    ensures i < |ns| && ns[i].dataend <= a <= b <= ns[i].allocend
    decreases ns
  {
    if ns[0].dataend <= a <= b <= ns[0].allocend {
      i := 0;
    } else {
      i := IdleAt(ns[1..], a, b);
      i := i + 1;
    }
  }

  /** Free space is in no block. */
  lemma IdleIsUnused(zs: seq<Zone>, y: nat, a: nat, b: nat, z: nat, k: Node, x: nat)
    requires AllListed(zs) && Exclusive(zs) && y < ZONES && z < ZONES
    requires Idle(zs[y], a, b) && a <= x < b && k in Keys(zs[z])
    ensures !(k.data <= x < k.dataend)
  {
    var i := IdleAt(zs[y], a, b);
    var j := KeyHasIndex(zs[z], k);
    AtIndex(zs[y], TOP, false, i);
    AtIndex(zs[z], TOP, false, j);
    if k.data <= x < k.dataend {
      OneOwner(zs, y, i, z, j, x);
    }
  }

  /** Replacing a zone by one that owns the same bytes. */
  lemma {:induction false} ReplaceZone(zs: seq<Zone>, z: nat, ns: Zone, x: nat, more: nat)
    requires z < |zs| && Owners(ns, x) == Owners(zs[z], x) + more
    ensures AllOwners(zs[z := ns], x) == AllOwners(zs, x) + more
    decreases zs
  {
    if z == 0 {
      assert zs[z := ns][1..] == zs[1..];
    } else {
      assert zs[z := ns][1..] == zs[1..][z - 1 := ns];
      ReplaceZone(zs[1..], z - 1, ns, x, more);
    }
  }

  /** The regions of every zone. */
  function Layout(zs: seq<Zone>): (l: seq<seq<Region>>)
    ensures |l| == |zs|
    decreases zs
  {
    if zs == [] then [] else [Regions(zs[0], TOP, false)] + Layout(zs[1..])
  }

  lemma {:induction false} LayoutAt(zs: seq<Zone>, z: nat)
    requires z < |zs|
    ensures Layout(zs)[z] == Regions(zs[z], TOP, false)
    decreases zs
  {
    if z > 0 { LayoutAt(zs[1..], z - 1); }
  }

  lemma {:induction false} LayoutUpdate(zs: seq<Zone>, z: nat, ns: Zone)
    requires z < |zs|
    ensures Layout(zs[z := ns]) == Layout(zs)[z := Regions(ns, TOP, false)]
    decreases zs
  {
    if z == 0 {
      assert zs[z := ns][1..] == zs[1..];
    } else {
      assert zs[z := ns][1..] == zs[1..][z - 1 := ns];
      LayoutUpdate(zs[1..], z - 1, ns);
    }
  }

  lemma SameLayout(zs: seq<Zone>, z: nat, ns: Zone)
    requires z < |zs| && Regions(ns, TOP, false) == Regions(zs[z], TOP, false)
    ensures Layout(zs[z := ns]) == Layout(zs)
  {
    LayoutUpdate(zs, z, ns);
    LayoutAt(zs, z);
  }

  lemma SameRegionsSameOwners(zs: seq<Zone>, z: nat, ns: Zone)
    requires AllListed(zs) && Exclusive(zs) && z < ZONES
    requires Chain(ns, TOP, false) && Regions(ns, TOP, false) == Regions(zs[z], TOP, false)
    ensures AllListed(zs[z := ns]) && Exclusive(zs[z := ns]) && Layout(zs[z := ns]) == Layout(zs)
  {
    SameLayout(zs, z, ns);
    var zs' := zs[z := ns];
    forall x: nat ensures AllOwners(zs', x) <= 1 {
      Partition(ns, TOP, x);
      Partition(zs[z], TOP, x);
      ReplaceZone(zs, z, ns, x, 0);
      assert AllOwners(zs, x) <= 1;
    }
  }

  // ---------------------------------------------------------- tracking records

  /** The lists after a record was placed in zone `home` at `record`. */
  datatype Taken = Taken(zones: seq<Zone>, home: nat, record: nat)

  /** A record comes from high temporary memory, or else from low. */
  function TakeRecord(zs: seq<Zone>): Option<Taken>
    requires |zs| == ZONES
  {
    match Alloc(zs[TMP_HIGH], DETAIL, MIN_ALIGN, None)
    case Some(t) => Some(Taken(zs[TMP_HIGH := t.0], TMP_HIGH, t.1))
    case None =>
      match Alloc(zs[TMP_LOW], DETAIL, MIN_ALIGN, None)
      case Some(t) => Some(Taken(zs[TMP_LOW := t.0], TMP_LOW, t.1))
      case None => None
  }

  /** All records so far are in their zones. */
  predicate RecordsListed(zs: seq<Zone>, live: Tracking) {
    |zs| == ZONES && forall r | r in live :: live[r].home < ZONES && RecordKey(r) in Keys(zs[live[r].home])
  }

  /** A new record overlaps no other. */
  lemma TakeRecordAdds(zs: seq<Zone>, live: Tracking)
    requires AllListed(zs) && Exclusive(zs) && RecordsListed(zs, live) && TakeRecord(zs).Some?
    ensures var Taken(zs', home, r) := TakeRecord(zs).value;
            && (home == TMP_LOW || home == TMP_HIGH) && zs' == zs[home := zs'[home]]
            && AllListed(zs') && Exclusive(zs')
            && Layout(zs') == Layout(zs)
            && Keys(zs'[home]) == Keys(zs[home]) + {RecordKey(r)}
            && Idle(zs[home], r, r + DETAIL)
            && r !in live && DataInfo(r) !in live && (forall o | o in live :: DataInfo(o) != r)
  {
    hide Alloc, Keys, Layout, AllOwners, Idle;
    var Taken(zs', home, r) := TakeRecord(zs).value;
    AllocKeepsLists(zs, home, DETAIL, MIN_ALIGN, None);
    if r in live { IdleIsUnused(zs, home, r, r + DETAIL, live[r].home, RecordKey(r), r); }
    if DataInfo(r) in live {
      IdleIsUnused(zs, home, r, r + DETAIL, live[DataInfo(r)].home, RecordKey(DataInfo(r)), DataInfo(r));
    }
    forall o | o in live
      ensures DataInfo(o) != r
    {
      if DataInfo(o) == r { IdleIsUnused(zs, home, r, r + DETAIL, live[o].home, RecordKey(o), r); }
    }
  }

  lemma ExpectedAdd(live: Tracking, r: nat, d: Detail, z: nat)
    requires r !in live
    ensures Expected(live[r := d], z) == Expected(live, z) + Added(r, d, z)
  {
    var after := live[r := d];
    assert forall o | o in live :: o in after && after[o] == live[o];
    assert RecordsIn(after, z) == RecordsIn(live, z) + if d.home == z then {RecordKey(r)} else {};
    assert BlocksIn(after, z) == BlocksIn(live, z) + if d.zone == z then {DataKey(r, d)} else {};
  }

  lemma ExpectedRemove(live: Tracking, r: nat, z: nat)
    requires r in live && forall o | o in live :: DataInfo(o) !in live
    ensures Expected(live - {r}, z) == Expected(live, z) - (if live[r].home == z then {RecordKey(r)} else {}) -
                                       (if live[r].zone == z then {DataKey(r, live[r])} else {})
  {
    var after := live - {r};
    assert forall o | o in after :: o in live && after[o] == live[o];
    assert forall o | o in live && o != r :: o in after;
  }

  /** The tracked blocks determine everything: two sound heaps over the same regions
      with the same blocks are the same, down to how free space is coalesced. */
  lemma SameBlocksSameHeap(zs: seq<Zone>, zs': seq<Zone>, live: Tracking)
    requires Sound(zs, live) && Sound(zs', live) && Layout(zs') == Layout(zs)
    ensures zs == zs'
  {
    Unfold(zs, live);
    Unfold(zs', live);
    forall z | 0 <= z < ZONES
      ensures zs[z] == zs'[z]
    {
      LayoutAt(zs, z);
      LayoutAt(zs', z);
      Determined(zs[z], zs'[z], TOP, TOP, TOP, false);
    }
  }

  predicate InBlock(live: Tracking, r: nat, x: nat) {
    r in live && live[r].data <= x < live[r].dataend
  }

  predicate InRecord(live: Tracking, r: nat, x: nat) {
    r in live && r <= x < r + DETAIL
  }

  /** Memory in use never overlaps: blocks, records, and a block and any record, its
      own included. */
  lemma NeverOverlap(zs: seq<Zone>, live: Tracking, r: nat, o: nat, x: nat)
    requires Sound(zs, live)
    ensures InBlock(live, r, x) && InBlock(live, o, x) ==> r == o
    ensures InRecord(live, r, x) && InRecord(live, o, x) ==> r == o
    ensures !(InBlock(live, r, x) && InRecord(live, o, x))
  {
    if r in live && o in live {
      Unfold(zs, live);
      assert Record(r, live);
      var y, i := BlockAt(zs, live, r);
      var y', i' := BlockAt(zs, live, o);
      var z, j := RecordAt(zs, live, r);
      var z', j' := RecordAt(zs, live, o);
      if InBlock(live, r, x) && InBlock(live, o, x) { OneOwner(zs, y, i, y', i', x); }
      if InRecord(live, r, x) && InRecord(live, o, x) { OneOwner(zs, z, j, z', j', x); }
      if InBlock(live, r, x) && InRecord(live, o, x) {
        OneOwner(zs, y, i, z', j', x);
      }
    }
  }

  lemma BlockAt(zs: seq<Zone>, live: Tracking, r: nat) returns (z: nat, i: nat)
    requires Sound(zs, live) && r in live
    ensures z == live[r].zone < ZONES && i < |zs[z]|
    ensures Key(zs[z][i]) == DataKey(r, live[r]) && zs[z][i].dataend <= zs[z][i].allocend
  {
    Unfold(zs, live);
    z := live[r].zone;
    assert Record(r, live) && Keys(zs[z]) == Expected(live, z);
    assert DataKey(r, live[r]) in Keys(zs[z]);
    i := KeyHasIndex(zs[z], DataKey(r, live[r]));
    AtIndex(zs[z], TOP, false, i);
  }

  lemma RecordAt(zs: seq<Zone>, live: Tracking, r: nat) returns (z: nat, i: nat)
    requires Sound(zs, live) && r in live
    ensures z == live[r].home < ZONES && i < |zs[z]|
    ensures Key(zs[z][i]) == RecordKey(r) && zs[z][i].dataend <= zs[z][i].allocend
  {
    Unfold(zs, live);
    z := live[r].home;
    assert Record(r, live) && Keys(zs[z]) == Expected(live, z);
    assert RecordKey(r) in Keys(zs[z]);
    i := KeyHasIndex(zs[z], RecordKey(r));
    AtIndex(zs[z], TOP, false, i);
  }

  /** No two nodes are kept at the same address. */
  lemma NodesApart(zs: seq<Zone>, live: Tracking, y: nat, k: Node, z: nat, k': Node)
    requires Sound(zs, live) && y < ZONES && z < ZONES && k in Keys(zs[y]) && k' in Keys(zs[z]) && k.info == k'.info
    ensures k == k' && y == z
  {
    Unfold(zs, live);
    assert k in Expected(live, y) && k' in Expected(live, z);
    forall r, o | r in live && o in live
      ensures DataInfo(r) != o
    {
      assert Record(r, live);
    }
  }

  // --------------------------------------------------------------- _malloc

  /** The block a request gets once its record is taken. */
  function Block(t: Taken, z: nat, size: nat, align: nat): Option<(Zone, nat)>
    requires z < |t.zones| && align > 0
  {
    Alloc(t.zones[z], size, align, Some(DataInfo(t.record)))
  }

  /** A block gets aligned free space of its size; it and its record are tracked, and
      nothing else changes. */
  lemma MallocTracks(zs: seq<Zone>, live: Tracking, t: Taken, z: nat, size: nat, align: nat, ns: Zone, a: nat)
    requires Sound(zs, live) && z < ZONES && Reasonable(size, align)
    requires TakeRecord(zs) == Some(t) && z < |t.zones| && Block(t, z, size, align) == Some((ns, a))
    ensures t.record !in live && Sound(t.zones[z := ns], live[t.record := Detail(t.home, z, a, a + size)])
    ensures Layout(t.zones[z := ns]) == Layout(zs)
    ensures Aligned(a, align) && Idle(t.zones[z], a, a + size)
  {
    Unfold(zs, live);
    TakeRecordAdds(zs, live);
    BlockAdded(zs, live, t, z, size, align, ns, a);
  }

  /** The second allocation, once the record is taken. */
  lemma BlockAdded(zs: seq<Zone>, live: Tracking, t: Taken, z: nat, size: nat, align: nat, ns: Zone, a: nat)
    requires Sound(zs, live) && z < ZONES && Reasonable(size, align) && AllListed(t.zones) && Exclusive(t.zones)
    requires (t.home == TMP_LOW || t.home == TMP_HIGH) && t.zones == zs[t.home := t.zones[t.home]] &&
             Layout(t.zones) == Layout(zs)
    requires Keys(t.zones[t.home]) == Keys(zs[t.home]) + {RecordKey(t.record)}
    requires t.record !in live && DataInfo(t.record) !in live && (forall o | o in live :: DataInfo(o) != t.record)
    requires Block(t, z, size, align) == Some((ns, a))
    ensures Sound(t.zones[z := ns], live[t.record := Detail(t.home, z, a, a + size)]) &&
            Layout(t.zones[z := ns]) == Layout(zs)
    ensures Aligned(a, align) && Idle(t.zones[z], a, a + size)
  {
    hide Alloc, Keys, Layout, SoundFrom, Expected, AllOwners, Idle;
    Unfold(zs, live);
    AllocKeepsLists(t.zones, z, size, align, Some(DataInfo(t.record)));
    TwoNodesAdded(zs, t.zones[t.home], ns, t.record, Detail(t.home, z, a, a + size));
    TracksOneMore(zs, t.zones[z := ns], live, t.record, Detail(t.home, z, a, a + size));
    Fold(t.zones[z := ns], live[t.record := Detail(t.home, z, a, a + size)]);
  }

  lemma TwoNodesAdded(zs: seq<Zone>, ms: Zone, ns: Zone, r: nat, d: Detail)
    requires |zs| == ZONES && d.home < ZONES && d.zone < ZONES
    requires Keys(ms) == Keys(zs[d.home]) + {RecordKey(r)}
    requires Keys(ns) == Keys(zs[d.home := ms][d.zone]) + {DataKey(r, d)}
    ensures forall y | 0 <= y < ZONES :: Keys(zs[d.home := ms][d.zone := ns][y]) == Keys(zs[y]) + Added(r, d, y)
  {
    var zs1 := zs[d.home := ms];
    var zs' := zs1[d.zone := ns];
    forall y | 0 <= y < ZONES
      ensures Keys(zs'[y]) == Keys(zs[y]) + Added(r, d, y)
    {
      assert Keys(zs1[y]) == Keys(zs[y]) + if d.home == y then {RecordKey(r)} else {};
      assert Keys(zs'[y]) == Keys(zs1[y]) + if d.zone == y then {DataKey(r, d)} else {};
    }
  }

  lemma AllocKeepsLists(zs: seq<Zone>, z: nat, size: nat, align: nat, fill: Option<nat>)
    requires AllListed(zs) && Exclusive(zs) && z < ZONES && Reasonable(size, align)
    requires Alloc(zs[z], size, align, fill).Some?
    ensures var (ns, a) := Alloc(zs[z], size, align, fill).value;
            && AllListed(zs[z := ns]) && Exclusive(zs[z := ns]) && Layout(zs[z := ns]) == Layout(zs)
            && Keys(ns) == Keys(zs[z]) + {Node(At(fill, a), a, a + size, 0)}
            && Aligned(a, align) && Idle(zs[z], a, a + size)
  {
    AllocKeeps(zs[z], TOP, TOP, false, size, align, fill);
    AllocAdds(zs[z], size, align, fill);
    AllocTakesIdle(zs[z], TOP, false, size, align, fill);
    SameRegionsSameOwners(zs, z, Alloc(zs[z], size, align, fill).value.0);
  }

  /** The nodes of one more block, and of its record. */
  function Added(r: nat, d: Detail, z: nat): set<Node> {
    (if d.home == z then {RecordKey(r)} else {}) + (if d.zone == z then {DataKey(r, d)} else {})
  }

  lemma TracksOneMore(zs: seq<Zone>, zs': seq<Zone>, live: Tracking, r: nat, d: Detail)
    requires Tracks(zs, live) && WellTracked(live) && |zs'| == ZONES
    requires (d.home == TMP_LOW || d.home == TMP_HIGH) && d.zone < ZONES
    requires r !in live && DataInfo(r) !in live && (forall o | o in live :: DataInfo(o) != r)
    requires forall z | 0 <= z < ZONES :: Keys(zs'[z]) == Keys(zs[z]) + Added(r, d, z)
    ensures Tracks(zs', live[r := d]) && WellTracked(live[r := d])
  {
    var live' := live[r := d];
    forall z | 0 <= z < ZONES
      ensures Keys(zs'[z]) == Expected(live', z)
    {
      ExpectedAdd(live, r, d, z);
      assert Keys(zs[z]) == Expected(live, z);
    }
    forall o | o in live'
      ensures Record(o, live')
    {
      assert o != r ==> Record(o, live);
    }
  }

  // ----------------------------------------------------------------- _free

  lemma ReleaseKeepsLists(zs: seq<Zone>, z: nat, i: nat)
    requires AllListed(zs) && Exclusive(zs) && z < ZONES && i < |zs[z]| && !Sentinel(zs[z][i])
    ensures var zs' := zs[z := Release(zs[z], i)];
            && AllListed(zs') && Exclusive(zs') && Layout(zs') == Layout(zs)
            && Keys(zs'[z]) == Keys(zs[z]) - {Key(zs[z][i])}
  {
    ReleaseRemoves(zs[z], TOP, TOP, false, i);
    SameRegionsSameOwners(zs, z, Release(zs[z], i));
  }

  /** Freeing a block untracks it, and nothing else changes. */
  lemma FreeUntracks(zs: seq<Zone>, live: Tracking, r: nat, i: nat, j: nat)
    requires Sound(zs, live) && r in live && live[r].data < live[r].dataend && live[r].zone < ZONES &&
             live[r].home < ZONES
    requires i < |zs[live[r].zone]| && Key(zs[live[r].zone][i]) == DataKey(r, live[r])
    requires var zs1 := zs[live[r].zone := Release(zs[live[r].zone], i)];
             j < |zs1[live[r].home]| && Key(zs1[live[r].home][j]) == RecordKey(r)
    ensures var zs1 := zs[live[r].zone := Release(zs[live[r].zone], i)];
            var zs' := zs1[live[r].home := Release(zs1[live[r].home], j)];
            Sound(zs', live - {r}) && Layout(zs') == Layout(zs)
  {
    Unfold(zs, live);
    var z, home := live[r].zone, live[r].home;
    ReleaseKeepsLists(zs, z, i);
    var zs1 := zs[z := Release(zs[z], i)];
    ReleaseKeepsLists(zs1, home, j);
    var zs' := zs1[home := Release(zs1[home], j)];
    forall o | o in live
      ensures Record(o, live) && DataInfo(o) !in live
    {
    }
    forall y | 0 <= y < ZONES
      ensures Keys(zs'[y]) == Expected(live - {r}, y)
    {
      ExpectedRemove(live, r, y);
      assert Keys(zs[y]) == Expected(live, y);
    }
    forall o | o in live - {r}
      ensures Record(o, live - {r})
    {
      assert Record(o, live);
    }
    Fold(zs', live - {r});
  }

  /** Giving back a record that nothing uses yet undoes taking it. */
  lemma RecordUndone(zs: seq<Zone>, live: Tracking, t: Taken, j: nat)
    requires Sound(zs, live) && TakeRecord(zs) == Some(t)
    requires t.home < |t.zones| && j < |t.zones[t.home]| && Key(t.zones[t.home][j]) == RecordKey(t.record)
    ensures t.zones[t.home := Release(t.zones[t.home], j)] == zs
  {
    hide Alloc, Release, Layout, SoundFrom, AllOwners, Idle, Solid, Regions;
    Unfold(zs, live);
    TakeRecordAdds(zs, live);
    var home := t.home;
    ReleaseKeepsLists(t.zones, home, j);
    assert RecordKey(t.record) !in Expected(live, home);
    assert Keys(zs[home]) == Expected(live, home);
    var ns := Release(t.zones[home], j);
    assert Keys(ns) == Keys(zs[home]);
    LayoutAt(t.zones[home := ns], home);
    LayoutAt(zs, home);
    Determined(ns, zs[home], TOP, TOP, TOP, false);
  }

  // ------------------------------------------------------------- findAlloc

  /** The first node that starts at `data`, zone by zone. */
  ghost predicate FirstAt(zs: seq<Zone>, z: nat, i: nat, data: nat) {
    && z < |zs| && i < |zs[z]| && zs[z][i].data == data
    && (forall j | 0 <= j < i :: zs[z][j].data != data)
  }

  /** When a block starts at `data`, the search ends at that block and not at a
      sentinel with the same address. */
  lemma FindsTheBlock(zs: seq<Zone>, live: Tracking, z: nat, i: nat, data: nat, r: nat)
    requires Sound(zs, live) && z < ZONES && FirstAt(zs, z, i, data)
    requires r in live && live[r].data == data < live[r].dataend
    ensures z == live[r].zone && Key(zs[z][i]) == DataKey(r, live[r])
  {
    Unfold(zs, live);
    var y := live[r].zone;
    assert Record(r, live) && Keys(zs[y]) == Expected(live, y);
    assert DataKey(r, live[r]) in Keys(zs[y]);
    var j := KeyHasIndex(zs[y], DataKey(r, live[r]));
    AtIndex(zs[y], TOP, false, j);
    AtIndex(zs[z], TOP, false, i);
    if zs[z][i].allocend == data {
      BeforeEmptyNode(zs[z], TOP, TOP, false, i);
    }
    OneOwner(zs, z, i, y, j, data);
  }

  /** Whatever node the search ends at is a sentinel, a record (which starts at its own
      address), or the block of a record. */
  lemma WhatIsFound(zs: seq<Zone>, live: Tracking, z: nat, i: nat) returns (r: nat)
    requires Sound(zs, live) && z < ZONES && i < |zs[z]|
    ensures r in live
    ensures if zs[z][i].data == zs[z][i].info then Key(zs[z][i]) == RecordKey(r) && live[r].home == z
            else Key(zs[z][i]) == DataKey(r, live[r]) && live[r].zone == z
  {
    Unfold(zs, live);
    var k := Key(zs[z][i]);
    AtIndex(zs[z], TOP, false, i);
    assert k in Expected(live, z);
    r :| r in live && ((k == RecordKey(r) && live[r].home == z) || (k == DataKey(r, live[r]) && live[r].zone == z));
    if k == DataKey(r, live[r]) && live[r].zone == z {
      NotItsOwnRecord(zs, live, r, z, i);
    }
  }

  /** A block or region never starts at the address of its own node. */
  lemma NotItsOwnRecord(zs: seq<Zone>, live: Tracking, r: nat, z: nat, i: nat)
    requires Sound(zs, live) && r in live && live[r].zone == z && z < ZONES
    requires i < |zs[z]| && Key(zs[z][i]) == DataKey(r, live[r])
    ensures live[r].data != DataInfo(r)
  {
    Unfold(zs, live);
    var home, x := live[r].home, DataInfo(r);
    assert Record(r, live) && Keys(zs[home]) == Expected(live, home);
    assert RecordKey(r) in Keys(zs[home]);
    var j := KeyHasIndex(zs[home], RecordKey(r));
    AtIndex(zs[home], TOP, false, j);
    AtIndex(zs[z], TOP, false, i);
    if live[r].data == x {
      if zs[z][i].allocend == x {
        BeforeEmptyNode(zs[z], TOP, TOP, false, i);
        AtIndex(zs[z], TOP, false, i - 1);
        Descending(zs[z], TOP, false, i - 1, i);
        OneOwner(zs, z, i - 1, home, j, x);
      } else {
        OneOwner(zs, z, i, home, j, x);
      }
    }
  }

  // -------------------------------------------------------------- addSpace

  /** Where the temporary node is: an address no zone manages. */
  const STACK := WORD

  function Region0(start: nat, end: nat): Node {
    Node(STACK, start, start, end)
  }

  /** The lists with the new region in them, its node not yet moved to its record. */
  function WithRegion(zs: seq<Zone>, z: nat, start: nat, end: nat): seq<Zone>
    requires z < |zs|
  {
    zs[z := Insert(zs[z], Region0(start, end))]
  }

  /** The range belongs to no zone. */
  predicate AllClear(zs: seq<Zone>, start: nat, end: nat) {
    forall z | 0 <= z < |zs| :: Clear(zs[z], start, end)
  }

  lemma {:induction false} NoOwners(zs: seq<Zone>, start: nat, end: nat, x: nat)
    requires AllClear(zs, start, end) && start <= x < end
    ensures AllOwners(zs, x) == 0
    decreases zs
  {
    if zs != [] {
      assert Clear(zs[0], start, end);
      ClearMeans(zs[0], start, end, x);
      forall z | 0 <= z < |zs[1..]|
        ensures Clear(zs[1..][z], start, end)
      {
        assert Clear(zs[z + 1], start, end);
      }
      NoOwners(zs[1..], start, end, x);
    }
  }

  lemma RegionKept(zs: seq<Zone>, live: Tracking, z: nat, start: nat, end: nat)
    requires Sound(zs, live) && z < ZONES && start < end <= TOP && AllClear(zs, start, end)
    ensures var zs' := WithRegion(zs, z, start, end);
            && AllListed(zs') && Exclusive(zs')
            && Keys(zs'[z]) == Keys(zs[z]) + {Node(STACK, start, start, 0)}
            && multiset(Regions(zs'[z], TOP, false)) ==
                multiset(Regions(zs[z], TOP, false)) + multiset{Region(start, end)}
  {
    Unfold(zs, live);
    var n := Region0(start, end);
    var zs' := WithRegion(zs, z, start, end);
    assert Clear(zs[z], start, end);
    InsertKeeps(zs[z], TOP, false, n);
    InsertAddsRegion(zs[z], TOP, TOP, false, n);
    SolidMeans(Regions(zs[z], TOP, false));
    SolidMeans(Regions(zs'[z], TOP, false));
    forall x: nat
      ensures AllOwners(zs', x) <= 1
    {
      assert AllOwners(zs, x) <= 1;
      InsertOwns(zs[z], n, x);
      ReplaceZone(zs, z, zs'[z], x, One(start <= x < end));
      if start <= x < end { NoOwners(zs, start, end, x); }
    }
  }

  /** Every node is kept inside the address space. */
  lemma InfosLow(zs: seq<Zone>, live: Tracking, z: nat, k: Node)
    requires AllListed(zs) && RecordsListed(zs, live) && z < ZONES && k in Expected(live, z)
    ensures k.info < STACK
  {
    var r :| r in live && (k == RecordKey(r) || k == DataKey(r, live[r]));
    KeysBelow(zs[live[r].home], TOP, false);
    assert RecordKey(r) in Keys(zs[live[r].home]);
    assert RecordKey(r).dataend <= TOP;
    assert k == RecordKey(r) || k == DataKey(r, live[r]);
  }

  /** The node moved into its record. */
  function Settled(t: Taken, z: nat): seq<Zone>
    requires z < |t.zones|
  {
    t.zones[z := Rename(t.zones[z], STACK, DataInfo(t.record))]
  }

  /** A new region is one free block more, with one sentinel and one record. */
  lemma SpaceTracks(zs: seq<Zone>, live: Tracking, z: nat, start: nat, end: nat, t: Taken)
    requires Sound(zs, live) && z < ZONES && start < end <= TOP && AllClear(zs, start, end)
    requires TakeRecord(WithRegion(zs, z, start, end)) == Some(t)
    ensures t.record !in live && z < |t.zones|
    ensures Sound(Settled(t, z), live[t.record := Detail(t.home, z, start, start)])
    ensures var before, after := Layout(zs), Layout(Settled(t, z));
            && |before| == |after| == ZONES && after == before[z := after[z]]
            && multiset(after[z]) == multiset(before[z]) + multiset{Region(start, end)}
  {
    Unfold(zs, live);
    var zs1 := WithRegion(zs, z, start, end);
    RegionKept(zs, live, z, start, end);
    StillListed(zs, live, z, zs1);
    TakeRecordAdds(zs1, live);
    SpaceSettled(zs, live, z, start, end, zs1, t);
    LayoutUpdate(zs, z, zs1[z]);
    LayoutAt(zs, z);
  }

  lemma StillListed(zs: seq<Zone>, live: Tracking, z: nat, zs1: seq<Zone>)
    requires Sound(zs, live) && |zs1| == ZONES && z < ZONES && zs1 == zs[z := zs1[z]] && Keys(zs[z]) <= Keys(zs1[z])
    ensures RecordsListed(zs1, live)
  {
    Unfold(zs, live);
    forall r | r in live
      ensures live[r].home < ZONES && RecordKey(r) in Keys(zs1[live[r].home])
    {
      assert Record(r, live) && Keys(zs[live[r].home]) == Expected(live, live[r].home);
    }
  }

  lemma SpaceSettled(zs: seq<Zone>, live: Tracking, z: nat, start: nat, end: nat, zs1: seq<Zone>, t: Taken)
    requires Sound(zs, live) && z < ZONES && AllListed(t.zones) && Exclusive(t.zones) && |zs1| == ZONES
    requires zs1 == zs[z := zs1[z]] && Keys(zs1[z]) == Keys(zs[z]) + {Node(STACK, start, start, 0)}
    requires (t.home == TMP_LOW || t.home == TMP_HIGH) && t.zones == zs1[t.home := t.zones[t.home]] &&
             Layout(t.zones) == Layout(zs1)
    requires Keys(t.zones[t.home]) == Keys(zs1[t.home]) + {RecordKey(t.record)}
    requires t.record !in live && DataInfo(t.record) !in live && (forall o | o in live :: DataInfo(o) != t.record)
    ensures Sound(Settled(t, z), live[t.record := Detail(t.home, z, start, start)])
    ensures Layout(Settled(t, z)) == Layout(zs1)
  {
    Unfold(zs, live);
    var k, r := Node(STACK, start, start, 0), t.record;
    assert k in Keys(zs1[z]) && k in Keys(t.zones[z]);
    assert RecordKey(r) in Keys(t.zones[t.home]);
    KeysBelow(t.zones[t.home], TOP, false);
    assert RecordKey(r).dataend <= TOP;
    OnlyOnStack(zs, live, z, k, t.zones[z], r);
    RenameKeeps(t.zones[z], TOP, TOP, false, k, DataInfo(r));
    SameRegionsSameOwners(t.zones, z, Settled(t, z)[z]);
    SpaceKeys(zs, zs1, z, start, t);
    TracksOneMore(zs, Settled(t, z), live, r, Detail(t.home, z, start, start));
    Fold(Settled(t, z), live[r := Detail(t.home, z, start, start)]);
  }

  lemma OnlyOnStack(zs: seq<Zone>, live: Tracking, z: nat, k: Node, ns: Zone, r: nat)
    requires Sound(zs, live) && z < ZONES && k.info == STACK && r < STACK
    requires Keys(ns) <= Keys(zs[z]) + {k, RecordKey(r)}
    ensures k !in Keys(zs[z]) && forall k' | k' in Keys(ns) && k' != k :: k'.info != STACK
  {
    Unfold(zs, live);
    SoundLists(zs, live);
    assert Keys(zs[z]) == Expected(live, z);
    if k in Keys(zs[z]) { InfosLow(zs, live, z, k); }
    forall k' | k' in Keys(ns) && k' != k
      ensures k'.info != STACK
    {
      if k' in Keys(zs[z]) { InfosLow(zs, live, z, k'); }
    }
  }

  lemma SpaceKeys(zs: seq<Zone>, zs1: seq<Zone>, z: nat, start: nat, t: Taken)
    requires |zs| == |zs1| == |t.zones| == ZONES && z < ZONES && t.home < ZONES
    requires var k := Node(STACK, start, start, 0);
             && k !in Keys(zs[z]) && zs1 == zs[z := zs1[z]] && Keys(zs1[z]) == Keys(zs[z]) + {k}
             && t.zones == zs1[t.home := t.zones[t.home]]
             && Keys(t.zones[t.home]) == Keys(zs1[t.home]) + {RecordKey(t.record)} && t.record < STACK
             && Keys(Settled(t, z)[z]) == Keys(t.zones[z]) - {k} + {Node(DataInfo(t.record), start, start, 0)}
    ensures forall y | 0 <= y < ZONES ::
              Keys(Settled(t, z)[y]) == Keys(zs[y]) + Added(t.record, Detail(t.home, z, start, start), y)
  {
    forall y | 0 <= y < ZONES
      ensures Keys(Settled(t, z)[y]) == Keys(zs[y]) + Added(t.record, Detail(t.home, z, start, start), y)
    {
      assert Keys(t.zones[y]) == Keys(zs1[y]) + if y == t.home then {RecordKey(t.record)} else {};
    }
  }

  lemma SoundLists(zs: seq<Zone>, live: Tracking)
    requires Sound(zs, live)
    ensures RecordsListed(zs, live)
  {
    Unfold(zs, live);
    forall r | r in live
      ensures live[r].home < ZONES && RecordKey(r) in Keys(zs[live[r].home])
    {
      assert Record(r, live) && Keys(zs[live[r].home]) == Expected(live, live[r].home);
    }
  }

  // ------------------------------------------------------------ the size query

  function Gap(n: Node): nat {
    if n.allocend >= n.dataend then n.allocend - n.dataend else 0
  }

  function MaxGap(ns: Zone): nat
    decreases ns
  {
    if ns == [] then 0
    else if Gap(ns[0]) > MaxGap(ns[1..]) then Gap(ns[0]) else MaxGap(ns[1..])
  }

  /** No node has more free space, and some node has as much. */
  lemma {:induction false} MaxGapIs(ns: Zone)
    requires forall i | 0 <= i < |ns| :: ns[i].dataend <= ns[i].allocend
    ensures forall i | 0 <= i < |ns| :: ns[i].allocend - ns[i].dataend <= MaxGap(ns)
    ensures ns != [] ==> exists i :: 0 <= i < |ns| && ns[i].allocend - ns[i].dataend == MaxGap(ns)
    ensures ns == [] ==> MaxGap(ns) == 0
    decreases ns
  {
    if ns != [] {
      MaxGapIs(ns[1..]);
      forall i | 0 <= i < |ns|
        ensures ns[i].allocend - ns[i].dataend <= MaxGap(ns)
      {
        if i > 0 { assert ns[i] == ns[1..][i - 1]; }
      }
      if Gap(ns[0]) > MaxGap(ns[1..]) || ns[1..] == [] {
        assert ns[0].allocend - ns[0].dataend == MaxGap(ns);
      } else {
        var j :| 0 <= j < |ns[1..]| && ns[1..][j].allocend - ns[1..][j].dataend == MaxGap(ns[1..]);
        assert ns[j + 1] == ns[1..][j];
      }
    }
  }

  /** What the size query answers, from both sides: the largest piece of free space, less
      48 bytes in a temporary zone. */
  lemma SpaceIs(zs: seq<Zone>, live: Tracking, z: nat)
    requires Sound(zs, live) && z < ZONES
    ensures |zs| == 5 && forall i | 0 <= i < |zs[z]| :: zs[z][i].dataend <= zs[z][i].allocend
    ensures z != 0 && z != 3 ==>
              && (forall i | 0 <= i < |zs[z]| :: zs[z][i].allocend - zs[z][i].dataend <= Space(zs, z))
              && (if zs[z] == [] then Space(zs, z) == 0
                  else exists i :: 0 <= i < |zs[z]| && zs[z][i].allocend - zs[z][i].dataend == Space(zs, z))
    ensures z == 0 || z == 3 ==>
              && (forall i | 0 <= i < |zs[z]| :: zs[z][i].allocend - zs[z][i].dataend <= Space(zs, z) + 48)
              && (Space(zs, z) > 0 ==>
                    exists i :: 0 <= i < |zs[z]| && zs[z][i].allocend - zs[z][i].dataend == Space(zs, z) + 48)
  {
    Unfold(zs, live);
    forall i | 0 <= i < |zs[z]|
      ensures zs[z][i].dataend <= zs[z][i].allocend
    {
      AtIndex(zs[z], TOP, false, i);
    }
    MaxGapIs(zs[z]);
  }

  /** `ALIGN(sizeof(struct allocdetail_s), MALLOC_MIN_ALIGN)`. */
  const RESERVE := 48

  /** What `malloc_getspace` answers. */
  function Space(zs: seq<Zone>, z: nat): nat
    requires z < |zs|
  {
    if z != TMP_HIGH && z != TMP_LOW then MaxGap(zs[z])
    else if MaxGap(zs[z]) <= RESERVE then 0
    else MaxGap(zs[z]) - RESERVE
  }

  /** All free space ends at a multiple of 16. */
  predicate Even(ns: Zone)
    decreases ns
  {
    ns == [] || (ns[0].allocend % MIN_ALIGN == 0 && Even(ns[1..]))
  }

  lemma {:induction false} AlignedIsEven(a: nat, align: nat)
    requires align > 0 && align % MIN_ALIGN == 0 && Aligned(a, align)
    ensures a % MIN_ALIGN == 0
    decreases a
  {
    if a >= align {
      AlignedIsEven(a - align, align);
      SumIsEven(a - align, align);
    }
  }

  lemma SumIsEven(a: nat, b: nat)
    requires a % MIN_ALIGN == 0 && b % MIN_ALIGN == 0
    ensures (a + b) % MIN_ALIGN == 0
  {
    assert a + b == MIN_ALIGN * (a / MIN_ALIGN + b / MIN_ALIGN);
  }

  lemma {:induction false} AllocKeepsEven(ns: Zone, hi: nat, joined: bool, size: nat, align: nat, fill: Option<nat>)
    requires Chain(ns, hi, joined) && hi <= TOP && Reasonable(size, align) && align % MIN_ALIGN == 0 && Even(ns)
    requires Alloc(ns, size, align, fill).Some?
    ensures Even(Alloc(ns, size, align, fill).value.0)
    decreases ns
  {
    var ns' := Alloc(ns, size, align, fill).value.0;
    if Fits(ns[0], size, align) {
      FitsIsRight(ns[0], size, align);
      AlignedIsEven(Place(ns[0], size, align), align);
      assert ns'[1..][1..] == ns[1..];
    } else {
      AllocKeepsEven(ns[1..], ns[0].data, !Sentinel(ns[0]), size, align, fill);
      assert ns'[1..] == Alloc(ns[1..], size, align, fill).value.0;
    }
  }

  lemma {:induction false} ReleaseKeepsEven(ns: Zone, i: nat)
    requires i < |ns| && Even(ns)
    ensures Even(Release(ns, i))
    decreases ns
  {
    if i > 0 {
      ReleaseKeepsEven(ns[1..], i - 1);
      assert Release(ns, i)[1..] == Release(ns[1..], i - 1);
    } else if |ns| > 1 {
      assert ns[1..][0] == ns[1] && ns[1..][1..] == ns[2..];
      assert ns[1].allocend == ns[0].data ==> Release(ns, 0)[1..] == ns[2..];
    }
  }

  /** From evenly ending free space, an even request is placed at its very end. */
  lemma EvenPlace(n: Node, size: nat)
    requires n.dataend <= n.allocend <= TOP && n.allocend % MIN_ALIGN == 0 && 0 < size && size % MIN_ALIGN == 0
    requires size <= Gap(n)
    ensures Fits(n, size, MIN_ALIGN)
  {
    RemIsMod(n.allocend - size, MIN_ALIGN);
  }

  lemma {:induction false} GapSuffices(ns: Zone, hi: nat, joined: bool, size: nat, fill: Option<nat>)
    requires Chain(ns, hi, joined) && hi <= TOP && Even(ns)
    requires 0 < size <= MaxGap(ns) && size % MIN_ALIGN == 0
    ensures Alloc(ns, size, MIN_ALIGN, fill).Some?
    decreases ns
  {
    if size <= Gap(ns[0]) {
      EvenPlace(ns[0], size);
    } else {
      GapSuffices(ns[1..], ns[0].data, !Sentinel(ns[0]), size, fill);
    }
  }

  lemma BelowRecord(x: nat)
    requires x % MIN_ALIGN == 0 && x >= DETAIL
    ensures x >= RESERVE && AlignDown(x - DETAIL, MIN_ALIGN) == x - RESERVE
  {
    RemIsMod(x - DETAIL, MIN_ALIGN);
  }

  lemma RecordPlace(n: Node)
    requires n.dataend <= n.allocend <= TOP && n.allocend % MIN_ALIGN == 0
    ensures Gap(n) >= RESERVE ==> Fits(n, DETAIL, MIN_ALIGN)
    ensures Fits(n, DETAIL, MIN_ALIGN) ==> n.allocend >= RESERVE && Place(n, DETAIL, MIN_ALIGN) == n.allocend - RESERVE
  {
    FitsIsRight(n, DETAIL, MIN_ALIGN);
    if n.allocend >= DETAIL { BelowRecord(n.allocend); }
  }

  lemma {:induction false} RecordFits(ns: Zone, hi: nat, joined: bool)
    requires Chain(ns, hi, joined) && hi <= TOP && Even(ns)
    ensures MaxGap(ns) >= RESERVE ==> Alloc(ns, DETAIL, MIN_ALIGN, None).Some?
    ensures Alloc(ns, DETAIL, MIN_ALIGN, None).Some? ==>
              MaxGap(Alloc(ns, DETAIL, MIN_ALIGN, None).value.0) + RESERVE >= MaxGap(ns)
    decreases ns
  {
    if ns != [] {
      RecordPlace(ns[0]);
      RecordFits(ns[1..], ns[0].data, !Sentinel(ns[0]));
      var t := Alloc(ns, DETAIL, MIN_ALIGN, None);
      if t.Some? {
        if Fits(ns[0], DETAIL, MIN_ALIGN) {
          var m := t.value.0[1..];
          assert m[0] == ns[0].(allocend := t.value.1) && m[1..] == ns[1..];
        } else {
          assert t.value.0[1..] == Alloc(ns[1..], DETAIL, MIN_ALIGN, None).value.0;
        }
      }
    }
  }

  predicate AllEven(zs: seq<Zone>)
    decreases zs
  {
    zs == [] || (Even(zs[0]) && AllEven(zs[1..]))
  }

  lemma {:induction false} EvenAt(zs: seq<Zone>, z: nat)
    requires AllEven(zs) && z < |zs|
    ensures Even(zs[z])
    decreases zs
  {
    if z > 0 { EvenAt(zs[1..], z - 1); }
  }

  lemma {:induction false} EvenUpdate(zs: seq<Zone>, z: nat, ns: Zone)
    requires AllEven(zs) && z < |zs| && Even(ns)
    ensures AllEven(zs[z := ns])
    decreases zs
  {
    if z == 0 {
      assert zs[z := ns][1..] == zs[1..];
    } else {
      assert zs[z := ns][1..] == zs[1..][z - 1 := ns];
      EvenUpdate(zs[1..], z - 1, ns);
    }
  }

  /** Requests with alignments of 16 bytes or more keep all free space ending evenly. */
  lemma AllocationKeepsEven(zs: seq<Zone>, z: nat, size: nat, align: nat, fill: Option<nat>)
    requires AllListed(zs) && z < ZONES && Reasonable(size, align) && align % MIN_ALIGN == 0 && AllEven(zs)
    requires Alloc(zs[z], size, align, fill).Some?
    ensures AllEven(zs[z := Alloc(zs[z], size, align, fill).value.0])
  {
    EvenAt(zs, z);
    assert Listed(zs[z]);
    AllocKeepsEven(zs[z], TOP, false, size, align, fill);
    EvenUpdate(zs, z, Alloc(zs[z], size, align, fill).value.0);
  }

  lemma RecordKeepsEven(zs: seq<Zone>, t: Taken)
    requires AllListed(zs) && AllEven(zs) && TakeRecord(zs) == Some(t)
    ensures AllEven(t.zones)
  {
    AllocationKeepsEven(zs, t.home, DETAIL, MIN_ALIGN, None);
  }

  /** So does `_malloc`. */
  lemma MallocKeepsEven(zs: seq<Zone>, live: Tracking, t: Taken, z: nat, size: nat, align: nat, ns: Zone, a: nat)
    requires Sound(zs, live) && z < ZONES && Reasonable(size, align) && align % MIN_ALIGN == 0 && AllEven(zs)
    requires TakeRecord(zs) == Some(t) && z < |t.zones| && Block(t, z, size, align) == Some((ns, a))
    ensures AllEven(t.zones[z := ns])
  {
    Unfold(zs, live);
    SoundLists(zs, live);
    TakeRecordAdds(zs, live);
    RecordKeepsEven(zs, t);
    AllocationKeepsEven(t.zones, z, size, align, Some(DataInfo(t.record)));
  }

  lemma FreeingKeepsEven(zs: seq<Zone>, z: nat, i: nat)
    requires z < |zs| && i < |zs[z]| && AllEven(zs)
    ensures AllEven(zs[z := Release(zs[z], i)])
  {
    EvenAt(zs, z);
    ReleaseKeepsEven(zs[z], i);
    EvenUpdate(zs, z, Release(zs[z], i));
  }

  lemma {:induction false} InsertKeepsEven(ns: Zone, n: Node)
    requires Even(ns) && n.allocend % MIN_ALIGN == 0
    ensures Even(Insert(ns, n))
    decreases ns
  {
    if ns == [] || ns[0].data < n.data {
      assert ([n] + ns)[1..] == ns;
    } else {
      InsertKeepsEven(ns[1..], n);
      assert Insert(ns, n)[1..] == Insert(ns[1..], n);
    }
  }

  lemma {:induction false} RenameKeepsEven(ns: Zone, from: nat, to: nat)
    requires Even(ns)
    ensures Even(Rename(ns, from, to))
    decreases ns
  {
    if ns != [] {
      RenameKeepsEven(ns[1..], from, to);
      var m := Rename(ns, from, to);
      assert m[1..] == if ns[0].info == from then ns[1..] else Rename(ns[1..], from, to);
    }
  }

  /** And `addSpace`, for a region that ends at a multiple of 16. */
  lemma SpaceKeepsEven(zs: seq<Zone>, live: Tracking, z: nat, start: nat, end: nat, t: Taken)
    requires Sound(zs, live) && z < ZONES && start < end <= TOP && AllClear(zs, start, end)
    requires end % MIN_ALIGN == 0 && AllEven(zs) && TakeRecord(WithRegion(zs, z, start, end)) == Some(t)
    ensures z < |t.zones| && AllEven(Settled(t, z))
  {
    EvenAt(zs, z);
    InsertKeepsEven(zs[z], Region0(start, end));
    EvenUpdate(zs, z, Insert(zs[z], Region0(start, end)));
    RegionKept(zs, live, z, start, end);
    RecordKeepsEven(WithRegion(zs, z, start, end), t);
    EvenAt(t.zones, z);
    RenameKeepsEven(t.zones[z], STACK, DataInfo(t.record));
    EvenUpdate(t.zones, z, Rename(t.zones[z], STACK, DataInfo(t.record)));
  }

  /** The size query is honest: a request for no more than it answers succeeds, in a
      temporary zone even though the record comes out of the same space, and in the
      others whenever there is room for a record. */
  lemma SizeQueryIsHonest(zs: seq<Zone>, live: Tracking, z: nat, size: nat)
    requires Sound(zs, live) && z < ZONES && AllEven(zs)
    requires 0 < size <= Space(zs, z) && size % MIN_ALIGN == 0
    requires z == TMP_LOW || z == TMP_HIGH || TakeRecord(zs).Some?
    ensures TakeRecord(zs).Some? && z < |TakeRecord(zs).value.zones|
    ensures Block(TakeRecord(zs).value, z, size, MIN_ALIGN).Some?
  {
    Unfold(zs, live);
    EvenAt(zs, TMP_LOW);
    EvenAt(zs, TMP_HIGH);
    EvenAt(zs, z);
    RecordFits(zs[TMP_LOW], TOP, false);
    RecordFits(zs[TMP_HIGH], TOP, false);
    var t := TakeRecord(zs).value;
    SoundLists(zs, live);
    TakeRecordAdds(zs, live);
    AllocKeepsEven(zs[t.home], TOP, false, DETAIL, MIN_ALIGN, None);
    GapSuffices(t.zones[z], TOP, false, size, Some(DataInfo(t.record)));
  }
}
