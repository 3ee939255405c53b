/** The allocator's entry points in seabios/src/malloc.c, updating the zone lists and
    the handles in the tracking records. */
module ZoneAllocator {
  import opened Basics
  import opened Rounding
  import opened ZoneList
  import opened ZoneHeap

  /** `MALLOC_DEFAULT_HANDLE`. */
  const DEFAULT_HANDLE := 0xFFFF_FFFF

  /** A block in use starts at `data`. */
  predicate Starts(live: Tracking, r: nat, data: nat) {
    r in live && live[r].data == data < live[r].dataend
  }

  predicate Anonymous(live: Tracking, handles: map<nat, nat>) {
    && handles.Keys == live.Keys
    && forall r | r in live && live[r].data == live[r].dataend :: handles[r] == DEFAULT_HANDLE
  }

  /** A block cut off the free space of node `i`. */
  function Placed(ns: Zone, i: nat, info: nat, a: nat, size: nat): Zone
    requires i < |ns|
  {
    ns[..i] + [Node(info, a, a + size, ns[i].allocend), ns[i].(allocend := a)] + ns[i + 1..]
  }

  lemma Behind(ns: Zone, i: nat, mid: Zone)
    requires 0 < i < |ns|
    ensures ns[..i] + mid + ns[i + 1..] == [ns[0]] + (ns[1..][..i - 1] + mid + ns[1..][i..])
  {
    assert ns[1..][i..] == ns[i + 1..];
    assert ns[..i] == [ns[0]] + ns[1..][..i - 1];
  }

  lemma PlacedBehind(ns: Zone, i: nat, info: nat, a: nat, size: nat)
    requires 0 < i < |ns|
    ensures Placed(ns, i, info, a, size) == [ns[0]] + Placed(ns[1..], i - 1, info, a, size)
  {
    Behind(ns, i, [Node(info, a, a + size, ns[i].allocend), ns[i].(allocend := a)]);
  }

  lemma PlacedFirst(ns: Zone, info: nat, a: nat, size: nat)
    requires ns != []
    ensures Placed(ns, 0, info, a, size) == [Node(info, a, a + size, ns[0].allocend), ns[0].(allocend := a)] + ns[1..]
  {
    assert ns[..0] == [];
  }

  lemma {:induction false} AllocScan(ns: Zone, i: nat, size: nat, align: nat, fill: Option<nat>)
    requires i < |ns| && align > 0 && (forall j | 0 <= j < i :: !Fits(ns[j], size, align)) && Fits(ns[i], size, align)
    ensures var a := Place(ns[i], size, align);
            Alloc(ns, size, align, fill) == Some((Placed(ns, i, At(fill, a), a, size), a))
    decreases ns
  {
    var a := Place(ns[i], size, align);
    if i > 0 {
      AllocScan(ns[1..], i - 1, size, align, fill);
      PlacedBehind(ns, i, At(fill, a), a, size);
    } else {
      PlacedFirst(ns, At(fill, a), a, size);
    }
  }

  lemma {:induction false} AllocScanned(ns: Zone, size: nat, align: nat, fill: Option<nat>)
    requires align > 0 && (forall j | 0 <= j < |ns| :: !Fits(ns[j], size, align))
    ensures Alloc(ns, size, align, fill) == None
    decreases ns
  {
    if ns != [] { AllocScanned(ns[1..], size, align, fill); }
  }

  lemma {:induction false} ReleaseAt(ns: Zone, i: nat)
    requires i < |ns|
    ensures Release(ns, i) == Dropped(Merged(ns, i), i)
    decreases ns
  {
    var m := Merged(ns, i);
    if i > 0 {
      ReleaseAt(ns[1..], i - 1);
      assert Merged(ns[1..], i - 1) == m[1..];
      DroppedBehind(m, i);
    } else {
      assert m[..0] == [];
      if |ns| > 1 { assert m[1..] == [m[1]] + ns[2..]; }
    }
  }

  /** The space of node `i` given to the next node, when they abut. */
  function Merged(ns: Zone, i: nat): (m: Zone)
    requires i < |ns|
    ensures |m| == |ns|
  {
    if i + 1 < |ns| && ns[i + 1].allocend == ns[i].data then ns[i + 1 := ns[i + 1].(allocend := ns[i].allocend)] else ns
  }

  lemma DroppedBehind(ns: Zone, i: nat)
    requires 0 < i < |ns|
    ensures Dropped(ns, i) == [ns[0]] + Dropped(ns[1..], i - 1)
  {
    Behind(ns, i, []);
    assert ns[..i] + [] == ns[..i] && ns[1..][..i - 1] + [] == ns[1..][..i - 1];
  }

  function Dropped(ns: Zone, i: nat): Zone
    requires i < |ns|
  {
    ns[..i] + ns[i + 1..]
  }

  lemma {:induction false} NothingOwned(zs: seq<Zone>, x: nat)
    requires forall z | 0 <= z < |zs| :: zs[z] == []
    ensures AllOwners(zs, x) == 0
    decreases zs
  {
    if zs != [] { NothingOwned(zs[1..], x); }
  }

  lemma EmptyHeap()
    ensures Sound([[], [], [], [], []], map[])
  {
    var zs: seq<Zone> := [[], [], [], [], []];
    forall x: nat
      ensures AllOwners(zs, x) <= 1
    {
      NothingOwned(zs, x);
    }
    Fold(zs, map[]);
  }

  class Heap {
    var zones: seq<Zone>
    /** `detail->handle` of the record at each address. */
    var handles: map<nat, nat>
    /** The tracked blocks: what the lists stand for. */
    ghost var live: Tracking

    ghost predicate Valid()
      reads this
    {
      Sound(zones, live) && Anonymous(live, handles)
    }

    constructor ()
      ensures Valid() && live == map[] && zones == [[], [], [], [], []]
    {
      zones, handles, live := [[], [], [], [], []], map[], map[];
      EmptyHeap();
    }

    /** `allocSpace`. */
    method AllocSpace(z: nat, size: nat, align: nat, fill: Option<nat>) returns (data: Option<nat>)
      requires z < |zones| && align > 0
      modifies `zones
      ensures data == None ==> Alloc(old(zones)[z], size, align, fill) == None && zones == old(zones)
      ensures data.Some? ==> z < |zones| && zones == old(zones)[z := zones[z]] &&
                             Alloc(old(zones)[z], size, align, fill) == Some((zones[z], data.value))
    {
      var ns := zones[z];
      var i := 0;
      while i < |ns|
        invariant i <= |ns| && zones == old(zones) && forall j | 0 <= j < i :: !Fits(ns[j], size, align)
      {
        var info := ns[i];
        var newallocend := AlignDown(Sub32(info.allocend, size), align);
        if newallocend >= info.dataend && newallocend <= info.allocend {
          AllocScan(ns, i, size, align, fill);
          zones := zones[z := Placed(ns, i, At(fill, newallocend), newallocend, size)];
          return Some(newallocend);
        }
        i := i + 1;
      }
      AllocScanned(ns, size, align, fill);
      data := None;
    }

    /** `freeSpace`. */
    method FreeSpace(z: nat, i: nat)
      requires z < |zones| && i < |zones[z]|
      modifies `zones
      ensures zones == old(zones)[z := Release(old(zones)[z], i)]
    {
      var ns := zones[z];
      ReleaseAt(ns, i);
      if i + 1 < |ns| && ns[i + 1].allocend == ns[i].data {
        ns := ns[i + 1 := ns[i + 1].(allocend := ns[i].allocend)];
      }
      zones := zones[z := ns[..i] + ns[i + 1..]];
    }

    /** Finds the list position of the node kept at `info`, which a pointer gives the
        source at once. */
    method NodeAt(info: nat) returns (z: nat, i: nat)
      requires exists y, j :: 0 <= y < |zones| && 0 <= j < |zones[y]| && zones[y][j].info == info
      ensures z < |zones| && i < |zones[z]| && zones[z][i].info == info
      ensures forall j | 0 <= j < i :: zones[z][j].info != info
    {
      z, i := 0, 0;
      while z < |zones|
        invariant z <= |zones|
        invariant forall y, j | 0 <= y < z && 0 <= j < |zones[y]| :: zones[y][j].info != info
      {
        i := 0;
        while i < |zones[z]|
          invariant i <= |zones[z]| && forall j | 0 <= j < i :: zones[z][j].info != info
        {
          if zones[z][i].info == info {
            return;
          }
          i := i + 1;
        }
        z := z + 1;
      }
    }

    /** `findAlloc`. */
    method FindAlloc(data: nat) returns (found: bool, z: nat, i: nat)
      ensures found ==> FirstAt(zones, z, i, data)
      ensures found ==> forall y, j | 0 <= y < z && 0 <= j < |zones[y]| :: zones[y][j].data != data
      ensures !found ==> forall y, j | 0 <= y < |zones| && 0 <= j < |zones[y]| :: zones[y][j].data != data
    {
      z, i := 0, 0;
      while z < |zones|
        invariant z <= |zones|
        invariant forall y, j | 0 <= y < z && 0 <= j < |zones[y]| :: zones[y][j].data != data
      {
        i := 0;
        while i < |zones[z]|
          invariant i <= |zones[z]| && forall j | 0 <= j < i :: zones[z][j].data != data
        {
          if zones[z][i].data == data {
            found := true;
            return;
          }
          i := i + 1;
        }
        z := z + 1;
      }
      found := false;
    }

    /** Space for a tracking record, from high temporary memory or else from low. */
    method AllocDetail() returns (detail: Option<nat>)
      requires |zones| == ZONES
      modifies `zones
      ensures detail == None ==> TakeRecord(old(zones)) == None && zones == old(zones)
      ensures detail.Some? ==> TakeRecord(old(zones)).Some? && TakeRecord(old(zones)).value.record == detail.value
                               && zones == TakeRecord(old(zones)).value.zones
    {
      detail := AllocSpace(TMP_HIGH, DETAIL, MIN_ALIGN, None);
      if detail == None {
        detail := AllocSpace(TMP_LOW, DETAIL, MIN_ALIGN, None);
      }
    }

    /** `_malloc`: a block and its record, or nothing at all. */
    method Malloc(z: nat, size: nat, align: nat) returns (data: Option<nat>, ghost r: nat, ghost home: nat)
      requires Valid() && z < ZONES && PowerOfTwo(align) && size + align <= WORD
      modifies this
      ensures Valid() && Layout(zones) == Layout(old(zones))
      ensures data == None ==> zones == old(zones) && handles == old(handles) && live == old(live)
      ensures data == None <==> size == 0 || !CanMalloc(old(zones), z, size, align)
      ensures old(AllEven(zones)) && align % MIN_ALIGN == 0 ==> AllEven(zones)
      ensures data.Some? ==>
                && r !in old(live) && live == old(live)[r := Detail(home, z, data.value, data.value + size)]
                && handles == old(handles)[r := 0xFFFF_FFFF]
      ensures data.Some? ==>
                && home == (if Room(old(zones)[3], 44, 16) then 3 else 0)
                && Highest(old(zones)[home], r, 44, 16)
                && Highest(AfterRecord(old(zones))[z], data.value, size, align)
      ensures data == None <==>
                size == 0 || !(Room(old(zones)[3], 44, 16) || Room(old(zones)[0], 44, 16)) ||
                !Room(AfterRecord(old(zones))[z], size, align)
    {
      hide TakeRecord, Highest, Room, AllEven, Layout, SoundFrom;
      if size == 0 {
        return None, 0, 0;
      }
      if Succeeds(zones, z, size, align) { PlacesAreHighest(zones, live, z, size, align); }
      CanMallocIs(zones, live, z, size, align);
      data, r, home := MallocTracked(z, size, align);
    }

    method MallocTracked(z: nat, size: nat, align: nat) returns (data: Option<nat>, ghost r: nat, ghost home: nat)
      requires Valid() && z < ZONES && Reasonable(size, align)
      modifies this
      ensures Valid() && Layout(zones) == Layout(old(zones))
      ensures data == None ==> zones == old(zones) && handles == old(handles) && live == old(live)
      ensures data == None <==> !Succeeds(old(zones), z, size, align)
      ensures old(AllEven(zones)) && align % MIN_ALIGN == 0 ==> AllEven(zones)
      ensures data.Some? ==>
                && r !in old(live) && live == old(live)[r := Detail(home, z, data.value, data.value + size)]
                && handles == old(handles)[r := DEFAULT_HANDLE]
      ensures data.Some? ==>
                var t := TakeRecord(old(zones)).value;
                r == t.record && home == t.home && z < |t.zones| && Block(t, z, size, align).Some? &&
                data.value == Block(t, z, size, align).value.1
    {
      hide Layout, SoundFrom, AllEven, Alloc;
      data, r, home := None, 0, 0;
      ghost var zs := zones;
      var detail := AllocDetail();
      if detail == None {
        return;
      }
      ghost var t := TakeRecord(zs).value;
      data := MallocData(zs, t, detail.value, z, size, align);
      r, home := detail.value, t.home;
      if data == None {
      } else {
        MallocTracks(zs, old(live), t, z, size, align, zones[z], data.value);
        if AllEven(zs) && align % MIN_ALIGN == 0 {
          MallocKeepsEven(zs, old(live), t, z, size, align, zones[z], data.value);
        }
      }
    }

    /** The rest of `_malloc`, once the record is there. */
    method MallocData(ghost zs: seq<Zone>, ghost t: Taken, detail: nat, z: nat, size: nat, align: nat)
      returns (data: Option<nat>)
      requires Sound(zs, live) && TakeRecord(zs) == Some(t)
      requires zones == t.zones && t.record == detail && z < |zones| && Reasonable(size, align)
      modifies this
      ensures data == None ==> Block(t, z, size, align) == None
      ensures data == None ==> zones == zs && handles == old(handles) && live == old(live)
      ensures data.Some? ==> z < |zones| && Block(t, z, size, align) == Some((zones[z], data.value))
      ensures data.Some? ==> zones == t.zones[z := zones[z]]
      ensures data.Some? ==> live == old(live)[detail := Detail(t.home, z, data.value, data.value + size)]
      ensures data.Some? ==> handles == old(handles)[detail := DEFAULT_HANDLE]
    {
      data := AllocSpace(z, size, align, Some(DataInfo(detail)));
      if data == None {
        Unreserve(zs, t, detail);
      } else {
        live := live[detail := Detail(t.home, z, data.value, data.value + size)];
        handles := handles[detail := DEFAULT_HANDLE];
      }
    }

    method Unreserve(ghost zs: seq<Zone>, ghost t: Taken, detail: nat)
      requires Sound(zs, live) && TakeRecord(zs) == Some(t) && zones == t.zones && t.record == detail
      modifies `zones
      ensures zones == zs
    {
      RecordIsListed(zs, live, t);
      var home, j := NodeAt(detail);
      RecordIsAlone(zs, live, t, home, j);
      FreeSpace(home, j);
      RecordUndone(zs, live, t, j);
    }

    /** `_free`: succeeds exactly on the start of a block in use, and forgets it. */
    method Free(data: nat) returns (ret: int, ghost r: nat)
      requires Valid()
      modifies this
      ensures Valid() && Layout(zones) == Layout(old(zones))
      ensures ret == 0 || ret == -1
      ensures ret == 0 ==> Starts(old(live), r, data) && live == old(live) - {r} && handles == old(handles) - {r}
      ensures ret != 0 ==> zones == old(zones) && handles == old(handles) && live == old(live)
      ensures ret != 0 ==> forall o :: !Starts(old(live), o, data)
      ensures old(AllEven(zones)) ==> AllEven(zones)
    {
      r := 0;
      var found, z, i := FindAlloc(data);
      if !found {
        NotListedNotLive(zones, live, data);
        return -1, r;
      }
      var info := zones[z][i];
      if data == info.info || data == info.dataend {
        RejectedNotLive(zones, live, z, i, data);
        return -1, r;
      }
      ghost var zs := zones;
      r := BlockFound(zones, live, z, i, data);
      var detail := info.info - DATAINFO;
      FreeSpace(z, i);
      RecordStays(zs, live, r, z, i);
      var home, j := NodeAt(detail);
      RecordStillAlone(zs, live, r, z, i, home, j);
      FreeSpace(home, j);
      FreeUntracks(zs, live, r, i, j);
      BothFreedEven(zs, z, i, home, j);
      live := live - {r};
      handles := handles - {detail};
      ret := 0;
    }

    /** `malloc_sethandle`. */
    method SetHandle(data: nat, handle: nat) returns (ghost r: nat)
      requires Valid()
      modifies `handles
      ensures Valid()
      ensures handles == old(handles) || (Starts(live, r, data) && handles == old(handles)[r := handle])
      ensures (exists o :: Starts(live, o, data)) ==> Starts(live, r, data) && handles == old(handles)[r := handle]
    {
      r := 0;
      var found, z, i := FindAlloc(data);
      if !found {
        NotListedNotLive(zones, live, data);
        return;
      }
      var info := zones[z][i];
      if data == info.info || data == info.dataend {
        RejectedNotLive(zones, live, z, i, data);
        return;
      }
      r := BlockFound(zones, live, z, i, data);
      handles := handles[info.info - DATAINFO := handle];
    }

    /** `malloc_findhandle`: a handle set on a block finds that block, as long as it is
        in use. */
    method FindHandle(handle: nat) returns (data: Option<nat>, ghost r: nat)
      requires Valid() && handle != DEFAULT_HANDLE
      ensures data.Some? ==> Starts(live, r, data.value) && handles[r] == handle
      ensures data == None ==> forall o | o in live :: handles[o] != handle
      ensures data.Some? ==>
                forall o | o in live && handles[o] == handle ::
                  live[r].home < live[o].home || (live[r].home == live[o].home && o <= r)
    {
      data, r := None, 0;
      var z := 0;
      while z < |zones|
        invariant z <= |zones|
        invariant forall y, j | 0 <= y < z && 0 <= j < |zones[y]| :: !HasHandle(zones[y][j], handles, handle)
      {
        var i := 0;
        while i < |zones[z]|
          invariant i <= |zones[z]| && forall j | 0 <= j < i :: !HasHandle(zones[z][j], handles, handle)
        {
          if HasHandle(zones[z][i], handles, handle) {
            r := RecordFound(zones, live, handles, z, i, handle);
            FirstFound(zones, live, handles, z, i, handle, r);
            var y, j := NodeAt(DataInfo(zones[z][i].info));
            DataFound(zones, live, r, y, j);
            return Some(zones[y][j].data), r;
          }
          i := i + 1;
        }
        z := z + 1;
      }
      NoRecordHasHandle(zones, live, handles, handle);
    }

    /** `malloc_getspace`. */
    method GetSpace(z: nat) returns (space: nat)
      requires Valid() && z < ZONES
      ensures space == Space(zones, z)
      ensures forall i | 0 <= i < |zones[z]| ::
                0 <= zones[z][i].allocend - zones[z][i].dataend <= if z == 0 || z == 3 then space + 48 else space
      ensures z != 0 && z != 3 && zones[z] != [] ==>
                exists i :: 0 <= i < |zones[z]| && zones[z][i].allocend - zones[z][i].dataend == space
      ensures (z == 0 || z == 3) && space > 0 ==>
                exists i :: 0 <= i < |zones[z]| && zones[z][i].allocend - zones[z][i].dataend == space + 48
      ensures zones[z] == [] ==> space == 0
    {
      SpaceIs(zones, live, z);
      Unfold(zones, live);
      var ns := zones[z];
      var i, maxspace := 0, 0;
      assert ns[0..] == ns;
      while i < |ns|
        invariant i <= |ns| && MaxGap(ns) == if maxspace > MaxGap(ns[i..]) then maxspace else MaxGap(ns[i..])
      {
        AtIndex(ns, TOP, false, i);
        assert ns[i..][1..] == ns[i + 1..];
        var space := ns[i].allocend - ns[i].dataend;
        if space > maxspace {
          maxspace := space;
        }
        i := i + 1;
      }
      if z != TMP_HIGH && z != TMP_LOW {
        return maxspace;
      }
      if maxspace <= RESERVE {
        return 0;
      }
      return maxspace - RESERVE;
    }

    /** `addSpace`: a new region, or nothing when there is no room for its record. */
    method AddSpace(z: nat, start: nat, end: nat) returns (ghost record: Option<nat>, ghost home: nat)
      requires Valid() && z < ZONES && start < end <= TOP && AllClear(zones, start, end)
      modifies this
      ensures Valid()
      ensures record == None ==> zones == old(zones) && handles == old(handles) && live == old(live)
      ensures record == None <==> TakeRecord(WithRegion(old(zones), z, start, end)) == None
      ensures record.Some? ==>
                && record.value !in old(live) && live == old(live)[record.value := Detail(home, z, start, start)]
                && handles == old(handles)[record.value := DEFAULT_HANDLE]
                && SpaceTaken(old(zones), z, start, end, zones, record.value, home)
                && Layout(zones) == old(Layout(zones))[z := Layout(zones)[z]]
                && multiset(Layout(zones)[z]) == multiset(old(Layout(zones)[z])) + multiset{Region(start, end)}
      ensures old(AllEven(zones)) && end % MIN_ALIGN == 0 ==> AllEven(zones)
    {
      ghost var zs := zones;
      var ns := zones[z];
      var i := 0;
      while i < |ns| && ns[i].data >= start
        invariant i <= |ns| && forall j | 0 <= j < i :: ns[j].data >= start
      {
        i := i + 1;
      }
      InsertScan(ns, i, Region0(start, end));
      zones := zones[z := ns[..i] + [Region0(start, end)] + ns[i..]];
      record, home := None, 0;
      var detail := AllocDetail();
      if detail == None {
        Uninsert(ns, i, Region0(start, end));
        zones := zones[z := Dropped(zones[z], i)];
        assert zones == zs;
        return;
      }
      ghost var t := TakeRecord(WithRegion(zs, z, start, end)).value;
      record, home := detail, t.home;
      Settle(zs, t, z, start, end, detail.value);
      SpaceTracks(zs, old(live), z, start, end, t);
      if AllEven(zs) && end % MIN_ALIGN == 0 { SpaceKeepsEven(zs, old(live), z, start, end, t); }
    }

    /** Replaces the temporary node by the one in the record. */
    method Settle(ghost zs: seq<Zone>, ghost t: Taken, z: nat, start: nat, end: nat, detail: nat)
      requires Sound(zs, live) && z < ZONES && start < end <= TOP && AllClear(zs, start, end) && z < |t.zones|
      requires TakeRecord(WithRegion(zs, z, start, end)) == Some(t) && zones == t.zones && t.record == detail
      modifies this
      ensures zones == Settled(t, z)
      ensures live == old(live)[detail := Detail(t.home, z, start, start)] &&
              handles == old(handles)[detail := DEFAULT_HANDLE]
    {
      StackIsListed(zs, live, z, start, end, t);
      var y, j := NodeAt(STACK);
      StackIsAlone(zs, live, z, start, end, t, y, j);
      RenameAt(zones[y], j, STACK, DataInfo(detail));
      zones := zones[y := zones[y][j := zones[y][j].(info := DataInfo(detail))]];
      live := live[detail := Detail(t.home, z, start, start)];
      handles := handles[detail := DEFAULT_HANDLE];
    }
  }

  /** A node kept in its own block is a record; the handle is in it. */
  predicate HasHandle(n: Node, handles: map<nat, nat>, handle: nat) {
    n.data == n.info && n.info in handles && handles[n.info] == handle
  }

  lemma RecordFound(zs: seq<Zone>, live: Tracking, handles: map<nat, nat>, z: nat, i: nat, handle: nat) returns (r: nat)
    requires Sound(zs, live) && Anonymous(live, handles) && handle != DEFAULT_HANDLE
    requires z < ZONES && i < |zs[z]| && HasHandle(zs[z][i], handles, handle)
    ensures r in live && r == zs[z][i].info && handles[r] == handle && live[r].data < live[r].dataend
    ensures live[r].home == z && Key(zs[z][i]) == RecordKey(r)
    ensures exists y, j :: 0 <= y < |zs| && 0 <= j < |zs[y]| && zs[y][j].info == DataInfo(r)
  {
    r := WhatIsFound(zs, live, z, i);
    Unfold(zs, live);
    assert Record(r, live) && Keys(zs[live[r].zone]) == Expected(live, live[r].zone);
    assert DataKey(r, live[r]) in Keys(zs[live[r].zone]);
    KeysBelow(zs[live[r].zone], TOP, false);
    KeyIsListed(zs, live[r].zone, DataKey(r, live[r]));
  }

  /** The record found first is the highest in its zone, and no earlier zone has one. */
  lemma FirstFound(zs: seq<Zone>, live: Tracking, handles: map<nat, nat>, z: nat, i: nat, handle: nat, r: nat)
    requires Sound(zs, live) && Anonymous(live, handles) && z < ZONES && i < |zs[z]|
    requires r in live && live[r].home == z && Key(zs[z][i]) == RecordKey(r)
    requires forall y, j | 0 <= y < z && 0 <= j < |zs[y]| :: !HasHandle(zs[y][j], handles, handle)
    requires forall j | 0 <= j < i :: !HasHandle(zs[z][j], handles, handle)
    ensures forall o | o in live && handles[o] == handle :: z < live[o].home || (z == live[o].home && o <= r)
  {
    Unfold(zs, live);
    forall o | o in live && handles[o] == handle
      ensures z < live[o].home || (z == live[o].home && o <= r)
    {
      var y, j := RecordAt(zs, live, o);
      assert zs[y][j].data == zs[y][j].info == o && HasHandle(zs[y][j], handles, handle);
      assert zs[z][i].data == r;
      if y == z && i < j {
        assert Listed(zs[z]);
        Descending(zs[z], TOP, false, i, j);
      }
    }
  }

  lemma DataFound(zs: seq<Zone>, live: Tracking, r: nat, y: nat, j: nat)
    requires Sound(zs, live) && r in live && y < ZONES && j < |zs[y]| && zs[y][j].info == DataInfo(r)
    ensures zs[y][j].data == live[r].data
  {
    Unfold(zs, live);
    assert Record(r, live) && Keys(zs[live[r].zone]) == Expected(live, live[r].zone);
    AtIndex(zs[y], TOP, false, j);
    NodesApart(zs, live, y, Key(zs[y][j]), live[r].zone, DataKey(r, live[r]));
  }

  lemma NoRecordHasHandle(zs: seq<Zone>, live: Tracking, handles: map<nat, nat>, handle: nat)
    requires Sound(zs, live) && Anonymous(live, handles)
    requires forall y, j | 0 <= y < |zs| && 0 <= j < |zs[y]| :: !HasHandle(zs[y][j], handles, handle)
    ensures forall o | o in live :: handles[o] != handle
  {
    Unfold(zs, live);
    forall o | o in live
      ensures handles[o] != handle
    {
      var y := live[o].home;
      assert Record(o, live) && Keys(zs[y]) == Expected(live, y);
      assert RecordKey(o) in Keys(zs[y]);
      var j := KeyHasIndex(zs[y], RecordKey(o));
      assert !HasHandle(zs[y][j], handles, handle);
    }
  }

  lemma {:induction false} InsertScan(ns: Zone, i: nat, n: Node)
    requires i <= |ns| && (forall j | 0 <= j < i :: ns[j].data >= n.data) && (i < |ns| ==> ns[i].data < n.data)
    ensures Insert(ns, n) == ns[..i] + [n] + ns[i..]
    decreases ns
  {
    if i > 0 {
      InsertScan(ns[1..], i - 1, n);
      assert ns[1..][i - 1..] == ns[i..] && ns[..i] == [ns[0]] + ns[1..][..i - 1];
    } else {
      assert ns[..0] == [] && ns[0..] == ns;
    }
  }

  lemma Uninsert(ns: Zone, i: nat, n: Node)
    requires i <= |ns|
    ensures Dropped(ns[..i] + [n] + ns[i..], i) == ns
  {
    var m := ns[..i] + [n] + ns[i..];
    assert m[..i] == ns[..i] && m[i + 1..] == ns[i..];
  }

  lemma {:induction false} RenameAt(ns: Zone, j: nat, from: nat, to: nat)
    requires j < |ns| && ns[j].info == from && forall k | 0 <= k < j :: ns[k].info != from
    ensures Rename(ns, from, to) == ns[j := ns[j].(info := to)]
    decreases ns
  {
    if j > 0 { RenameAt(ns[1..], j - 1, from, to); }
  }

  lemma StackIsListed(zs: seq<Zone>, live: Tracking, z: nat, start: nat, end: nat, t: Taken)
    requires Sound(zs, live) && z < ZONES && start < end <= TOP && AllClear(zs, start, end)
    requires TakeRecord(WithRegion(zs, z, start, end)) == Some(t)
    ensures exists y, j :: 0 <= y < |t.zones| && 0 <= j < |t.zones[y]| && t.zones[y][j].info == STACK
  {
    Unfold(zs, live);
    RegionKept(zs, live, z, start, end);
    StillListed(zs, live, z, WithRegion(zs, z, start, end));
    TakeRecordAdds(WithRegion(zs, z, start, end), live);
    KeyIsListed(t.zones, z, Node(STACK, start, start, 0));
  }

  lemma StackIsAlone(zs: seq<Zone>, live: Tracking, z: nat, start: nat, end: nat, t: Taken, y: nat, j: nat)
    requires Sound(zs, live) && z < ZONES && start < end <= TOP && AllClear(zs, start, end)
    requires TakeRecord(WithRegion(zs, z, start, end)) == Some(t)
    requires y < |t.zones| && j < |t.zones[y]| && t.zones[y][j].info == STACK
    ensures y == z
  {
    Unfold(zs, live);
    var zs1 := WithRegion(zs, z, start, end);
    RegionKept(zs, live, z, start, end);
    StillListed(zs, live, z, zs1);
    TakeRecordAdds(zs1, live);
    AtIndex(t.zones[y], TOP, false, j);
    var k := Key(t.zones[y][j]);
    KeysBelow(t.zones[t.home], TOP, false);
    assert RecordKey(t.record) in Keys(t.zones[t.home]) && RecordKey(t.record).dataend <= TOP;
    if y != z {
      assert k in Keys(zs[y]) && Keys(zs[y]) == Expected(live, y);
      SoundLists(zs, live);
      InfosLow(zs, live, y, k);
    }
  }

  /** The new region is in the list, and its node in the record. */
  predicate SpaceTaken(zs: seq<Zone>, z: nat, start: nat, end: nat, zs': seq<Zone>, record: nat, home: nat)
    requires |zs| == ZONES && z < ZONES
  {
    match TakeRecord(WithRegion(zs, z, start, end))
    case None => false
    case Some(t) => record == t.record && home == t.home && z < |t.zones| && zs' == Settled(t, z)
  }

  /** Whether both steps of `_malloc` succeed. */
  predicate Succeeds(zs: seq<Zone>, z: nat, size: nat, align: nat)
    requires |zs| == ZONES && z < ZONES && align > 0
  {
    match TakeRecord(zs)
    case None => false
    case Some(t) => z < |t.zones| && Block(t, z, size, align).Some?
  }

  /** The lists with space for a record taken, if there is any. */
  function AfterRecord(zs: seq<Zone>): (zs': seq<Zone>)
    requires |zs| == ZONES
    ensures |zs'| == ZONES
  {
    if TakeRecord(zs).Some? then TakeRecord(zs).value.zones else zs
  }

  ghost predicate RoomForRecord(zs: seq<Zone>)
    requires |zs| == ZONES
  {
    Room(zs[TMP_HIGH], DETAIL, MIN_ALIGN) || Room(zs[TMP_LOW], DETAIL, MIN_ALIGN)
  }

  /** There is aligned free space for the record in temporary memory, and then for the
      block in its zone. */
  ghost predicate CanMalloc(zs: seq<Zone>, z: nat, size: nat, align: nat)
    requires |zs| == ZONES && z < ZONES && align > 0
  {
    RoomForRecord(zs) && Room(AfterRecord(zs)[z], size, align)
  }

  lemma RecordExactlyWhen(zs: seq<Zone>, live: Tracking)
    requires Sound(zs, live)
    ensures TakeRecord(zs).Some? <==> RoomForRecord(zs)
  {
    Unfold(zs, live);
    assert Listed(zs[TMP_HIGH]) && Listed(zs[TMP_LOW]);
    AllocExactlyWhen(zs[TMP_HIGH], TOP, false, DETAIL, MIN_ALIGN, None);
    AllocExactlyWhen(zs[TMP_LOW], TOP, false, DETAIL, MIN_ALIGN, None);
  }

  /** Record and block both go to the highest place, the record to high temporary memory
      when it has room there. */
  lemma PlacesAreHighest(zs: seq<Zone>, live: Tracking, z: nat, size: nat, align: nat)
    requires Sound(zs, live) && z < ZONES && Reasonable(size, align) && Succeeds(zs, z, size, align)
    ensures var t := TakeRecord(zs).value;
            && t.home == (if Room(zs[TMP_HIGH], DETAIL, MIN_ALIGN) then TMP_HIGH else TMP_LOW)
            && Highest(zs[t.home], t.record, DETAIL, MIN_ALIGN)
            && Highest(t.zones[z], Block(t, z, size, align).value.1, size, align)
  {
    var t := TakeRecord(zs).value;
    Unfold(zs, live);
    SoundLists(zs, live);
    TakeRecordAdds(zs, live);
    assert Listed(zs[TMP_HIGH]) && Listed(zs[t.home]) && Listed(t.zones[z]);
    AllocExactlyWhen(zs[TMP_HIGH], TOP, false, DETAIL, MIN_ALIGN, None);
    AllocTakesHighest(zs[t.home], TOP, false, DETAIL, MIN_ALIGN, None);
    AllocTakesHighest(t.zones[z], TOP, false, size, align, Some(DataInfo(t.record)));
  }

  lemma CanMallocIs(zs: seq<Zone>, live: Tracking, z: nat, size: nat, align: nat)
    requires Sound(zs, live) && z < ZONES && Reasonable(size, align)
    ensures CanMalloc(zs, z, size, align) <==> Succeeds(zs, z, size, align)
  {
    RecordExactlyWhen(zs, live);
    if TakeRecord(zs).Some? {
      Unfold(zs, live);
      SoundLists(zs, live);
      TakeRecordAdds(zs, live);
      var t := TakeRecord(zs).value;
      assert Listed(t.zones[z]);
      AllocExactlyWhen(t.zones[z], TOP, false, size, align, Some(DataInfo(t.record)));
    }
  }

  lemma KeyIsListed(zs: seq<Zone>, z: nat, k: Node)
    requires z < |zs| && k in Keys(zs[z])
    ensures exists y, j :: 0 <= y < |zs| && 0 <= j < |zs[y]| && zs[y][j].info == k.info
  {
    var j := KeyHasIndex(zs[z], k);
    assert zs[z][j].info == k.info;
  }

  lemma RecordIsListed(zs: seq<Zone>, live: Tracking, t: Taken)
    requires Sound(zs, live) && TakeRecord(zs) == Some(t)
    ensures exists y, j :: 0 <= y < |t.zones| && 0 <= j < |t.zones[y]| && t.zones[y][j].info == t.record
  {
    Unfold(zs, live);
    SoundLists(zs, live);
    TakeRecordAdds(zs, live);
    KeyIsListed(t.zones, t.home, RecordKey(t.record));
  }

  lemma RecordIsAlone(zs: seq<Zone>, live: Tracking, t: Taken, y: nat, j: nat)
    requires Sound(zs, live) && TakeRecord(zs) == Some(t)
    requires y < |t.zones| && j < |t.zones[y]| && t.zones[y][j].info == t.record
    ensures y == t.home && Key(t.zones[y][j]) == RecordKey(t.record)
  {
    Unfold(zs, live);
    SoundLists(zs, live);
    TakeRecordAdds(zs, live);
    AtIndex(t.zones[y], TOP, false, j);
    assert Keys(zs[y]) == Expected(live, y);
    var k := Key(t.zones[y][j]);
    if k in Expected(live, y) {
      var o := InfoIsTracked(live, y, k);
    }
  }

  lemma InfoIsTracked(live: Tracking, y: nat, k: Node) returns (o: nat)
    requires k in Expected(live, y)
    ensures o in live && (k.info == o || k.info == DataInfo(o))
  {
    if k in RecordsIn(live, y) {
      o :| o in live && k == RecordKey(o);
      assert k == RecordKey(o);
    } else {
      o :| o in live && k == DataKey(o, live[o]);
      assert k == DataKey(o, live[o]);
    }
  }

  lemma NotListedNotLive(zs: seq<Zone>, live: Tracking, data: nat)
    requires Sound(zs, live)
    requires forall y, j | 0 <= y < |zs| && 0 <= j < |zs[y]| :: zs[y][j].data != data
    ensures forall r :: !Starts(live, r, data)
  {
    Unfold(zs, live);
    forall r | r in live
      ensures live[r].data != data
    {
      var y := live[r].zone;
      assert Record(r, live) && Keys(zs[y]) == Expected(live, y);
      assert DataKey(r, live[r]) in Keys(zs[y]);
      var j := KeyHasIndex(zs[y], DataKey(r, live[r]));
      assert zs[y][j].data == live[r].data;
    }
  }

  /** Any other node the search ends at is a block in use. */
  lemma BlockFound(zs: seq<Zone>, live: Tracking, z: nat, i: nat, data: nat) returns (r: nat)
    requires Sound(zs, live) && z < ZONES && FirstAt(zs, z, i, data)
    requires zs[z][i].info != data && zs[z][i].dataend != data
    ensures Starts(live, r, data) && live[r].zone == z && Key(zs[z][i]) == DataKey(r, live[r])
    ensures zs[z][i].info == DataInfo(r) && !Sentinel(zs[z][i])
  {
    Unfold(zs, live);
    AtIndex(zs[z], TOP, false, i);
    r := WhatIsFound(zs, live, z, i);
  }

  /** Neither a record nor a sentinel is taken for a block, nor hides one. */
  lemma RejectedNotLive(zs: seq<Zone>, live: Tracking, z: nat, i: nat, data: nat)
    requires Sound(zs, live) && z < ZONES && FirstAt(zs, z, i, data)
    requires zs[z][i].info == data || zs[z][i].dataend == data
    ensures forall r :: !Starts(live, r, data)
  {
    Unfold(zs, live);
    forall r | Starts(live, r, data)
      ensures false
    {
      FindsTheBlock(zs, live, z, i, data, r);
      NotItsOwnRecord(zs, live, r, z, i);
    }
  }

  /** Freeing a block leaves its record where it is. */
  lemma RecordStays(zs: seq<Zone>, live: Tracking, r: nat, z: nat, i: nat)
    requires Sound(zs, live) && r in live && z < ZONES && live[r].zone == z
    requires i < |zs[z]| && Key(zs[z][i]) == DataKey(r, live[r]) && !Sentinel(zs[z][i])
    ensures var zs1 := zs[z := Release(zs[z], i)];
            exists y, j :: 0 <= y < |zs1| && 0 <= j < |zs1[y]| && zs1[y][j].info == r
  {
    Unfold(zs, live);
    ReleaseKeepsLists(zs, z, i);
    var zs1 := zs[z := Release(zs[z], i)];
    assert Record(r, live) && Keys(zs[live[r].home]) == Expected(live, live[r].home);
    assert RecordKey(r) in Keys(zs1[live[r].home]);
    KeyIsListed(zs1, live[r].home, RecordKey(r));
  }

  lemma BothFreedEven(zs: seq<Zone>, z: nat, i: nat, home: nat, j: nat)
    requires z < |zs| && i < |zs[z]| && home < |zs| && j < |zs[z := Release(zs[z], i)][home]|
    ensures var zs1 := zs[z := Release(zs[z], i)];
            AllEven(zs) ==> AllEven(zs1[home := Release(zs1[home], j)])
  {
    if AllEven(zs) {
      FreeingKeepsEven(zs, z, i);
      FreeingKeepsEven(zs[z := Release(zs[z], i)], home, j);
    }
  }

  lemma RecordStillAlone(zs: seq<Zone>, live: Tracking, r: nat, z: nat, i: nat, y: nat, j: nat)
    requires Sound(zs, live) && r in live && z < ZONES && i < |zs[z]| && !Sentinel(zs[z][i])
    requires var zs1 := zs[z := Release(zs[z], i)]; y < |zs1| && j < |zs1[y]| && zs1[y][j].info == r
    ensures var zs1 := zs[z := Release(zs[z], i)]; y == live[r].home && Key(zs1[y][j]) == RecordKey(r)
  {
    Unfold(zs, live);
    ReleaseKeepsLists(zs, z, i);
    var zs1 := zs[z := Release(zs[z], i)];
    assert Record(r, live) && Keys(zs[live[r].home]) == Expected(live, live[r].home);
    AtIndex(zs1[y], TOP, false, j);
    NodesApart(zs, live, y, Key(zs1[y][j]), live[r].home, RecordKey(r));
  }
}
