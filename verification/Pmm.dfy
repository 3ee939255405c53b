/** The POST Memory Manager service of seabios/src/pmm.c, the allocator's client. */
module Pmm {
  import opened Basics
  import opened Rounding
  import opened ZoneList
  import opened ZoneHeap
  import opened ZoneAllocator
  import opened ZoneRuns

  /** `1 << __ffs(x)`: the lowest set bit. */
  function LowBit(x: nat): nat
    requires x > 0
  {
    if x % 2 == 1 then 1 else 2 * LowBit(x / 2)
  }

  /** It is the greatest power of two that divides `x`. */
  lemma {:induction false} LowBitDivides(x: nat) returns (k: nat)
    requires x > 0
    ensures LowBit(x) == Pow2(k) && 0 < LowBit(x) <= x
    ensures forall j: nat | Aligned(x, Pow2(j)) :: j <= k
    ensures Aligned(x, LowBit(x))
    decreases x
  {
    if x % 2 == 1 {
      k := 0;
      forall j: nat | Aligned(x, Pow2(j))
        ensures j == 0
      {
        if j > 0 { EvenAligned(x, Pow2(j - 1)); }
      }
      RemOfOne(x);
    } else {
      var m := LowBitDivides(x / 2);
      k := m + 1;
      forall j: nat | Aligned(x, Pow2(j))
        ensures j <= k
      {
        if j > 0 { EvenAligned(x, Pow2(j - 1)); }
      }
      EvenAligned(x, Pow2(m));
    }
  }

  lemma EvenAligned(x: nat, d: nat)
    requires d > 0
    ensures Aligned(x, 2 * d) <==> x % 2 == 0 && Aligned(x / 2, d)
  {
    RemHalves(x, d);
  }

  /** The size in bytes, in 32-bit arithmetic, of a request in paragraphs. */
  function Bytes(length: nat): nat {
    (length * 16) % WORD
  }

  /** Flag bit 2 asks for the natural alignment of the size. */
  function Alignment(size: nat, natural: bool): nat
    requires size > 0
  {
    if natural && LowBit(size) >= MIN_ALIGN then LowBit(size) else MIN_ALIGN
  }

  lemma BytesEven(length: nat)
    ensures Bytes(length) % MIN_ALIGN == 0
  {
  }

  lemma PowerEven(k: nat)
    requires Pow2(k) >= MIN_ALIGN
    ensures k >= 4 && Pow2(k) % MIN_ALIGN == 0
  {
    Pow2Small();
    assert k >= 4 by {
      if k < 4 { Pow2Monotone(k, 3); }
    }
    Pow2Add(4, k - 4);
  }

  /** Whatever a caller asks for, `allocSpace` gets sizes and alignments for which its
      32-bit test is safe. */
  lemma RequestsAreReasonable(length: nat, natural: bool) returns (k: nat)
    requires 0 < Bytes(length) < 0x8000_0000
    ensures var align := Alignment(Bytes(length), natural);
            && Reasonable(Bytes(length), align) && PowerOfTwo(align) && align == Pow2(k) && k >= 4
            && align % MIN_ALIGN == 0 && Bytes(length) % MIN_ALIGN == 0
  {
    var size := Bytes(length);
    k := LowBitDivides(size);
    BytesEven(length);
    if natural && LowBit(size) >= MIN_ALIGN {
      PowerEven(k);
    } else {
      k := 4;
      Pow2Small();
    }
  }

  /** The size is what was asked for unless the count wraps around. */
  lemma SizeWraps(length: nat)
    requires length < WORD
    ensures Bytes(length) == length * 16 <==> length < 0x1000_0000
  {
  }

  function Bit(flags: nat, k: nat): bool {
    Shr(flags, k) % 2 == 1
  }

  lemma BitIs(flags: nat)
    ensures Bit(flags, 2) <==> flags / 4 % 2 == 1
    ensures Bit(flags, 3) <==> flags / 8 % 2 == 1
  {
    assert Shr(flags, 1) == Shr(flags, 0) / 2 == flags / 2;
    assert Shr(flags, 2) == Shr(flags, 1) / 2 == flags / 4;
    assert Shr(flags, 3) == Shr(flags, 2) / 2 == flags / 8;
  }

  /** The low and the high zone that the permanence flag selects. */
  function LowZone(flags: nat): nat {
    if Bit(flags, 3) then LOW else TMP_LOW
  }

  function HighZone(flags: nat): nat {
    if Bit(flags, 3) then HIGH else TMP_HIGH
  }

  /** What the size query answers: the larger of the spaces of the zones selected. */
  ghost predicate IsAnswer(zs: seq<Zone>, flags: nat, space: nat)
    requires |zs| == ZONES
  {
    var low, high := Space(zs, LowZone(flags)), Space(zs, HighZone(flags));
    && (flags % 4 == 0 ==> space == 0) && (flags % 4 == 1 ==> space == low) && (flags % 4 == 2 ==> space == high)
    && (flags % 4 == 3 ==> low <= space && high <= space && (space == low || space == high))
  }

  /** `handle_pmm00` with a zero length: the size query. */
  method Query(heap: Heap, flags: nat) returns (space: nat)
    requires heap.Valid()
    ensures IsAnswer(heap.zones, flags, space)
    ensures |heap.zones| == 5
    ensures var low, high := Space(heap.zones, if flags / 8 % 2 == 1 then 1 else 0),
                             Space(heap.zones, if flags / 8 % 2 == 1 then 4 else 3);
            space == if flags % 4 == 0 then 0 else if flags % 4 == 1 then low else if flags % 4 == 2 then high
                     else if low > high then low else high
  {
    BitIs(flags);
    Unfold(heap.zones, heap.live);
    if flags % 4 == 0 {
      return 0;
    }
    if flags % 4 == 1 {
      space := heap.GetSpace(LowZone(flags));
      return;
    }
    if flags % 4 == 2 {
      space := heap.GetSpace(HighZone(flags));
      return;
    }
    var low := heap.GetSpace(LowZone(flags));
    space := heap.GetSpace(HighZone(flags));
    if low > space {
      space := low;
    }
  }

  predicate WantsLow(flags: nat) {
    flags % 4 == 1 || flags % 4 == 3
  }

  predicate WantsHigh(flags: nat) {
    flags % 4 == 2 || flags % 4 == 3
  }

  ghost predicate LowServes(zs: seq<Zone>, flags: nat, size: nat, align: nat)
    requires |zs| == ZONES && align > 0
  {
    WantsLow(flags) && CanMalloc(zs, LowZone(flags), size, align)
  }

  ghost predicate HighServes(zs: seq<Zone>, flags: nat, size: nat, align: nat)
    requires |zs| == ZONES && align > 0
  {
    WantsHigh(flags) && CanMalloc(zs, HighZone(flags), size, align)
  }

  /** One zone, if the flags allow it. */
  method TryZone(heap: Heap, wanted: bool, z: nat, size: nat, align: nat)
    returns (data: Option<nat>, ghost r: nat, ghost home: nat)
    requires heap.Valid() && z < ZONES && Reasonable(size, align) && PowerOfTwo(align)
    modifies heap
    ensures heap.Valid() && Layout(heap.zones) == Layout(old(heap.zones))
    ensures data == None ==>
              heap.zones == old(heap.zones) && heap.live == old(heap.live) && heap.handles == old(heap.handles)
    ensures data == None <==> !wanted || !CanMalloc(old(heap.zones), z, size, align)
    ensures data.Some? ==>
              && NewBlock(old(heap.live), heap.live, old(heap.handles), heap.handles, r, home, z, data.value, size)
              && Highest(AfterRecord(old(heap.zones))[z], data.value, size, align)
    ensures old(AllEven(heap.zones)) && align % MIN_ALIGN == 0 ==> AllEven(heap.zones)
  {
    data, r, home := None, 0, 0;
    if wanted {
      data, r, home := heap.Malloc(z, size, align);
    }
  }

  predicate NewBlock(live: Tracking, live': Tracking, handles: map<nat, nat>, handles': map<nat, nat>,
                     r: nat, home: nat, z: nat, data: nat, size: nat)
  {
    r !in live && live' == live[r := Detail(home, z, data, data + size)] && handles' == handles[r := DEFAULT_HANDLE]
  }

  /** The low zone when the flags allow it and it has room, else the high one. */
  method TryZones(heap: Heap, flags: nat, size: nat, align: nat)
    returns (data: Option<nat>, ghost r: nat, ghost home: nat, ghost zone: nat)
    requires heap.Valid() && Reasonable(size, align) && PowerOfTwo(align)
    modifies heap
    ensures heap.Valid() && Layout(heap.zones) == Layout(old(heap.zones))
    ensures data == None ==>
              heap.zones == old(heap.zones) && heap.live == old(heap.live) && heap.handles == old(heap.handles)
    ensures data == None <==>
              !LowServes(old(heap.zones), flags, size, align) && !HighServes(old(heap.zones), flags, size, align)
    ensures zone == if LowServes(old(heap.zones), flags, size, align) then LowZone(flags) else HighZone(flags)
    ensures data.Some? ==>
              && NewBlock(old(heap.live), heap.live, old(heap.handles), heap.handles, r, home, zone, data.value, size)
              && Highest(AfterRecord(old(heap.zones))[zone], data.value, size, align)
    ensures old(AllEven(heap.zones)) && align % MIN_ALIGN == 0 ==> AllEven(heap.zones)
  {
    zone := LowZone(flags);
    data, r, home := TryZone(heap, WantsLow(flags), LowZone(flags), size, align);
    if data == None {
      zone := HighZone(flags);
      data, r, home := TryZone(heap, WantsHigh(flags), HighZone(flags), size, align);
    }
  }

  /** The size is a positive 32-bit signed number. */
  predicate Sized(length: nat) {
    0 < Bytes(length) < 0x8000_0000
  }

  function AlignOf(length: nat, flags: nat): (align: nat)
    requires Bytes(length) > 0
    ensures align > 0
  {
    Alignment(Bytes(length), Bit(flags, 2))
  }

  /** A block `r` of the requested size and alignment that carries the handle. */
  predicate IsGranted(live: Tracking, live': Tracking, handles: map<nat, nat>, r: nat, home: nat, zone: nat,
                    data: nat, length: nat, handle: nat, flags: nat)
  {
    && 0 < Bytes(length) && r !in live && live' == live[r := Detail(home, zone, data, data + Bytes(length))]
    && r in handles && handles[r] == handle && Aligned(data, AlignOf(length, flags))
  }

  /** `handle_pmm00` with a length in paragraphs: fails exactly on a size that does not
      fit, or when no zone the flags select has room. */
  method Allocate(heap: Heap, length: nat, handle: nat, flags: nat)
    returns (data: Option<nat>, ghost r: nat, ghost home: nat, ghost zone: nat)
    requires heap.Valid() && 0 < length < WORD
    modifies heap
    ensures heap.Valid() && Layout(heap.zones) == Layout(old(heap.zones))
    ensures data == None ==>
              heap.zones == old(heap.zones) && heap.live == old(heap.live) && heap.handles == old(heap.handles)
    ensures data == None <==>
              !Sized(length) || (!LowServes(old(heap.zones), flags, Bytes(length), AlignOf(length, flags)) &&
                                 !HighServes(old(heap.zones), flags, Bytes(length), AlignOf(length, flags)))
    ensures data.Some? ==>
              && IsGranted(old(heap.live), heap.live, heap.handles, r, home, zone, data.value, length, handle, flags)
              && zone == if LowServes(old(heap.zones), flags, Bytes(length), AlignOf(length, flags))
                         then LowZone(flags) else HighZone(flags)
    ensures old(AllEven(heap.zones)) ==> AllEven(heap.zones)
    ensures var zs, size := old(heap.zones), length * 16 % 0x1_0000_0000;
            var z, z' := if flags / 8 % 2 == 1 then 1 else 0, if flags / 8 % 2 == 1 then 4 else 3;
            && |zs| == 5
            && (data == None <==>
                  || size == 0 || size >= 0x8000_0000
                  || (!(flags % 2 == 1 && CanMalloc(zs, z, size, AlignOf(length, flags))) &&
                      !(flags / 2 % 2 == 1 && CanMalloc(zs, z', size, AlignOf(length, flags)))))
            && (data.Some? ==>
                  && zone == (if flags % 2 == 1 && CanMalloc(zs, z, size, AlignOf(length, flags)) then z else z')
                  && r !in old(heap.live)
                  && heap.live == old(heap.live)[r := Detail(home, zone, data.value, data.value + size)]
                  && heap.handles == old(heap.handles)[r := handle]
                  && Highest(AfterRecord(zs)[zone], data.value, size, AlignOf(length, flags)))
    ensures data.Some? ==>
              && data.value % 16 == 0
              && (flags / 4 % 2 == 1 ==>
                    forall k: nat :: length * 16 % 0x1_0000_0000 % Pow2(k) == 0 ==> data.value % Pow2(k) == 0)
  {
    hide LowServes, HighServes, LowZone, HighZone, AllEven, Layout, SoundFrom, Room, Highest, AfterRecord, CanMalloc;
    hide Shr, Pow2, Aligned, AlignOf;
    Unfold(heap.zones, heap.live);
    var size := Bytes(length);
    if size == 0 || size >= 0x8000_0000 {
      return None, 0, 0, 0;
    }
    ghost var k := RequestsAreReasonable(length, Bit(flags, 2));
    AlignOfAlignment(length, flags);
    ServesInNumerals(heap.zones, flags, size, AlignOf(length, flags));
    data, r, home, zone := Grant(heap, size, AlignOf(length, flags), handle, flags);
    if data.Some? {
      HighestIsAligned(AfterRecord(old(heap.zones))[zone], data.value, size, AlignOf(length, flags));
      forall k: nat
        ensures data.value % 16 == 0
        ensures flags / 4 % 2 == 1 && size % Pow2(k) == 0 ==> data.value % Pow2(k) == 0
      {
        NaturallyAligned(length, flags, data.value, k);
      }
    }
  }

  lemma AlignOfAlignment(length: nat, flags: nat)
    requires Bytes(length) > 0
    ensures AlignOf(length, flags) == Alignment(Bytes(length), Bit(flags, 2))
  {
  }

  lemma ServesInNumerals(zs: seq<Zone>, flags: nat, size: nat, align: nat)
    requires |zs| == 5 && align > 0
    ensures var z, z' := if flags / 8 % 2 == 1 then 1 else 0, if flags / 8 % 2 == 1 then 4 else 3;
            && LowZone(flags) == z && HighZone(flags) == z'
            && (LowServes(zs, flags, size, align) <==> flags % 2 == 1 && CanMalloc(zs, z, size, align))
            && (HighServes(zs, flags, size, align) <==> flags / 2 % 2 == 1 && CanMalloc(zs, z', size, align))
  {
    hide CanMalloc, Bit;
    BitIs(flags);
    LastTwo(flags);
  }

  lemma LastTwo(flags: nat)
    ensures WantsLow(flags) <==> flags % 2 == 1
    ensures WantsHigh(flags) <==> flags / 2 % 2 == 1
  {
    var q, r := flags / 4, flags % 4;
    assert flags == 2 * (2 * q) + r && flags / 2 == 2 * q + r / 2;
  }

  /** The block, and the handle on it. */
  method Grant(heap: Heap, size: nat, align: nat, handle: nat, flags: nat)
    returns (data: Option<nat>, ghost r: nat, ghost home: nat, ghost zone: nat)
    requires heap.Valid() && Reasonable(size, align) && PowerOfTwo(align)
    modifies heap
    ensures heap.Valid() && Layout(heap.zones) == Layout(old(heap.zones))
    ensures data == None ==>
              heap.zones == old(heap.zones) && heap.live == old(heap.live) && heap.handles == old(heap.handles)
    ensures data == None <==>
              !LowServes(old(heap.zones), flags, size, align) && !HighServes(old(heap.zones), flags, size, align)
    ensures zone == if LowServes(old(heap.zones), flags, size, align) then LowZone(flags) else HighZone(flags)
    ensures data.Some? ==>
              && r !in old(heap.live) && r in heap.handles
              && heap.live == old(heap.live)[r := Detail(home, zone, data.value, data.value + size)]
              && heap.handles == old(heap.handles)[r := handle]
              && Highest(AfterRecord(old(heap.zones))[zone], data.value, size, align)
    ensures old(AllEven(heap.zones)) && align % MIN_ALIGN == 0 ==> AllEven(heap.zones)
  {
    hide AllEven, Layout, SoundFrom, Room, Highest, AfterRecord, CanMalloc, LowServes, HighServes;
    data, r, home, zone := TryZones(heap, flags, size, align);
    if data.Some? {
      SetHandle(heap, data.value, handle, r);
    }
  }

  lemma HighestIsAligned(ns: Zone, a: nat, size: nat, align: nat)
    requires align > 0 && Highest(ns, a, size, align)
    ensures Aligned(a, align)
  {
  }

  method SetHandle(heap: Heap, data: nat, handle: nat, ghost r: nat)
    requires heap.Valid() && Starts(heap.live, r, data) && heap.handles[r] == DEFAULT_HANDLE
    modifies heap`handles
    ensures heap.Valid() && heap.handles == old(heap.handles)[r := handle]
  {
    if handle != DEFAULT_HANDLE {
      ghost var o := heap.SetHandle(data, handle);
      NeverOverlap(heap.zones, heap.live, r, o, data);
    } else {
      assert heap.handles == heap.handles[r := handle];
    }
  }

  /** The alignment is 16, or the greatest power of two that divides the size. */
  lemma AlignOfIs(length: nat, flags: nat)
    requires Sized(length)
    ensures flags / 4 % 2 == 0 ==> AlignOf(length, flags) == 16
    ensures flags / 4 % 2 == 1 ==>
              forall k: nat :: Bytes(length) % Pow2(k) == 0 <==> Pow2(k) <= AlignOf(length, flags)
  {
    BitIs(flags);
    if Bit(flags, 2) {
      var size := Bytes(length);
      var top := LowBitDivides(size);
      BytesEven(length);
      Pow2Small();
      RemIsMod(size, Pow2(4));
      assert Aligned(size, Pow2(4));
      Pow2Monotone(4, top);
      forall k: nat
        ensures size % Pow2(k) == 0 <==> Pow2(k) <= Pow2(top)
      {
        RemIsMod(size, Pow2(k));
        if k <= top {
          Pow2Monotone(k, top);
          AlignedForLess(size, k, top);
        } else {
          assert !Aligned(size, Pow2(k));
          Pow2Monotone(top + 1, k);
        }
      }
    }
  }

  /** A block aligned so is aligned to every power of two that the size is. */
  lemma NaturallyAligned(length: nat, flags: nat, data: nat, k: nat)
    requires Sized(length) && Aligned(data, AlignOf(length, flags))
    ensures data % 16 == 0
    ensures flags / 4 % 2 == 1 && Bytes(length) % Pow2(k) == 0 ==> data % Pow2(k) == 0
  {
    AlignOfIs(length, flags);
    var j := RequestsAreReasonable(length, Bit(flags, 2));
    Pow2Small();
    AlignedForLess(data, 4, j);
    RemIsMod(data, Pow2(4));
    if flags / 4 % 2 == 1 && Bytes(length) % Pow2(k) == 0 {
      Pow2Ordered(k, j);
      AlignedForLess(data, k, j);
      RemIsMod(data, Pow2(k));
    }
  }

  // ----------------------------------------------------------- the query's promise

  /** A request for no more than the size query answers has room, when free space ends
      evenly; permanent memory needs room for the record besides. */
  lemma AnswerHasRoom(zs: seq<Zone>, live: Tracking, z: nat, size: nat)
    requires Sound(zs, live) && z < ZONES && AllEven(zs)
    requires 0 < size <= Space(zs, z) && size % MIN_ALIGN == 0
    ensures z == TMP_LOW || z == TMP_HIGH || RoomForRecord(zs) ==> CanMalloc(zs, z, size, MIN_ALIGN)
  {
    RecordExactlyWhen(zs, live);
    if z == TMP_LOW || z == TMP_HIGH || RoomForRecord(zs) {
      SizeQueryIsHonest(zs, live, z, size);
      SpaceIsSmall(zs, live, z);
      CanMallocIs(zs, live, z, size, MIN_ALIGN);
    }
  }

  /** In a permanent zone the answer is exact: a request in paragraphs is granted when it
      is for no more, and a record fits. */
  lemma AnswerIsExact(zs: seq<Zone>, live: Tracking, z: nat, size: nat)
    requires Sound(zs, live) && z < ZONES && z != TMP_LOW && z != TMP_HIGH && AllEven(zs)
    requires 0 < size && size % MIN_ALIGN == 0
    ensures CanMalloc(zs, z, size, MIN_ALIGN) <==> size <= Space(zs, z) && RoomForRecord(zs)
  {
    hide SoundFrom, AllEven, Even, Regions, Keys, Layout, Space, AfterRecord;
    if size <= Space(zs, z) { AnswerHasRoom(zs, live, z, size); }
    if CanMalloc(zs, z, size, MIN_ALIGN) {
      Unfold(zs, live);
      RecordElsewhere(zs, live, z);
      var a: nat :| Aligned(a, MIN_ALIGN) && Idle(zs[z], a, a + size);
      var i := IdleAt(zs[z], a, a + size);
      SpaceIs(zs, live, z);
    }
  }

  lemma RecordElsewhere(zs: seq<Zone>, live: Tracking, z: nat)
    requires Sound(zs, live) && z < ZONES && z != TMP_LOW && z != TMP_HIGH
    ensures AfterRecord(zs)[z] == zs[z]
  {
    Unfold(zs, live);
    SoundLists(zs, live);
    if TakeRecord(zs).Some? { TakeRecordAdds(zs, live); }
  }

  lemma {:induction false} GapIsSmall(ns: Zone, hi: nat, joined: bool)
    requires Chain(ns, hi, joined)
    ensures MaxGap(ns) <= hi
    decreases ns
  {
    if ns != [] { GapIsSmall(ns[1..], ns[0].data, !Sentinel(ns[0])); }
  }

  lemma SpaceIsSmall(zs: seq<Zone>, live: Tracking, z: nat)
    requires Sound(zs, live) && z < ZONES
    ensures Space(zs, z) <= TOP
  {
    Unfold(zs, live);
    assert Listed(zs[z]);
    GapIsSmall(zs[z], TOP, false);
  }

  /** The number of bytes that asking for the answer in paragraphs comes to is one that
      a request can have. */
  predicate Askable(space: nat) {
    space >= MIN_ALIGN && space / MIN_ALIGN * MIN_ALIGN < 0x8000_0000
  }

  /** Asking for the size of the largest block and then for that many paragraphs.  On a
      heap whose free space ends evenly this succeeds exactly when the answer can be
      asked for and, for permanent memory, a record fits. */
  method AskThenTake(heap: Heap, handle: nat, flags: nat)
    returns (space: nat, data: Option<nat>, ghost r: nat, ghost home: nat, ghost zone: nat)
    requires heap.Valid() && AllEven(heap.zones)
    modifies heap
    ensures heap.Valid() && AllEven(heap.zones) && Layout(heap.zones) == Layout(old(heap.zones))
    ensures IsAnswer(old(heap.zones), flags, space)
    ensures !Bit(flags, 2) ==> (data.Some? <==> Askable(space) && (!Bit(flags, 3) || RoomForRecord(old(heap.zones))))
    ensures data == None ==>
              heap.zones == old(heap.zones) && heap.live == old(heap.live) && heap.handles == old(heap.handles)
    ensures data.Some? ==>
              && IsGranted(old(heap.live), heap.live, heap.handles, r, home, zone, data.value, space / MIN_ALIGN,
                           handle, flags)
              && var length := space / MIN_ALIGN;
              && zone == if LowServes(old(heap.zones), flags, Bytes(length), AlignOf(length, flags)) then LowZone(flags)
                         else HighZone(flags)
  {
    space := Query(heap, flags);
    AnswerIsSmall(heap.zones, heap.live, flags, space);
    if !Bit(flags, 2) { AnswerFits(heap.zones, heap.live, flags, space); }
    var length := space / MIN_ALIGN;
    data, r, home, zone := None, 0, 0, 0;
    if length > 0 {
      data, r, home, zone := Allocate(heap, length, handle, flags);
    }
  }

  /** The same after any run of even requests from an empty heap. */
  method AskThenTakeAfter(requests: seq<Request>, handle: nat, flags: nat)
    returns (heap: Heap, space: nat, data: Option<nat>, ghost states: seq<State>)
    requires forall q | q in requests :: Acceptable(q) && EvenRequest(q)
    requires !Bit(flags, 2)
    ensures Run(states, requests) && states[0] == State([[], [], [], [], []], map[], map[])
    ensures var zs := states[|requests|].zones;
            && Good(states[|requests|]) && IsAnswer(zs, flags, space)
            && (data.Some? <==> Askable(space) && (!Bit(flags, 3) || RoomForRecord(zs)))
    ensures heap.Valid()
    ensures data.Some? ==>
              exists r, home, zone ::
                IsGranted(states[|requests|].live, heap.live, heap.handles, r, home, zone, data.value,
                          space / MIN_ALIGN, handle, flags)
  {
    heap := new Heap();
    EmptyIsEven(heap.zones);
    states := Replay(heap, requests);
    assert Good(states[0]);
    RunKeeps(states, requests, |requests|);
    ghost var r, home, zone;
    space, data, r, home, zone := AskThenTake(heap, handle, flags);
  }

  lemma {:induction false} EmptyIsEven(zs: seq<Zone>)
    requires forall z | 0 <= z < |zs| :: zs[z] == []
    ensures AllEven(zs)
    decreases zs
  {
    if zs != [] { EmptyIsEven(zs[1..]); }
  }

  lemma AnswerIsSmall(zs: seq<Zone>, live: Tracking, flags: nat, space: nat)
    requires Sound(zs, live) && IsAnswer(zs, flags, space)
    ensures space <= TOP
  {
    SpaceIsSmall(zs, live, LowZone(flags));
    SpaceIsSmall(zs, live, HighZone(flags));
  }

  /** A heap with nearly all of the address space as high temporary memory. */
  lemma HugeAnswer(states: seq<State>)
    requires Run(states, [AddRegion(TMP_HIGH, 0x10_0000, 0xFFFF_0000)])
    requires states[0] == State([[], [], [], [], []], map[], map[])
    ensures Space(states[1].zones, TMP_HIGH) == 0xFFEE_FFA0 && !Askable(0xFFEE_FFA0)
  {
    var q := AddRegion(TMP_HIGH, 0x10_0000, 0xFFFF_0000);
    assert Step(states[0], [q][0], states[1]);
    var zs := states[0].zones;
    var n := Region0(0x10_0000, 0xFFFF_0000);
    var zs1 := WithRegion(zs, TMP_HIGH, 0x10_0000, 0xFFFF_0000);
    assert zs[TMP_HIGH] == [] && Insert(zs[TMP_HIGH], n) == [n] + [] == [n];
    assert zs1 == zs[TMP_HIGH := [n]];
    RemIsMod(0xFFFF_0000 - DETAIL, MIN_ALIGN);
    var a := 0xFFFE_FFD0;
    var ns := [Node(a, a, a + DETAIL, 0xFFFF_0000), n.(allocend := a)];
    assert Place(n, DETAIL, MIN_ALIGN) == a && [n][1..] == [] && ns == ns + [];
    assert Alloc([n], DETAIL, MIN_ALIGN, None) == Some((ns, a));
    assert ns[1..] == [n.(allocend := a)] && ns[1..][1..] == [];
    var ms := Rename(ns, STACK, DataInfo(a));
    var m := Node(DataInfo(a), 0x10_0000, 0x10_0000, a);
    assert Rename(ns[1..], STACK, DataInfo(a)) == [m] + [] && ms == [ns[0]] + [m];
    assert ms[1..] == [ms[1]] && ms[1..][1..] == [];
    assert MaxGap(ms[1..]) == a - 0x10_0000;
    assert states[1].zones[TMP_HIGH] == ms;
  }

  lemma AnswerFits(zs: seq<Zone>, live: Tracking, flags: nat, space: nat)
    requires Sound(zs, live) && AllEven(zs) && !Bit(flags, 2) && IsAnswer(zs, flags, space)
    ensures var size := Bytes(space / MIN_ALIGN);
            && size == space / MIN_ALIGN * MIN_ALIGN
            && (size > 0 ==> AlignOf(space / MIN_ALIGN, flags) == MIN_ALIGN)
            && (size > 0 ==> (!Bit(flags, 3) || RoomForRecord(zs) <==>
                              LowServes(zs, flags, size, MIN_ALIGN) || HighServes(zs, flags, size, MIN_ALIGN)))
  {
    AnswerIsSmall(zs, live, flags, space);
    var size := Bytes(space / MIN_ALIGN);
    BytesEven(space / MIN_ALIGN);
    if size > 0 && WantsLow(flags) && space == Space(zs, LowZone(flags)) {
      AnswerHasRoom(zs, live, LowZone(flags), size);
    } else if size > 0 {
      AnswerHasRoom(zs, live, HighZone(flags), size);
    }
  }
}
