/** Runs of the allocator: what any sequence of requests keeps. */
module ZoneRuns {
  import opened Basics
  import opened Rounding
  import opened ZoneList
  import opened ZoneHeap
  import opened ZoneAllocator

  /** The fields of the allocator, with the tracked blocks its lists stand for. */
  datatype State = State(zones: seq<Zone>, handles: map<nat, nat>, live: Tracking)

  datatype Request =
    | AddRegion(zone: nat, start: nat, end: nat)
    | Allocate(zone: nat, size: nat, align: nat)
    | GiveBack(data: nat)
    | Name(data: nat, handle: nat)

  ghost predicate Acceptable(q: Request) {
    match q
    case AddRegion(zone, start, end) => zone < ZONES && start < end <= TOP
    case Allocate(zone, size, align) => zone < ZONES && PowerOfTwo(align) && size + align <= WORD
    case _ => true
  }

  /** Regions end at, and alignments are, multiples of 16. */
  predicate EvenRequest(q: Request) {
    match q
    case AddRegion(_, _, end) => end % MIN_ALIGN == 0
    case Allocate(_, _, align) => align % MIN_ALIGN == 0
    case _ => true
  }

  ghost predicate Good(s: State) {
    Sound(s.zones, s.live) && Anonymous(s.live, s.handles)
  }

  // ----------------------------------------------------------- what a request does

  /** The region is new memory, and there is room for its record. */
  predicate Grows(s: State, z: nat, start: nat, end: nat)
    requires |s.zones| == ZONES && z < ZONES
  {
    AllClear(s.zones, start, end) && TakeRecord(WithRegion(s.zones, z, start, end)).Some?
  }

  ghost predicate Added(s: State, z: nat, start: nat, end: nat, s': State)
    requires |s.zones| == ZONES && z < ZONES
  {
    if !Grows(s, z, start, end) then s' == s
    else
      exists r: nat, home: nat ::
        SpaceTaken(s.zones, z, start, end, s'.zones, r, home) && Joins(s, r, home, z, start, start, s')
  }

  /** The block `r` is tracked, without a handle. */
  predicate Joins(s: State, r: nat, home: nat, z: nat, data: nat, dataend: nat, s': State) {
    && r !in s.live && s'.live == s.live[r := Detail(home, z, data, dataend)]
    && s'.handles == s.handles[r := DEFAULT_HANDLE]
  }

  /** Record and block are new, each at the highest place there is for it. */
  ghost predicate Takes(s: State, z: nat, size: nat, align: nat, r: nat, home: nat, data: nat, s': State)
    requires |s.zones| == ZONES && z < ZONES && align > 0
  {
    && Joins(s, r, home, z, data, data + size, s')
    && home == (if Room(s.zones[TMP_HIGH], DETAIL, MIN_ALIGN) then TMP_HIGH else TMP_LOW)
    && Highest(s.zones[home], r, DETAIL, MIN_ALIGN)
    && Highest(AfterRecord(s.zones)[z], data, size, align)
  }

  ghost predicate Allocated(s: State, z: nat, size: nat, align: nat, s': State)
    requires |s.zones| == ZONES && z < ZONES && align > 0
  {
    if size == 0 || !CanMalloc(s.zones, z, size, align) then s' == s
    else
      && Layout(s'.zones) == Layout(s.zones)
      && exists r: nat, home: nat, data: nat :: Takes(s, z, size, align, r, home, data, s')
  }

  ghost predicate Freed(s: State, data: nat, s': State) {
    if forall r :: !Starts(s.live, r, data) then s' == s
    else
      && Layout(s'.zones) == Layout(s.zones)
      && exists r :: Starts(s.live, r, data) && s'.live == s.live - {r} && s'.handles == s.handles - {r}
  }

  ghost predicate Named(s: State, data: nat, handle: nat, s': State) {
    if forall r :: !Starts(s.live, r, data) then s' == s
    else
      && s'.zones == s.zones && s'.live == s.live
      && exists r :: Starts(s.live, r, data) && s'.handles == s.handles[r := handle]
  }

  /** One request.  A region that overlaps managed memory is not one. */
  ghost predicate Step(s: State, q: Request, s': State) {
    && Acceptable(q) && Good(s) && Good(s')
    && match q
       case AddRegion(z, start, end) => Added(s, z, start, end, s')
       case Allocate(z, size, align) => Allocated(s, z, size, align, s')
       case GiveBack(data) => Freed(s, data, s')
       case Name(data, handle) => Named(s, data, handle, s')
  }

  lemma OneHighest(ns: Zone, a: nat, b: nat, size: nat, align: nat)
    requires align > 0 && Highest(ns, a, size, align) && Highest(ns, b, size, align)
    ensures a == b
  {
  }

  lemma TakesAgree(s: State, z: nat, size: nat, align: nat, r: nat, home: nat, data: nat, s1: State,
                   o: nat, home': nat, data': nat, s2: State)
    requires |s.zones| == ZONES && z < ZONES && align > 0
    requires Takes(s, z, size, align, r, home, data, s1) && Takes(s, z, size, align, o, home', data', s2)
    ensures r == o && home == home' && data == data' && s1.live == s2.live && s1.handles == s2.handles
  {
    OneHighest(s.zones[home], r, o, DETAIL, MIN_ALIGN);
    OneHighest(AfterRecord(s.zones)[z], data, data', size, align);
  }

  lemma AllocationsAgree(s: State, z: nat, size: nat, align: nat, s1: State, s2: State)
    requires |s.zones| == ZONES && z < ZONES && align > 0 && Good(s1) && Good(s2)
    requires Allocated(s, z, size, align, s1) && Allocated(s, z, size, align, s2)
    ensures s1 == s2
  {
    if 0 < size && CanMalloc(s.zones, z, size, align) {
      var r: nat, home: nat, data: nat :| Takes(s, z, size, align, r, home, data, s1);
      var o: nat, home': nat, data': nat :| Takes(s, z, size, align, o, home', data', s2);
      TakesAgree(s, z, size, align, r, home, data, s1, o, home', data', s2);
      SameBlocksSameHeap(s1.zones, s2.zones, s1.live);
    }
  }

  lemma ReleasesAgree(s: State, data: nat, s1: State, s2: State)
    requires Good(s) && Good(s1) && Good(s2) && Freed(s, data, s1) && Freed(s, data, s2)
    ensures s1 == s2
  {
    if exists r :: Starts(s.live, r, data) {
      OneBlock(s, data);
      SameBlocksSameHeap(s1.zones, s2.zones, s1.live);
    }
  }

  /** It leaves no choice: the highest places are unique, and the tracked blocks
      determine the lists. */
  lemma StepsAgree(s: State, q: Request, s1: State, s2: State)
    requires Step(s, q, s1) && Step(s, q, s2)
    ensures s1 == s2
  {
    match q {
      case AddRegion(z, start, end) =>
      case Allocate(z, size, align) =>
        AllocationsAgree(s, z, size, align, s1, s2);
      case GiveBack(data) =>
        ReleasesAgree(s, data, s1, s2);
      case Name(data, handle) =>
        OneBlock(s, data);
    }
  }

  lemma OneBlock(s: State, data: nat)
    requires Good(s)
    ensures forall r, o | Starts(s.live, r, data) && Starts(s.live, o, data) :: r == o
  {
    forall r, o | Starts(s.live, r, data) && Starts(s.live, o, data)
      ensures r == o
    {
      NeverOverlap(s.zones, s.live, r, o, data);
    }
  }

  // --------------------------------------------------------------------- runs

  ghost predicate Run(states: seq<State>, requests: seq<Request>) {
    |states| == |requests| + 1 && forall i | 0 <= i < |requests| :: Step(states[i], requests[i], states[i + 1])
  }

  /** A region that a zone was given. */
  datatype Grant = Grant(zone: nat, region: Region)

  /** The regions added by the first `n` requests, the last one first. */
  ghost function Grants(states: seq<State>, requests: seq<Request>, n: nat): seq<Grant>
    requires Run(states, requests) && n <= |requests|
    decreases n
  {
    if n == 0 then []
    else
      var before := Grants(states, requests, n - 1);
      match requests[n - 1]
      case AddRegion(z, start, end) =>
        assert Step(states[n - 1], requests[n - 1], states[n]);
        if Grows(states[n - 1], z, start, end) then [Grant(z, Region(start, end))] + before else before
      case _ => before
  }

  function Granted(grants: seq<Grant>, z: nat): multiset<Region>
    decreases grants
  {
    if grants == [] then multiset{}
    else Granted(grants[1..], z) + if grants[0].zone == z then multiset{grants[0].region} else multiset{}
  }

  /** Every zone manages what it managed and the regions it was given since. */
  ghost predicate LayoutGrew(before: seq<seq<Region>>, after: seq<seq<Region>>, grants: seq<Grant>) {
    && |before| == |after| == ZONES
    && (forall z | 0 <= z < ZONES :: multiset(after[z]) == multiset(before[z]) + Granted(grants, z))
    && (grants == [] ==> after == before)
  }

  lemma OneMore(before: seq<seq<Region>>, mid: seq<seq<Region>>, after: seq<seq<Region>>, grants: seq<Grant>, g: Grant)
    requires LayoutGrew(before, mid, grants) && g.zone < ZONES && |after| == ZONES &&
             after == mid[g.zone := after[g.zone]]
    requires multiset(after[g.zone]) == multiset(mid[g.zone]) + multiset{g.region}
    ensures LayoutGrew(before, after, [g] + grants)
  {
    assert ([g] + grants)[1..] == grants;
    forall z | 0 <= z < ZONES
      ensures multiset(after[z]) == multiset(before[z]) + Granted([g] + grants, z)
    {
      assert multiset(mid[z]) == multiset(before[z]) + Granted(grants, z);
    }
  }

  /** An allocation that succeeds has the outcome of the two first fits. */
  lemma AllocatedIs(s: State, z: nat, size: nat, align: nat, s': State)
    requires Step(s, Allocate(z, size, align), s') && 0 < size && CanMalloc(s.zones, z, size, align)
    ensures Succeeds(s.zones, z, size, align)
    ensures var t := TakeRecord(s.zones).value;
            var b := Block(t, z, size, align).value;
            s'.zones == t.zones[z := b.0]
  {
    CanMallocIs(s.zones, s.live, z, size, align);
    var t := TakeRecord(s.zones).value;
    var b := Block(t, z, size, align).value;
    TwoFits(s, z, size, align, t, b);
    var s1 := State(t.zones[z := b.0], s.handles[t.record := DEFAULT_HANDLE],
                    s.live[t.record := Detail(t.home, z, b.1, b.1 + size)]);
    AllocationsAgree(s, z, size, align, s1, s');
  }

  lemma TwoFits(s: State, z: nat, size: nat, align: nat, t: Taken, b: (Zone, nat))
    requires Good(s) && z < ZONES && Reasonable(size, align) && CanMalloc(s.zones, z, size, align)
    requires TakeRecord(s.zones) == Some(t) && z < |t.zones| && Block(t, z, size, align) == Some(b)
    ensures var s' := State(t.zones[z := b.0], s.handles[t.record := DEFAULT_HANDLE],
                            s.live[t.record := Detail(t.home, z, b.1, b.1 + size)]);
            Good(s') && Allocated(s, z, size, align, s')
  {
    hide Alloc, SoundFrom, Layout, Room, Highest, TakeRecord;
    PlacesAreHighest(s.zones, s.live, z, size, align);
    MallocTracks(s.zones, s.live, t, z, size, align, b.0, b.1);
    var s' := State(t.zones[z := b.0], s.handles[t.record := DEFAULT_HANDLE],
                s.live[t.record := Detail(t.home, z, b.1, b.1 + size)]);
    assert Takes(s, z, size, align, t.record, t.home, b.1, s');
  }

  /** A release that succeeds gives back the block's node and then its record's. */
  lemma FreedIs(s: State, data: nat, s': State) returns (z: nat, i: nat, home: nat, j: nat)
    requires Step(s, GiveBack(data), s') && exists r :: Starts(s.live, r, data)
    ensures z < |s.zones| && i < |s.zones[z]|
    ensures var zs := s.zones[z := Release(s.zones[z], i)];
            home < |zs| && j < |zs[home]| && s'.zones == zs[home := Release(zs[home], j)]
  {
    var r :| Starts(s.live, r, data) && s'.live == s.live - {r} && s'.handles == s.handles - {r};
    z, i := BlockAt(s.zones, s.live, r);
    Unfold(s.zones, s.live);
    RecordStays(s.zones, s.live, r, z, i);
    var zs: seq<Zone> := s.zones[z := Release(s.zones[z], i)];
    home, j :| 0 <= home < |zs| && 0 <= j < |zs[home]| && zs[home][j].info == r;
    RecordStillAlone(s.zones, s.live, r, z, i, home, j);
    FreeUntracks(s.zones, s.live, r, i, j);
    SameBlocksSameHeap(s'.zones, zs[home := Release(zs[home], j)], s'.live);
  }

  lemma StepKeepsEven(s: State, q: Request, s': State)
    requires Step(s, q, s') && AllEven(s.zones) && EvenRequest(q)
    ensures AllEven(s'.zones)
  {
    match q {
      case AddRegion(z, start, end) =>
        if Grows(s, z, start, end) {
          SpaceKeepsEven(s.zones, s.live, z, start, end, TakeRecord(WithRegion(s.zones, z, start, end)).value);
        }
      case Allocate(z, size, align) =>
        if 0 < size && CanMalloc(s.zones, z, size, align) {
          AllocatedIs(s, z, size, align, s');
          var t := TakeRecord(s.zones).value;
          var b := Block(t, z, size, align).value;
          MallocKeepsEven(s.zones, s.live, t, z, size, align, b.0, b.1);
        }
      case GiveBack(data) =>
        if exists r :: Starts(s.live, r, data) {
          var z, i, home, j := FreedIs(s, data, s');
          BothFreedEven(s.zones, z, i, home, j);
        }
      case Name(_, _) =>
    }
  }

  /** Only a region that is added changes the layout. */
  lemma StepKeepsLayout(s: State, q: Request, s': State)
    requires Step(s, q, s')
    ensures |Layout(s.zones)| == |Layout(s'.zones)| == ZONES
    ensures if q.AddRegion? && Grows(s, q.zone, q.start, q.end)
            then Layout(s'.zones) == Layout(s.zones)[q.zone := Layout(s'.zones)[q.zone]] &&
                 multiset(Layout(s'.zones)[q.zone]) ==
                 multiset(Layout(s.zones)[q.zone]) + multiset{Region(q.start, q.end)}
            else Layout(s'.zones) == Layout(s.zones)
  {
    if q.AddRegion? && Grows(s, q.zone, q.start, q.end) {
      SpaceTracks(s.zones, s.live, q.zone, q.start, q.end,
                  TakeRecord(WithRegion(s.zones, q.zone, q.start, q.end)).value);
    }
  }

  /** After any `n` requests: the lists are sound; the regions managed are those at the
      start and those added; free space ends evenly if it did and the requests are even;
      and when just the blocks of the start are in use and no region was added, every
      zone is exactly what it was, with each region coalesced again. */
  lemma {:induction false} RunKeeps(states: seq<State>, requests: seq<Request>, n: nat)
    requires Run(states, requests) && Good(states[0]) && n <= |requests|
    ensures Good(states[n])
    ensures LayoutGrew(Layout(states[0].zones), Layout(states[n].zones), Grants(states, requests, n))
    ensures AllEven(states[0].zones) && (forall i | 0 <= i < n :: EvenRequest(requests[i])) ==>
              AllEven(states[n].zones)
    ensures states[n].live == states[0].live && Grants(states, requests, n) == [] ==>
              states[n].zones == states[0].zones
    decreases n
  {
    if n > 0 {
      RunKeeps(states, requests, n - 1);
      var s, q, s' := states[n - 1], requests[n - 1], states[n];
      assert Step(states[n - 1], requests[n - 1], states[n]);
      StepKeepsLayout(s, q, s');
      var grants := Grants(states, requests, n - 1);
      if q.AddRegion? && Grows(s, q.zone, q.start, q.end) {
        OneMore(Layout(states[0].zones), Layout(s.zones), Layout(s'.zones), grants,
                Grant(q.zone, Region(q.start, q.end)));
      }
      if AllEven(s.zones) && EvenRequest(q) { StepKeepsEven(s, q, s'); }
      if s'.live == states[0].live && Grants(states, requests, n) == [] {
        SameBlocksSameHeap(states[0].zones, s'.zones, s'.live);
      }
    }
  }

  /** At every moment memory in use is apart: blocks, records, and blocks and records. */
  lemma InUseApart(states: seq<State>, requests: seq<Request>, n: nat, r: nat, o: nat, x: nat)
    requires Run(states, requests) && Good(states[0]) && n <= |requests|
    ensures InBlock(states[n].live, r, x) && InBlock(states[n].live, o, x) ==> r == o
    ensures InRecord(states[n].live, r, x) && InRecord(states[n].live, o, x) ==> r == o
    ensures !(InBlock(states[n].live, r, x) && InRecord(states[n].live, o, x))
  {
    RunKeeps(states, requests, n);
    NeverOverlap(states[n].zones, states[n].live, r, o, x);
  }

  /** The requests determine the run. */
  lemma {:induction false} RunsAgree(s1: seq<State>, s2: seq<State>, requests: seq<Request>, n: nat)
    requires Run(s1, requests) && Run(s2, requests) && s1[0] == s2[0] && n <= |requests|
    ensures s1[n] == s2[n]
    decreases n
  {
    if n > 0 {
      RunsAgree(s1, s2, requests, n - 1);
      assert Step(s1[n - 1], requests[n - 1], s1[n]) && Step(s2[n - 1], requests[n - 1], s2[n]);
      StepsAgree(s1[n - 1], requests[n - 1], s1[n], s2[n]);
    }
  }

  // ------------------------------------------------------------- on the heap

  ghost function StateOf(heap: Heap): State
    reads heap
  {
    State(heap.zones, heap.handles, heap.live)
  }

  /** One request is one step. */
  method Serve(heap: Heap, q: Request)
    requires heap.Valid() && Acceptable(q)
    modifies heap
    ensures heap.Valid() && Step(old(StateOf(heap)), q, StateOf(heap))
  {
    ghost var s := StateOf(heap);
    match q {
      case AddRegion(zone, start, end) =>
        if AllClear(heap.zones, start, end) {
          ghost var record, home := heap.AddSpace(zone, start, end);
          if record.Some? { assert Joins(s, record.value, home, zone, start, start, StateOf(heap)); }
        }
      case Allocate(zone, size, align) =>
        var data;
        ghost var r, home;
        data, r, home := heap.Malloc(zone, size, align);
        if data.Some? { assert Takes(s, zone, size, align, r, home, data.value, StateOf(heap)); }
      case GiveBack(data) =>
        var ret;
        ghost var r;
        ret, r := heap.Free(data);
        if ret == 0 { assert Starts(s.live, r, data); }
      case Name(data, handle) =>
        ghost var r := heap.SetHandle(data, handle);
    }
  }

  /** Any sequence of requests is a run. */
  method Replay(heap: Heap, requests: seq<Request>) returns (ghost states: seq<State>)
    requires heap.Valid() && forall q | q in requests :: Acceptable(q)
    modifies heap
    ensures heap.Valid() && Run(states, requests)
    ensures states[0] == old(StateOf(heap)) && states[|requests|] == StateOf(heap)
  {
    states := [StateOf(heap)];
    var i := 0;
    while i < |requests|
      invariant i <= |requests| && heap.Valid() && Run(states, requests[..i])
      invariant states[0] == old(StateOf(heap)) && states[i] == StateOf(heap)
    {
      assert requests[i] in requests;
      Serve(heap, requests[i]);
      OneMoreStep(states, requests, i, StateOf(heap));
      states := states + [StateOf(heap)];
      i := i + 1;
    }
    assert requests[..i] == requests;
  }

  lemma OneMoreStep(states: seq<State>, requests: seq<Request>, i: nat, s: State)
    requires i < |requests| && Run(states, requests[..i]) && Step(states[i], requests[i], s)
    ensures Run(states + [s], requests[..i + 1])
  {
    forall j | 0 <= j <= i
      ensures Step((states + [s])[j], requests[..i + 1][j], (states + [s])[j + 1])
    {
      if j < i { assert Step(states[j], requests[..i][j], states[j + 1]); }
    }
  }
}
