/** The area option ROMs share with low memory blocks: `rom_reserve` and `rom_confirm`
    of seabios/src/malloc.c, as built with CONFIG_MALLOC_UPPERMEMORY. */
module OptionRom {
  import opened Basics
  import opened Rounding
  import opened ZoneList

  const ROM_START := 0xC_0000
  /** `BUILD_BIOS_ADDR` and a bit: the area ends below the first megabyte. */
  const AREA_END := 0x10_0000
  const ROM_ALIGN := 2048
  const HEADER_RESERVE := 16

  /** `ALIGN(end + size, OPTION_ROM_ALIGN)` in 32-bit arithmetic. */
  function NewEnd(end: nat, size: nat): nat {
    AlignDown((end + size + (ROM_ALIGN - 1)) % WORD, ROM_ALIGN)
  }

  predicate Wraps(end: nat, size: nat) {
    end + size + (ROM_ALIGN - 1) >= WORD
  }

  /** Not even rounding up makes good for the wrap. */
  predicate Shrinks(end: nat, size: nat) {
    Wraps(end, size) && size + (ROM_ALIGN - 1) < WORD
  }

  /** A size of this kind: ROMs that reach to 0xD0000 would seem to end at 0xC0000. */
  lemma ShrinkingSize()
    ensures Shrinks(0xD_0000, 0xFFFF_0000) && NewEnd(0xD_0000, 0xFFFF_0000) == 0xC_0000
  {
    RemIsMod(0xC_07FF, ROM_ALIGN);
  }

  lemma InNumerals(end: nat, size: nat, allocend: nat)
    requires allocend >= 16
    ensures NewEnd(end, size) == (end + size + 2047) % 0x1_0000_0000 / 2048 * 2048
    ensures AlignDown(Sub32(allocend, HEADER_RESERVE), ROM_ALIGN) == (allocend - 16) / 2048 * 2048
  {
    RemIsMod((end + size + 2047) % 0x1_0000_0000, 2048);
    RemIsMod(allocend - 16, 2048);
  }

  lemma AlignedDown(x: nat)
    ensures AlignDown(x, ROM_ALIGN) % ROM_ALIGN == 0
  {
    RemIsMod(x, ROM_ALIGN);
  }

  /** The end of the ROMs moves down exactly when the sum wraps around 32 bits, but not
      so far that rounding up makes good for it. */
  lemma ShrinksExactlyWhen(end: nat, size: nat)
    requires end % ROM_ALIGN == 0 && end < WORD && size < WORD
    ensures NewEnd(end, size) < end <==> Shrinks(end, size)
    ensures !Wraps(end, size) ==> NewEnd(end, size) >= end + size
  {
    var x := (end + size + (ROM_ALIGN - 1)) % WORD;
    AlignedDown(x);
    RemIsMod(end, ROM_ALIGN);
    if Wraps(end, size) {
      assert x == end + size + (ROM_ALIGN - 1) - WORD;
      if size + (ROM_ALIGN - 1) >= WORD { AlignDownIsGreatest(x, end, ROM_ALIGN); }
    }
  }

  // ------------------------------------------------- the sentinel of a lone region

  /** The last node of a zone with one region is its only sentinel. */
  lemma {:induction false} LoneRegion(ns: Zone, hi: nat, top: nat, joined: bool)
    requires Chain(ns, hi, joined) && |Regions(ns, top, joined)| == 1
    ensures ns != [] && Sentinel(ns[|ns| - 1]) && ns[|ns| - 1].data == Regions(ns, top, joined)[0].start
    ensures forall i | 0 <= i < |ns| - 1 :: !Sentinel(ns[i])
    decreases ns
  {
    var n, t := ns[0], if joined then top else ns[0].allocend;
    if Sentinel(n) {
      if ns[1..] != [] { FirstRegion(ns[1..], n.data, t, false); }
    } else {
      LoneRegion(ns[1..], n.data, t, true);
    }
  }

  /** Moving that sentinel within its free space moves the start of the region. */
  lemma {:induction false} MoveBase(ns: Zone, hi: nat, top: nat, joined: bool, d: nat)
    requires Chain(ns, hi, joined) && |Regions(ns, top, joined)| == 1 && ns != [] && d <= ns[|ns| - 1].allocend
    ensures var ns' := ns[|ns| - 1 := ns[|ns| - 1].(data := d, dataend := d)];
            && Chain(ns', hi, joined)
            && Regions(ns', top, joined) == [Region(d, Regions(ns, top, joined)[0].end)]
    decreases ns
  {
    var n, t := ns[0], if joined then top else ns[0].allocend;
    var ns' := ns[|ns| - 1 := ns[|ns| - 1].(data := d, dataend := d)];
    if Sentinel(n) {
      if ns[1..] != [] { FirstRegion(ns[1..], n.data, t, false); }
      assert ns'[1..] == [];
    } else {
      MoveBase(ns[1..], n.data, t, true, d);
      assert ns'[1..] == ns[1..][|ns| - 2 := ns[|ns| - 1].(data := d, dataend := d)];
    }
  }

  /** `rom_get_max`: the last place an option ROM may end. */
  function RomMax(low: Zone): nat
    requires low != []
  {
    AlignDown(Sub32(low[|low| - 1].allocend, HEADER_RESERVE), ROM_ALIGN)
  }

  /** The list of `ZoneLow`, whose last node is `RomBase`, and `RomEnd`. */
  datatype Moment = Moment(low: Zone, romEnd: nat)

  /** Low memory is one region that starts above the end of the ROMs and the base, with
      the header reserve between. */
  predicate Separate(base: nat, s: Moment) {
    && Chain(s.low, AREA_END, false) && |Regions(s.low, AREA_END, false)| == 1
    && s.romEnd % ROM_ALIGN == 0 && ROM_START <= base
    && s.romEnd + HEADER_RESERVE <= Start(s.low) && base + HEADER_RESERVE <= Start(s.low)
  }

  /** The lowest address a low memory block may get. */
  function Start(low: Zone): nat
    requires |Regions(low, AREA_END, false)| == 1
  {
    Regions(low, AREA_END, false)[0].start
  }

  /** The list with the sentinel moved up behind a ROM that ends at `end`. */
  function Behind(low: Zone, base: nat, end: nat): Zone
    requires low != []
  {
    var d := (if end < base then base else end) + HEADER_RESERVE;
    low[|low| - 1 := low[|low| - 1].(data := d, dataend := d)]
  }

  /** There is space for a ROM of this size. */
  predicate Reservable(s: Moment, size: nat)
    requires s.low != []
  {
    NewEnd(s.romEnd, size) <= RomMax(s.low)
  }

  /** The list ends in the sentinel, above which `rom_get_max` leaves room. */
  lemma MaxIs(base: nat, s: Moment)
    requires Separate(base, s)
    ensures s.low != [] && s.romEnd <= RomMax(s.low) < AREA_END
    ensures RomMax(s.low) + HEADER_RESERVE <= s.low[|s.low| - 1].allocend
    ensures base + HEADER_RESERVE <= s.low[|s.low| - 1].allocend
  {
    LoneRegion(s.low, AREA_END, AREA_END, false);
    AtIndex(s.low, AREA_END, false, |s.low| - 1);
    EndBelowMax(s.romEnd, s.low[|s.low| - 1].allocend);
  }

  lemma EndBelowMax(romEnd: nat, end: nat)
    requires romEnd % ROM_ALIGN == 0 && romEnd + HEADER_RESERVE <= end
    ensures romEnd <= AlignDown(end - HEADER_RESERVE, ROM_ALIGN)
  {
    RemIsMod(romEnd, ROM_ALIGN);
    AlignDownIsGreatest(end - HEADER_RESERVE, romEnd, ROM_ALIGN);
  }

  /** A reservation up to `rom_get_max` moves the sentinel within its free space. */
  lemma ReservedIs(base: nat, s: Moment, size: nat)
    requires Separate(base, s) && s.low != [] && Reservable(s, size)
    ensures var low, end := Behind(s.low, base, NewEnd(s.romEnd, size)), NewEnd(s.romEnd, size);
            && Chain(low, AREA_END, false) && |Regions(low, AREA_END, false)| == 1
            && Start(low) == (if end < base then base else end) + HEADER_RESERVE
  {
    MaxIs(base, s);
    var end := NewEnd(s.romEnd, size);
    MoveBase(s.low, AREA_END, AREA_END, false, (if end < base then base else end) + HEADER_RESERVE);
  }

  class RomArea {
    /** `zonelow_base`. */
    const base: nat
    var low: Zone
    var romEnd: nat

    ghost predicate Valid()
      reads this
    {
      Separate(base, Now())
    }

    ghost function Now(): Moment
      reads this
    {
      Moment(low, romEnd)
    }

    /** After `malloc_init`. */
    constructor (base: nat, end: nat, info: nat)
      requires ROM_START <= base && base + HEADER_RESERVE <= end <= AREA_END
      ensures Valid() && this.base == base && romEnd == 0xC_0000
      ensures low == [Node(info, base + HEADER_RESERVE, base + HEADER_RESERVE, end)]
    {
      this.base := base;
      var n := Node(info, base + HEADER_RESERVE, base + HEADER_RESERVE, end);
      low, romEnd := [n], ROM_START;
      assert [n][1..] == [];
    }

    /** `rom_get_max`. */
    method GetMax() returns (max: nat)
      requires Valid()
      ensures low != [] && max == RomMax(low) && romEnd <= max
    {
      MaxIs(base, Now());
      max := AlignDown(Sub32(low[|low| - 1].allocend, HEADER_RESERVE), ROM_ALIGN);
    }

    /** `rom_reserve`: only the start of free low memory moves, and only when the space
        is there. */
    method Reserve(size: nat) returns (rom: Option<nat>)
      requires Valid() && size < WORD
      modifies `low
      ensures old(low) != [] && Now() == Next(base, old(Now()), Step.Reserve(size))
      ensures rom == if Reservable(old(Now()), size) then Some(romEnd) else None
      ensures Valid() <==> !Reservable(old(Now()), size) || !Shrinks(romEnd, size) || romEnd <= base
      ensures var i := |old(low)| - 1;
              var last := old(low)[i];
              var end, max := (romEnd + size + 2047) % 0x1_0000_0000 / 2048 * 2048, (last.allocend - 16) / 2048 * 2048;
              var start := (if end < base then base else end) + 16;
              && rom == (if end <= max then Some(romEnd) else None)
              && low == (if end <= max then old(low)[i := last.(data := start, dataend := start)] else old(low))
    {
      ReserveExactly(base, Now(), size);
      MaxIs(base, Now());
      InNumerals(romEnd, size, low[|low| - 1].allocend);
      var newend := NewEnd(romEnd, size);
      var max := GetMax();
      if newend > max {
        return None;
      }
      if newend < base {
        newend := base;
      }
      var last := |low| - 1;
      low := low[last := low[last].(data := newend + HEADER_RESERVE, dataend := newend + HEADER_RESERVE)];
      rom := Some(romEnd);
    }

    /** `rom_confirm`. */
    method Confirm(size: nat) returns (ret: int)
      requires Valid() && size < WORD
      modifies `low, `romEnd
      ensures old(low) != [] && Now() == Next(base, old(Now()), Step.Confirm(size))
      ensures ret == if Reservable(old(Now()), size) then 0 else -1
      ensures Valid() && (ret == 0 ==> (old(romEnd) <= romEnd <==> !Shrinks(old(romEnd), size)))
      ensures var i := |old(low)| - 1;
              var last := old(low)[i];
              var end := (old(romEnd) + size + 2047) % 0x1_0000_0000 / 2048 * 2048;
              var start := (if end < base then base else end) + 16;
              if end <= (last.allocend - 16) / 2048 * 2048
              then ret == 0 && romEnd == end && low == old(low)[i := last.(data := start, dataend := start)]
              else ret == -1 && romEnd == old(romEnd) && low == old(low)
    {
      ConfirmExactly(base, Now(), size);
      MaxIs(base, Now());
      InNumerals(romEnd, size, low[|low| - 1].allocend);
      var rom := Reserve(size);
      if rom == None {
        return -1;
      }
      romEnd := NewEnd(romEnd, size);
      return 0;
    }

    /** A low memory block. */
    method Take(size: nat, align: nat, info: nat) returns (data: Option<nat>)
      requires Valid() && Reasonable(size, align) && PowerOfTwo(align)
      modifies `low
      ensures Valid() && Now() == Next(base, old(Now()), Step.Take(size, align, info))
      ensures data.Some? ==>
                && romEnd + 16 <= data.value
                && Keys(low) == Keys(old(low)) + {Node(info, data.value, data.value + size, 0)}
                && Regions(low, AREA_END, false) == Regions(old(low), AREA_END, false)
      ensures data == None <==> !Room(old(low), size, align)
      ensures data == None ==> low == old(low)
      ensures data.Some? ==> Highest(old(low), data.value, size, align)
    {
      TakeIs(base, Now(), size, align, info);
      var t := Alloc(low, size, align, Some(info));
      if t == None {
        return None;
      }
      low := t.value.0;
      data := Some(t.value.1);
    }

    method GiveBack(i: nat)
      requires Valid() && i < |low| && !Sentinel(low[i])
      modifies `low
      ensures Valid() && Now() == Next(base, old(Now()), Step.GiveBack(i))
      ensures Keys(low) == Keys(old(low)) - {Key(old(low)[i])}
    {
      ReleaseRemoves(low, AREA_END, AREA_END, false, i);
      low := Release(low, i);
    }
  }

  lemma {:induction false} IdleAbove(ns: Zone, hi: nat, top: nat, joined: bool, a: nat, b: nat)
    requires Chain(ns, hi, joined) && |Regions(ns, top, joined)| == 1 && Idle(ns, a, b)
    ensures Regions(ns, top, joined)[0].start <= a
    decreases ns
  {
    LoneRegion(ns, hi, top, joined);
    AtIndex(ns, hi, joined, |ns| - 1);
    if |ns| > 1 { Descending(ns, hi, joined, 0, |ns| - 1); }
    if !(ns[0].dataend <= a <= b <= ns[0].allocend) {
      IdleAbove(ns[1..], ns[0].data, if joined then top else ns[0].allocend, !Sentinel(ns[0]), a, b);
    }
  }

  lemma TakeIs(base: nat, s: Moment, size: nat, align: nat, info: nat)
    requires Separate(base, s) && Reasonable(size, align)
    ensures s.low != [] && (Alloc(s.low, size, align, Some(info)).Some? <==> Room(s.low, size, align))
    ensures Alloc(s.low, size, align, Some(info)).Some? ==>
              var (low, a) := Alloc(s.low, size, align, Some(info)).value;
              && Highest(s.low, a, size, align) && Start(s.low) <= a
              && Keys(low) == Keys(s.low) + {Node(info, a, a + size, 0)}
              && Chain(low, AREA_END, false) && Regions(low, AREA_END, false) == Regions(s.low, AREA_END, false)
  {
    LoneRegion(s.low, AREA_END, AREA_END, false);
    AllocExactlyWhen(s.low, AREA_END, false, size, align, Some(info));
    if Alloc(s.low, size, align, Some(info)).Some? {
      var a := Alloc(s.low, size, align, Some(info)).value.1;
      AllocKeeps(s.low, AREA_END, AREA_END, false, size, align, Some(info));
      AllocAdds(s.low, size, align, Some(info));
      AllocTakesHighest(s.low, AREA_END, false, size, align, Some(info));
      IdleAbove(s.low, AREA_END, AREA_END, false, a, a + size);
    }
  }

  /** ROMs and low memory blocks never meet: every block lies above the end of the ROMs
      and the header reserve, and that end never passes `rom_get_max`. */
  lemma Separation(base: nat, s: Moment, i: nat)
    requires Separate(base, s) && i < |s.low|
    ensures s.romEnd + 16 <= s.low[i].data && base + 16 <= s.low[i].data
    ensures s.romEnd <= RomMax(s.low) <= s.low[|s.low| - 1].allocend - 16
  {
    LoneRegion(s.low, AREA_END, AREA_END, false);
    MaxIs(base, s);
    if i < |s.low| - 1 { Descending(s.low, AREA_END, false, i, |s.low| - 1); }
  }

  // ------------------------------------------------------------------- runs

  datatype Step =
    | Reserve(size: nat)
    | Confirm(size: nat)
    | Take(size: nat, align: nat, info: nat)
    | GiveBack(index: nat)

  ghost predicate Allowed(s: Step) {
    match s
    case Reserve(size) => size < WORD
    case Confirm(size) => size < WORD
    case Take(size, align, _) => Reasonable(size, align) && PowerOfTwo(align)
    case GiveBack(_) => true
  }

  /** What one step does. */
  function Next(base: nat, s: Moment, step: Step): Moment
    requires s.low != [] && (step.Take? ==> step.align > 0)
  {
    match step
    case Reserve(size) =>
      if Reservable(s, size) then s.(low := Behind(s.low, base, NewEnd(s.romEnd, size))) else s
    case Confirm(size) =>
      if Reservable(s, size) then Moment(Behind(s.low, base, NewEnd(s.romEnd, size)), NewEnd(s.romEnd, size)) else s
    case Take(size, align, info) =>
      (match Alloc(s.low, size, align, Some(info))
       case None => s
       case Some(t) => s.(low := t.0))
    case GiveBack(i) =>
      if i < |s.low| && !Sentinel(s.low[i]) then s.(low := Release(s.low, i)) else s
  }

  /** A reservation keeps ROMs and blocks apart exactly when it is refused, the rounded
      sum does not lie below the end of the ROMs, or that end is below the base anyway. */
  lemma ReserveExactly(base: nat, s: Moment, size: nat)
    requires Separate(base, s) && size < WORD
    ensures s.low != []
    ensures Separate(base, Next(base, s, Reserve(size))) <==>
            !Reservable(s, size) || !Shrinks(s.romEnd, size) || s.romEnd <= base
  {
    MaxIs(base, s);
    if Reservable(s, size) { ReservedIs(base, s, size); }
    ShrinksExactlyWhen(s.romEnd, size);
  }

  /** A confirmation always does, but moves the end of the ROMs down exactly when the
      rounded sum lies below it. */
  lemma ConfirmExactly(base: nat, s: Moment, size: nat)
    requires Separate(base, s) && size < WORD
    ensures s.low != []
    ensures Separate(base, Next(base, s, Confirm(size)))
    ensures s.romEnd <= Next(base, s, Confirm(size)).romEnd <==> !Reservable(s, size) || !Shrinks(s.romEnd, size)
  {
    MaxIs(base, s);
    if Reservable(s, size) { ReservedIs(base, s, size); }
    ShrinksExactlyWhen(s.romEnd, size);
    AlignedDown((s.romEnd + size + (ROM_ALIGN - 1)) % WORD);
  }

  /** The condition, which a caller can check. */
  predicate Gentle(base: nat, s: Moment, step: Step)
    requires s.low != []
  {
    match step
    case Reserve(size) => !Reservable(s, size) || !Shrinks(s.romEnd, size) || s.romEnd <= base
    case Confirm(size) => !Reservable(s, size) || !Shrinks(s.romEnd, size)
    case _ => true
  }

  lemma StepExactly(base: nat, s: Moment, step: Step)
    requires Separate(base, s) && Allowed(step)
    ensures s.low != []
    ensures Separate(base, Next(base, s, step)) && s.romEnd <= Next(base, s, step).romEnd <==> Gentle(base, s, step)
  {
    MaxIs(base, s);
    match step {
      case Reserve(size) => ReserveExactly(base, s, size);
      case Confirm(size) => ConfirmExactly(base, s, size);
      case Take(size, align, info) =>
        if Alloc(s.low, size, align, Some(info)).Some? {
          AllocKeeps(s.low, AREA_END, AREA_END, false, size, align, Some(info));
        }
      case GiveBack(i) =>
        if i < |s.low| && !Sentinel(s.low[i]) { ReleaseRemoves(s.low, AREA_END, AREA_END, false, i); }
    }
  }

  /** The moments of a run. */
  ghost predicate Run(base: nat, moments: seq<Moment>, steps: seq<Step>) {
    && |moments| == |steps| + 1
    && (forall i | 0 <= i < |steps| :: Follows(base, moments[i], steps[i], moments[i + 1]))
  }

  ghost predicate Follows(base: nat, s: Moment, step: Step, s': Moment) {
    Allowed(step) && s.low != [] && s' == Next(base, s, step)
  }

  ghost predicate AllGentle(base: nat, moments: seq<Moment>, steps: seq<Step>)
    requires Run(base, moments, steps)
  {
    forall i | 0 <= i < |steps| ::
      Follows(base, moments[i], steps[i], moments[i + 1]) && Gentle(base, moments[i], steps[i])
  }

  /** At every moment ROMs and blocks are apart, and the end of the ROMs has not moved
      down. */
  ghost predicate AlwaysApart(base: nat, moments: seq<Moment>) {
    && (forall i | 0 <= i < |moments| :: Separate(base, moments[i]))
    && (forall i, j | 0 <= i <= j < |moments| :: moments[i].romEnd <= moments[j].romEnd)
  }

  /** Over any interleaving of ROM and memory requests this holds if and only if every
      request meets the condition. */
  lemma AlwaysApartExactly(base: nat, moments: seq<Moment>, steps: seq<Step>)
    requires Run(base, moments, steps) && Separate(base, moments[0])
    ensures AlwaysApart(base, moments) <==> AllGentle(base, moments, steps)
  {
    if AllGentle(base, moments, steps) {
      forall j | 0 <= j < |moments|
        ensures Separate(base, moments[j]) && forall i | 0 <= i <= j :: moments[i].romEnd <= moments[j].romEnd
      {
        GentleRun(base, moments, steps, j);
      }
    }
    if AlwaysApart(base, moments) {
      forall i | 0 <= i < |steps|
        ensures Follows(base, moments[i], steps[i], moments[i + 1]) && Gentle(base, moments[i], steps[i])
      {
        assert Follows(base, moments[i], steps[i], moments[i + 1]);
        assert Separate(base, moments[i]) && Separate(base, moments[i + 1]);
        StepExactly(base, moments[i], steps[i]);
      }
    }
  }

  lemma {:induction false} GentleRun(base: nat, moments: seq<Moment>, steps: seq<Step>, j: nat)
    requires Run(base, moments, steps) && Separate(base, moments[0]) && AllGentle(base, moments, steps) && j <= |steps|
    ensures Separate(base, moments[j]) && forall i | 0 <= i <= j :: moments[i].romEnd <= moments[j].romEnd
    decreases j
  {
    if j > 0 {
      GentleRun(base, moments, steps, j - 1);
      assert Follows(base, moments[j - 1], steps[j - 1], moments[j]);
      StepExactly(base, moments[j - 1], steps[j - 1]);
    }
  }

  /** All sizes well below four gigabytes meet it. */
  lemma SmallIsGentle(base: nat, s: Moment, step: Step)
    requires Separate(base, s) && (step.Reserve? || step.Confirm? ==> step.size < 0xFF00_0000)
    ensures s.low != [] && Gentle(base, s, step)
  {
    MaxIs(base, s);
  }

  /** Any sequence of such requests is a run. */
  method Replay(area: RomArea, steps: seq<Step>) returns (ghost moments: seq<Moment>)
    requires area.Valid() && forall s | s in steps :: Allowed(s)
    requires forall s | s in steps :: s.Reserve? || s.Confirm? ==> s.size < 0xFF00_0000
    modifies area
    ensures area.Valid() && Run(area.base, moments, steps)
    ensures moments[0] == old(area.Now()) && moments[|steps|] == area.Now() && AlwaysApart(area.base, moments)
  {
    moments := [area.Now()];
    var k := 0;
    while k < |steps|
      invariant k <= |steps| && area.Valid() && Run(area.base, moments, steps[..k])
      invariant moments[0] == old(area.Now()) && moments[k] == area.Now()
      invariant AllGentle(area.base, moments, steps[..k])
    {
      assert steps[k] in steps;
      SmallIsGentle(area.base, area.Now(), steps[k]);
      Perform(area, steps[k]);
      OneMoreStep(area.base, moments, steps, k, area.Now());
      moments := moments + [area.Now()];
      k := k + 1;
    }
    assert steps[..k] == steps;
    AlwaysApartExactly(area.base, moments, steps);
  }

  method Perform(area: RomArea, step: Step)
    requires area.Valid() && Allowed(step) && area.low != [] && Gentle(area.base, area.Now(), step)
    modifies area
    ensures area.Valid() && area.Now() == Next(area.base, old(area.Now()), step)
  {
    match step {
      case Reserve(size) =>
        var _ := area.Reserve(size);
      case Confirm(size) =>
        var _ := area.Confirm(size);
      case Take(size, align, info) =>
        var _ := area.Take(size, align, info);
      case GiveBack(index) =>
        if index < |area.low| && !Sentinel(area.low[index]) {
          area.GiveBack(index);
        }
    }
  }

  lemma OneMoreStep(base: nat, moments: seq<Moment>, steps: seq<Step>, k: nat, s: Moment)
    requires k < |steps| && Run(base, moments, steps[..k]) && Follows(base, moments[k], steps[k], s)
    requires AllGentle(base, moments, steps[..k]) && Gentle(base, moments[k], steps[k])
    ensures Run(base, moments + [s], steps[..k + 1]) && AllGentle(base, moments + [s], steps[..k + 1])
  {
    forall j | 0 <= j <= k
      ensures var m, t := moments + [s], steps[..k + 1];
              Follows(base, m[j], t[j], m[j + 1]) && Gentle(base, m[j], t[j])
    {
      if j < k { assert Follows(base, moments[j], steps[..k][j], moments[j + 1]); }
    }
  }
}
