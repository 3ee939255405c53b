/** How seabios/scripts/layoutrom.py fits sections between those whose addresses are
    fixed, and what the 16-bit segment then looks like. */
module FixedLayout {
  import opened Basics
  import opened Rounding
  import opened Layout

  // ------------------------------------------------------------------ sorting

  /** `sort`: stable, by insertion. */
  function Sort<T(!new)>(xs: seq<T>, le: (T, T) -> bool): (ys: seq<T>)
    ensures |ys| == |xs|
    decreases xs
  {
    if xs == [] then [] else Insert(Sort(xs[..|xs| - 1], le), xs[|xs| - 1], le)
  }

  function Insert<T(!new)>(xs: seq<T>, x: T, le: (T, T) -> bool): (ys: seq<T>)
    ensures |ys| == |xs| + 1
    decreases xs
  {
    if xs != [] && le(xs[0], x) then [xs[0]] + Insert(xs[1..], x, le) else [x] + xs
  }

  lemma {:induction false} InsertHas<T(!new)>(xs: seq<T>, x: T, le: (T, T) -> bool)
    ensures multiset(Insert(xs, x, le)) == multiset(xs) + multiset{x}
    decreases xs
  {
    if xs != [] && le(xs[0], x) {
      InsertHas(xs[1..], x, le);
      assert xs == [xs[0]] + xs[1..];
    }
  }

  /** It loses nothing. */
  lemma {:induction false} SortHas<T(!new)>(xs: seq<T>, le: (T, T) -> bool)
    ensures multiset(Sort(xs, le)) == multiset(xs)
    decreases xs
  {
    if xs != [] {
      var n := |xs| - 1;
      SortHas(xs[..n], le);
      InsertHas(Sort(xs[..n], le), xs[n], le);
      assert xs == xs[..n] + [xs[n]];
    }
  }

  ghost predicate Ordered<T(!new)>(xs: seq<T>, le: (T, T) -> bool)
    decreases xs
  {
    |xs| < 2 || (le(xs[0], xs[1]) && Ordered(xs[1..], le))
  }

  /** An order in which any two compare. */
  ghost predicate Total<T(!new)>(le: (T, T) -> bool) {
    forall x, y :: le(x, y) || le(y, x)
  }

  lemma {:induction false} InsertOrdered<T(!new)>(xs: seq<T>, x: T, le: (T, T) -> bool)
    requires Total(le) && Ordered(xs, le)
    ensures Ordered(Insert(xs, x, le), le)
    ensures xs != [] && le(xs[0], x) ==> Insert(xs, x, le)[0] == xs[0]
    decreases xs
  {
    if xs != [] && le(xs[0], x) {
      InsertOrdered(xs[1..], x, le);
      var rest := Insert(xs[1..], x, le);
      assert Insert(xs, x, le)[1..] == rest;
      assert rest[0] == x || rest[0] == xs[1];
    } else if xs != [] {
      assert le(x, xs[0]) && ([x] + xs)[1..] == xs;
    }
  }

  lemma {:induction false} SortOrdered<T(!new)>(xs: seq<T>, le: (T, T) -> bool)
    requires Total(le)
    ensures Ordered(Sort(xs, le), le)
    decreases xs
  {
    if xs != [] {
      var n := |xs| - 1;
      SortOrdered(xs[..n], le);
      InsertOrdered(Sort(xs[..n], le), xs[n], le);
    }
  }

  // ------------------------------------------------------------------- a gap

  /** By size, then alignment, then name. */
  predicate BySize(a: Section, b: Section) {
    a.size < b.size || (a.size == b.size && (a.align < b.align || (a.align == b.align && a.name <= b.name)))
  }

  predicate Sorted(sections: seq<Section>)
    decreases sections
  {
    |sections| < 2 || (BySize(sections[0], sections[1]) && Sorted(sections[1..]))
  }

  lemma {:induction false} SortedMeans(sections: seq<Section>, i: nat, j: nat)
    requires Sorted(sections) && i <= j < |sections|
    ensures BySize(sections[i], sections[j])
    decreases sections
  {
    if i > 0 {
      SortedMeans(sections[1..], i - 1, j - 1);
    } else if j > 0 {
      assert sections[1..][0] == sections[1];
      SortedMeans(sections[1..], 0, j - 1);
    }
  }

  lemma {:induction false} SortedWithout(sections: seq<Section>, k: nat)
    requires Sorted(sections) && k < |sections|
    ensures Sorted(sections[..k] + sections[k + 1..])
    decreases sections
  {
    var rest := sections[..k] + sections[k + 1..];
    if k == 0 {
      assert rest == sections[1..];
    } else {
      SortedWithout(sections[1..], k - 1);
      assert sections[1..][..k - 1] + sections[1..][k..] == rest[1..];
      if |rest| > 1 { SortedMeans(sections, 0, if k == 1 then 2 else 1); }
    }
  }

  /** Room for a section, aligned, from `addpos` to `next`. */
  predicate FitsIn(s: Section, addpos: nat, next: int) {
    s.align > 0 && AlignUp(addpos, s.align) + s.size <= next
  }

  predicate NoneFrom(sections: seq<Section>, i: nat, addpos: nat, next: int) {
    forall j | i <= j < |sections| :: !FitsIn(sections[j], addpos, next)
  }

  /** The inner loop: the last section that fits.  It stops at the first one that would
      not fit even unaligned, and misses none by that. */
  method FindFit(sections: seq<Section>, addpos: nat, next: int) returns (found: bool, k: nat)
    requires Sorted(sections) && Positive(sections)
    ensures found ==> k < |sections| && FitsIn(sections[k], addpos, next) && NoneFrom(sections, k + 1, addpos, next)
    ensures !found ==> NoneFrom(sections, 0, addpos, next)
  {
    found, k := false, 0;
    var j := 0;
    while j < |sections|
      invariant j <= |sections|
      invariant found ==> k < j && FitsIn(sections[k], addpos, next)
      invariant forall i | 0 <= i < j && FitsIn(sections[i], addpos, next) :: found && i <= k
    {
      var s := sections[j];
      PositiveAt(sections, j);
      if addpos + s.size > next {
        forall i | j <= i < |sections|
          ensures !FitsIn(sections[i], addpos, next)
        {
          SortedMeans(sections, j, i);
        }
        return;
      }
      if AlignUp(addpos, s.align) + s.size <= next {
        found, k := true, j;
      }
      j := j + 1;
    }
  }

  lemma {:induction false} PositiveAt(sections: seq<Section>, i: nat)
    requires Positive(sections) && i < |sections|
    ensures sections[i].align > 0
    decreases sections
  {
    if i > 0 { PositiveAt(sections[1..], i - 1); }
  }

  lemma {:induction false} PositiveWithout(sections: seq<Section>, k: nat)
    requires Positive(sections) && k < |sections|
    ensures Positive(sections[..k] + sections[k + 1..])
    decreases sections
  {
    var rest := sections[..k] + sections[k + 1..];
    if k == 0 {
      assert rest == sections[1..];
    } else {
      PositiveWithout(sections[1..], k - 1);
      assert sections[1..][..k - 1] + sections[1..][k..] == rest[1..];
    }
  }

  /** A section and the address stored for it, which is not yet aligned. */
  datatype Fitted = Fitted(section: Section, addpos: nat)

  /** Where the linker, which aligns, puts the section. */
  function Start(f: Fitted): nat {
    if f.section.align == 0 then f.addpos else AlignUp(f.addpos, f.section.align)
  }

  /** The stored address is the one the section gets exactly when it happens to be
      aligned. */
  lemma StoredIsStart(f: Fitted)
    requires f.section.align > 0
    ensures f.addpos == Start(f) <==> Aligned(f.addpos, f.section.align)
  {
    AlignUpIsLeast(f.addpos, f.section.align);
  }

  /** One after the other, aligned extents from `from` to `to`. */
  predicate Filled(fs: seq<Fitted>, from: nat, to: nat)
    decreases fs
  {
    if fs == [] then from == to
    else
      && fs[0].section.align > 0 && fs[0].addpos == from
      && Filled(fs[1..], Start(fs[0]) + fs[0].section.size, to)
  }

  lemma {:induction false} FilledOn(fs: seq<Fitted>, from: nat, to: nat, f: Fitted)
    requires Filled(fs, from, to) && f.section.align > 0 && f.addpos == to
    ensures Filled(fs + [f], from, Start(f) + f.section.size)
    decreases fs
  {
    if fs == [] {
      assert [f][1..] == [];
    } else {
      assert (fs + [f])[1..] == fs[1..] + [f];
      FilledOn(fs[1..], Start(fs[0]) + fs[0].section.size, to, f);
    }
  }

  /** Each extent lies between the ends, and wholly before every later one. */
  lemma {:induction false} FilledMeans(fs: seq<Fitted>, from: nat, to: nat, i: nat)
    requires Filled(fs, from, to) && i < |fs|
    ensures fs[i].section.align > 0 && from <= Start(fs[i]) && Start(fs[i]) + fs[i].section.size <= to
    ensures forall j | 0 <= j < i :: fs[j].section.align > 0 && Start(fs[j]) + fs[j].section.size <= Start(fs[i])
    decreases fs
  {
    var end := Start(fs[0]) + fs[0].section.size;
    if i > 0 {
      FilledMeans(fs[1..], end, to, i - 1);
      forall j | 0 <= j < i
        ensures fs[j].section.align > 0 && Start(fs[j]) + fs[j].section.size <= Start(fs[i])
      {
        if j > 0 { assert fs[1..][j - 1] == fs[j]; }
      }
    } else {
      FilledEnds(fs[1..], end, to);
    }
  }

  lemma {:induction false} FilledEnds(fs: seq<Fitted>, from: nat, to: nat)
    requires Filled(fs, from, to)
    ensures from <= to
    decreases fs
  {
    if fs != [] { FilledEnds(fs[1..], Start(fs[0]) + fs[0].section.size, to); }
  }

  function Sections(fs: seq<Fitted>): multiset<Section>
    decreases fs
  {
    if fs == [] then multiset{} else multiset{fs[0].section} + Sections(fs[1..])
  }

  lemma {:induction false} SectionsOn(fs: seq<Fitted>, f: Fitted)
    ensures Sections(fs + [f]) == Sections(fs) + multiset{f.section}
    decreases fs
  {
    if fs == [] {
      assert [f][1..] == [];
    } else {
      assert (fs + [f])[1..] == fs[1..] + [f];
      SectionsOn(fs[1..], f);
    }
  }

  /** Of `later`, none that would have fitted in its place comes behind it in the order. */
  ghost predicate Best(f: Fitted, next: int, later: multiset<Section>) {
    forall s | s in later && FitsIn(s, f.addpos, next) :: BySize(s, f.section)
  }

  /** Each was the last that fitted when it was put in; `later` are those put in after all
      of these, or never. */
  ghost predicate Greedy(fs: seq<Fitted>, next: int, later: multiset<Section>)
    decreases fs
  {
    fs == [] || (Best(fs[0], next, Sections(fs[1..]) + later) && Greedy(fs[1..], next, later))
  }

  lemma {:induction false} GreedyOn(fs: seq<Fitted>, next: int, later: multiset<Section>, f: Fitted,
                                    rest: multiset<Section>)
    requires Greedy(fs, next, later) && later == multiset{f.section} + rest && Best(f, next, rest)
    ensures Greedy(fs + [f], next, rest)
    decreases fs
  {
    if fs == [] {
      assert [f][1..] == [];
      assert Sections([]) + rest == rest;
    } else {
      assert (fs + [f])[1..] == fs[1..] + [f];
      GreedyOn(fs[1..], next, later, f, rest);
      SectionsOn(fs[1..], f);
      assert Sections(fs[1..] + [f]) + rest == Sections(fs[1..]) + later;
    }
  }

  /** The last section in the order that fits. */
  lemma LastIsBest(left: seq<Section>, k: nat, addpos: nat, next: int, rest: seq<Section>)
    requires Sorted(left) && k < |left| && NoneFrom(left, k + 1, addpos, next) && rest == left[..k] + left[k + 1..]
    ensures Best(Fitted(left[k], addpos), next, multiset(rest))
  {
    forall s | s in multiset(rest) && FitsIn(s, addpos, next)
      ensures BySize(s, left[k])
    {
      var j :| 0 <= j < |rest| && rest[j] == s;
      assert s == left[if j < k then j else j + 1];
      if j < k { SortedMeans(left, j, k); }
    }
  }

  /** A gap filled so far: aligned and without overlap, and nothing lost. */
  ghost predicate Filling(sections: seq<Section>, start: nat, next: int, fs: seq<Fitted>, left: seq<Section>,
                          addpos: nat)
  {
    && Filled(fs, start, addpos) && (fs != [] ==> addpos <= next)
    && Sections(fs) + multiset(left) == multiset(sections) && Sorted(left) && Positive(left)
    && Greedy(fs, next, multiset(left))
  }

  lemma TakenOut(left: seq<Section>, k: nat)
    requires k < |left|
    ensures multiset(left) == multiset{left[k]} + multiset(left[..k] + left[k + 1..])
  {
    assert left == left[..k] + [left[k]] + left[k + 1..];
  }

  lemma MoveOne(a: multiset<Section>, b: multiset<Section>, c: multiset<Section>, x: Section, r: multiset<Section>)
    requires a + b == c && b == multiset{x} + r
    ensures a + multiset{x} + r == c
  {
  }

  lemma FillStep(sections: seq<Section>, start: nat, next: int, fs: seq<Fitted>, left: seq<Section>, addpos: nat,
                 k: nat, rest: seq<Section>)
    requires Filling(sections, start, next, fs, left, addpos) && k < |left| && FitsIn(left[k], addpos, next)
    requires NoneFrom(left, k + 1, addpos, next) && rest == left[..k] + left[k + 1..]
    ensures Filling(sections, start, next, fs + [Fitted(left[k], addpos)], rest,
                    AlignUp(addpos, left[k].align) + left[k].size)
    ensures Sorted(rest) && Positive(rest)
  {
    hide Filled, Sections, Sorted, Positive, AlignUp, Greedy, Best, NoneFrom;
    LastIsBest(left, k, addpos, next, rest);
    FilledOn(fs, start, addpos, Fitted(left[k], addpos));
    SectionsOn(fs, Fitted(left[k], addpos));
    LeftWithout(left, k, rest);
    GreedyOn(fs, next, multiset(left), Fitted(left[k], addpos), multiset(rest));
    MoveOne(Sections(fs), multiset(left), multiset(sections), left[k], multiset(rest));
  }

  lemma LeftWithout(left: seq<Section>, k: nat, rest: seq<Section>)
    requires Sorted(left) && Positive(left) && k < |left| && rest == left[..k] + left[k + 1..]
    ensures Sorted(rest) && Positive(rest) && multiset(left) == multiset{left[k]} + multiset(rest)
  {
    SortedWithout(left, k);
    PositiveWithout(left, k);
    TakenOut(left, k);
  }

  lemma NothingFilled(sections: seq<Section>, start: nat, next: int)
    requires Sorted(sections) && Positive(sections)
    ensures Filling(sections, start, next, [], sections, start)
  {
  }

  /** One gap between fixed sections: it is filled from its start, and in the end no
      section that is left would fit. */
  method FillGap(sections: seq<Section>, start: nat, next: int)
    returns (fs: seq<Fitted>, left: seq<Section>, addpos: nat)
    requires Sorted(sections) && Positive(sections)
    ensures Filling(sections, start, next, fs, left, addpos) && NoneFrom(left, 0, addpos, next)
  {
    hide Filling, AlignUp, NoneFrom, Sorted, Positive;
    fs, left, addpos := [], sections, start;
    NothingFilled(sections, start, next);
    var found: bool, k: nat := FindFit(left, addpos, next);
    while found
      invariant Filling(sections, start, next, fs, left, addpos) && Sorted(left) && Positive(left)
      invariant found ==> k < |left| && FitsIn(left[k], addpos, next) && NoneFrom(left, k + 1, addpos, next)
      invariant !found ==> NoneFrom(left, 0, addpos, next)
      decreases |left|
    {
      var rest := left[..k] + left[k + 1..];
      FillStep(sections, start, next, fs, left, addpos, k, rest);
      fs, addpos := fs + [Fitted(left[k], addpos)], AlignUp(addpos, left[k].align) + left[k].size;
      left := rest;
      found, k := FindFit(left, addpos, next);
    }
  }

  // -------------------------------------------------------- fixed sections

  /** A `.fixedaddr.` section: its address in the segment. */
  datatype Fixed = Fixed(addr: nat, size: nat, align: nat)

  const SEGMENT := 0x1_0000
  const BIOS := 0xF_0000

  /** A fixed section and where the next one starts. */
  datatype Hole = Hole(fixed: Fixed, next: nat)

  function Addpos(h: Hole): nat {
    h.fixed.addr + h.fixed.size
  }

  /** The entries of `fixedAddr`, for fixed sections in the order of their addresses. */
  function Holes(fs: seq<Fixed>): (hs: seq<Hole>)
    ensures |hs| == |fs|
    decreases fs
  {
    if fs == [] then [] else [Hole(fs[0], if |fs| == 1 then SEGMENT else fs[1].addr)] + Holes(fs[1..])
  }

  /** `freespace`. */
  function Avail(h: Hole): int {
    h.next - Addpos(h)
  }

  /** The orders the source sorts in. */
  predicate ByAddr(a: Fixed, b: Fixed) {
    a.addr <= b.addr
  }

  predicate ByAvail(a: Hole, b: Hole) {
    Avail(a) <= Avail(b)
  }

  lemma {:induction false} BySizeSorts(sections: seq<Section>)
    requires Ordered(sections, BySize)
    ensures Sorted(sections)
    decreases sections
  {
    if |sections| > 1 { BySizeSorts(sections[1..]); }
  }

  lemma {:induction false} PositiveMeans(sections: seq<Section>)
    ensures Positive(sections) <==> forall s | s in multiset(sections) :: s.align > 0
    decreases sections
  {
    if sections != [] {
      assert sections == [sections[0]] + sections[1..];
      PositiveMeans(sections[1..]);
    }
  }

  lemma SortedForFitting(sections: seq<Section>)
    requires Positive(sections)
    ensures var s := Sort(sections, BySize); Sorted(s) && Positive(s) && multiset(s) == multiset(sections)
  {
    SortHas(sections, BySize);
    SortOrdered(sections, BySize);
    BySizeSorts(Sort(sections, BySize));
    PositiveMeans(sections);
    PositiveMeans(Sort(sections, BySize));
  }

  // -------------------------------------------------------------- extents

  datatype Extent = Extent(start: int, end: int)

  /** One lies wholly before the other. */
  predicate Off(x: Extent, y: Extent) {
    x.end <= y.start || y.end <= x.start
  }

  predicate OffAll(x: Extent, ys: seq<Extent>) {
    forall y | y in multiset(ys) :: Off(x, y)
  }

  /** No two overlap. */
  predicate AllOff(xs: seq<Extent>)
    decreases xs
  {
    xs == [] || (OffAll(xs[0], xs[1..]) && AllOff(xs[1..]))
  }

  lemma {:induction false} AllOffMeans(xs: seq<Extent>, i: nat, j: nat)
    requires AllOff(xs) && i < |xs| && j < |xs| && i != j
    ensures Off(xs[i], xs[j])
    decreases xs
  {
    if i > 0 && j > 0 {
      AllOffMeans(xs[1..], i - 1, j - 1);
    } else if i == 0 {
      assert xs[1..][j - 1] in multiset(xs[1..]);
    } else {
      assert xs[1..][i - 1] in multiset(xs[1..]);
    }
  }

  predicate Inside(xs: seq<Extent>, lo: int, hi: int) {
    forall x | x in multiset(xs) :: lo <= x.start <= x.end <= hi
  }

  ghost predicate OffEach(xs: seq<Extent>, ys: seq<Extent>) {
    forall x, y | x in multiset(xs) && y in multiset(ys) :: Off(x, y)
  }

  lemma {:induction false} AllOffJoin(xs: seq<Extent>, ys: seq<Extent>)
    ensures AllOff(xs + ys) <==> AllOff(xs) && AllOff(ys) && OffEach(xs, ys)
    decreases xs
  {
    if xs == [] {
      assert xs + ys == ys;
    } else {
      assert (xs + ys)[1..] == xs[1..] + ys && xs == [xs[0]] + xs[1..];
      AllOffJoin(xs[1..], ys);
      OffFirst(xs, ys);
    }
  }

  lemma OffFirst(xs: seq<Extent>, ys: seq<Extent>)
    requires xs != []
    ensures OffAll(xs[0], xs[1..] + ys) <==> OffAll(xs[0], xs[1..]) && OffAll(xs[0], ys)
    ensures OffEach(xs, ys) <==> OffAll(xs[0], ys) && OffEach(xs[1..], ys)
  {
    assert xs == [xs[0]] + xs[1..];
    assert multiset(xs) == multiset{xs[0]} + multiset(xs[1..]);
  }

  lemma Around<T>(xs: seq<T>, y: T) returns (a: seq<T>, b: seq<T>)
    requires y in multiset(xs)
    ensures xs == a + ([y] + b)
  {
    var k :| 0 <= k < |xs| && xs[k] == y;
    a, b := xs[..k], xs[k + 1..];
  }

  /** The same elements are left when one is taken out of both. */
  lemma TakenBoth<T>(xs: seq<T>, a: seq<T>, b: seq<T>, ys: seq<T>)
    requires ys != [] && xs == a + ([ys[0]] + b) && multiset(xs) == multiset(ys)
    ensures multiset(a + b) == multiset(ys[1..])
  {
    assert ys == [ys[0]] + ys[1..];
    assert multiset(a + b) == multiset(xs) - multiset{ys[0]};
  }

  /** Whatever the order they are listed in. */
  lemma {:induction false} AllOffPermutes(xs: seq<Extent>, ys: seq<Extent>)
    requires AllOff(xs) && multiset(xs) == multiset(ys)
    ensures AllOff(ys)
    decreases ys
  {
    if ys != [] {
      assert ys[0] in multiset(xs);
      var a, b := Around(xs, ys[0]);
      AllOffJoin(a, [ys[0]] + b);
      AllOffJoin([ys[0]], b);
      AllOffJoin(a, b);
      OneOut(a, ys[0], b);
      TakenBoth(xs, a, b, ys);
      AllOffPermutes(a + b, ys[1..]);
    }
  }

  /** The one taken out is off the others. */
  lemma OneOut(a: seq<Extent>, x: Extent, b: seq<Extent>)
    requires OffEach(a, [x] + b) && OffEach([x], b)
    ensures OffEach(a, b) && OffAll(x, a + b)
  {
    assert x in multiset([x] + b) && x in multiset([x]);
    forall y | y in multiset(a + b)
      ensures Off(x, y)
    {
      assert y in multiset(a) || y in multiset(b);
    }
    assert multiset([x] + b) == multiset{x} + multiset(b);
  }

  function Map<T, U>(f: T -> U, xs: seq<T>): (ys: seq<U>)
    ensures |ys| == |xs|
    decreases xs
  {
    if xs == [] then [] else [f(xs[0])] + Map(f, xs[1..])
  }

  lemma {:induction false} MapJoin<T, U>(f: T -> U, xs: seq<T>, ys: seq<T>)
    ensures Map(f, xs + ys) == Map(f, xs) + Map(f, ys)
    decreases xs
  {
    if xs == [] {
      assert xs + ys == ys;
    } else {
      assert (xs + ys)[1..] == xs[1..] + ys;
      MapJoin(f, xs[1..], ys);
    }
  }

  lemma {:induction false} MapAt<T, U>(f: T -> U, xs: seq<T>, i: nat)
    requires i < |xs|
    ensures Map(f, xs)[i] == f(xs[i])
    decreases xs
  {
    if i > 0 { MapAt(f, xs[1..], i - 1); }
  }

  lemma MapMiddle<T, U>(f: T -> U, a: seq<T>, x: T, b: seq<T>)
    ensures multiset(Map(f, a + ([x] + b))) == multiset{f(x)} + multiset(Map(f, a + b))
  {
    MapJoin(f, a, [x] + b);
    MapJoin(f, [x], b);
    MapJoin(f, a, b);
    assert [x][1..] == [] && Map(f, [x]) == [f(x)];
  }

  lemma {:induction false} MapPermutes<T, U>(f: T -> U, xs: seq<T>, ys: seq<T>)
    requires multiset(xs) == multiset(ys)
    ensures multiset(Map(f, xs)) == multiset(Map(f, ys))
    decreases ys
  {
    if ys != [] {
      assert ys[0] in multiset(xs);
      var a, b := Around(xs, ys[0]);
      TakenBoth(xs, a, b, ys);
      MapPermutes(f, a + b, ys[1..]);
      MapMiddle(f, a, ys[0], b);
      assert multiset(Map(f, ys)) == multiset{f(ys[0])} + multiset(Map(f, ys[1..]));
    } else {
      assert |multiset(xs)| == 0;
    }
  }

  // ------------------------------------------------------------------- shares

  /** What a hole was given, up to `to`. */
  datatype Share = Share(hole: Hole, fs: seq<Fitted>, to: nat)

  /** The share lies in its hole. */
  predicate InHole(h: Share) {
    Filled(h.fs, Addpos(h.hole), h.to) && (h.fs != [] ==> h.to <= h.hole.next)
  }

  /** And none of `left` would have fitted behind it. */
  ghost predicate Exhausted(h: Share, left: seq<Section>) {
    InHole(h) && forall s | s in left :: !FitsIn(s, h.to, h.hole.next)
  }

  ghost predicate AllExhausted(shares: seq<Share>, left: seq<Section>)
    decreases shares
  {
    shares == [] || (Exhausted(shares[0], left) && AllExhausted(shares[1..], left))
  }

  lemma {:induction false} AllExhaustedOn(shares: seq<Share>, left: seq<Section>, rest: seq<Section>, h: Share)
    requires AllExhausted(shares, left) && Exhausted(h, rest) && forall s | s in rest :: s in left
    ensures AllExhausted(shares + [h], rest)
    decreases shares
  {
    if shares == [] {
      assert [h][1..] == [];
    } else {
      assert (shares + [h])[1..] == shares[1..] + [h];
      AllExhaustedOn(shares[1..], left, rest, h);
    }
  }

  lemma {:induction false} AllExhaustedMeans(shares: seq<Share>, left: seq<Section>, g: nat)
    requires AllExhausted(shares, left) && g < |shares|
    ensures Exhausted(shares[g], left)
    decreases shares
  {
    if g > 0 { AllExhaustedMeans(shares[1..], left, g - 1); }
  }

  function HoleOf(h: Share): Hole {
    h.hole
  }

  function All(shares: seq<Share>): multiset<Section>
    decreases shares
  {
    if shares == [] then multiset{} else Sections(shares[0].fs) + All(shares[1..])
  }

  lemma {:induction false} AllOn(shares: seq<Share>, h: Share)
    ensures All(shares + [h]) == All(shares) + Sections(h.fs)
    decreases shares
  {
    if shares == [] {
      assert [h][1..] == [];
    } else {
      assert (shares + [h])[1..] == shares[1..] + [h];
      AllOn(shares[1..], h);
    }
  }

  /** Every share was filled so, from what the shares before it had left. */
  ghost predicate AllGreedy(shares: seq<Share>, later: multiset<Section>)
    decreases shares
  {
    shares == [] ||
    (Greedy(shares[0].fs, shares[0].hole.next, All(shares[1..]) + later) && AllGreedy(shares[1..], later))
  }

  lemma {:induction false} AllGreedyOn(shares: seq<Share>, later: multiset<Section>, h: Share, rest: multiset<Section>)
    requires AllGreedy(shares, later) && later == Sections(h.fs) + rest && Greedy(h.fs, h.hole.next, rest)
    ensures AllGreedy(shares + [h], rest)
    decreases shares
  {
    hide Greedy, Sections;
    if shares == [] {
      assert [h][1..] == [] && All([]) + rest == rest;
    } else {
      var tail := shares[1..];
      assert (shares + [h])[1..] == tail + [h] && (shares + [h])[0] == shares[0];
      AllGreedyOn(tail, later, h, rest);
      AllOn(tail, h);
      SumOfThree(All(tail), Sections(h.fs), rest);
      assert All(tail + [h]) + rest == All(tail) + later;
    }
  }

  lemma SumOfThree(a: multiset<Section>, b: multiset<Section>, c: multiset<Section>)
    ensures a + b + c == a + (b + c)
  {
  }

  /** What is known after some gaps. */
  ghost predicate Shared(sections: seq<Section>, shares: seq<Share>, left: seq<Section>) {
    && AllExhausted(shares, left) && All(shares) + multiset(left) == multiset(sections)
    && Sorted(left) && Positive(left) && AllGreedy(shares, multiset(left))
  }

  lemma OneMoreGap(sections: seq<Section>, shares: seq<Share>, left: seq<Section>, h: Share, rest: seq<Section>)
    requires Shared(sections, shares, left) && NoneFrom(rest, 0, h.to, h.hole.next)
    requires Filling(left, Addpos(h.hole), h.hole.next, h.fs, rest, h.to)
    ensures Shared(sections, shares + [h], rest)
  {
    forall s | s in rest
      ensures s in left && !FitsIn(s, h.to, h.hole.next)
    {
      assert s in multiset(rest) && s in multiset(left);
      var j :| 0 <= j < |rest| && rest[j] == s;
    }
    AllExhaustedOn(shares, left, rest, h);
    AllGreedyOn(shares, multiset(left), h, multiset(rest));
    AllOn(shares, h);
  }

  lemma {:induction false} SectionIn(fs: seq<Fitted>, j: nat)
    requires j < |fs|
    ensures fs[j].section in Sections(fs)
    decreases fs
  {
    if j > 0 { SectionIn(fs[1..], j - 1); }
  }

  lemma {:induction false} SectionOfShare(shares: seq<Share>, h: nat, j: nat)
    requires h < |shares| && j < |shares[h].fs|
    ensures shares[h].fs[j].section in All(shares)
    decreases shares
  {
    if h > 0 {
      SectionOfShare(shares[1..], h - 1, j);
    } else {
      SectionIn(shares[0].fs, j);
    }
  }

  lemma {:induction false} GreedyMeans(fs: seq<Fitted>, next: int, later: multiset<Section>, i: nat, s: Section)
    requires Greedy(fs, next, later) && i < |fs| && FitsIn(s, fs[i].addpos, next)
    requires s in later || exists j :: i < j < |fs| && fs[j].section == s
    ensures BySize(s, fs[i].section)
    decreases fs
  {
    if i > 0 {
      if s !in later {
        var j :| i < j < |fs| && fs[j].section == s;
        assert fs[1..][j - 1].section == s;
      }
      GreedyMeans(fs[1..], next, later, i - 1, s);
    } else if s !in later {
      var j :| 0 < j < |fs| && fs[j].section == s;
      SectionIn(fs[1..], j - 1);
    }
  }

  lemma {:induction false} AllGreedyMeans(shares: seq<Share>, later: multiset<Section>, g: nat, i: nat, s: Section)
    requires AllGreedy(shares, later) && g < |shares| && i < |shares[g].fs|
    requires FitsIn(s, shares[g].fs[i].addpos, shares[g].hole.next)
    requires || s in later || (exists j :: i < j < |shares[g].fs| && shares[g].fs[j].section == s)
             || exists h, j :: g < h < |shares| && 0 <= j < |shares[h].fs| && shares[h].fs[j].section == s
    ensures BySize(s, shares[g].fs[i].section)
    decreases shares
  {
    if g > 0 {
      if h, j :| g < h < |shares| && 0 <= j < |shares[h].fs| && shares[h].fs[j].section == s {
        assert shares[1..][h - 1] == shares[h];
      }
      AllGreedyMeans(shares[1..], later, g - 1, i, s);
    } else {
      if h, j :| 0 < h < |shares| && 0 <= j < |shares[h].fs| && shares[h].fs[j].section == s {
        SectionOfShare(shares[1..], h - 1, j);
      }
      GreedyMeans(shares[0].fs, shares[0].hole.next, All(shares[1..]) + later, i, s);
    }
  }

  function FixedExtent(f: Fixed): Extent {
    Extent(f.addr, f.addr + f.size)
  }

  function FittedExtent(f: Fitted): Extent {
    Extent(Start(f), Start(f) + f.section.size)
  }

  /** A fixed section and what is fitted behind it. */
  function Own(h: Share): seq<Extent> {
    [FixedExtent(h.hole.fixed)] + Map(FittedExtent, h.fs)
  }

  /** All that lies in the segment. */
  function Occupied(shares: seq<Share>): seq<Extent>
    decreases shares
  {
    if shares == [] then [] else Own(shares[0]) + Occupied(shares[1..])
  }

  function Span(h: Hole): Extent {
    Extent(h.fixed.addr, if Addpos(h) > h.next then Addpos(h) else h.next)
  }

  lemma {:induction false} FittedOff(fs: seq<Fitted>, from: nat, to: nat)
    requires Filled(fs, from, to)
    ensures from <= to && AllOff(Map(FittedExtent, fs)) && Inside(Map(FittedExtent, fs), from, to)
    decreases fs
  {
    if fs != [] {
      var x, end := FittedExtent(fs[0]), Start(fs[0]) + fs[0].section.size;
      var rest := Map(FittedExtent, fs[1..]);
      FittedOff(fs[1..], end, to);
      assert Map(FittedExtent, fs) == [x] + rest && ([x] + rest)[1..] == rest;
      assert multiset([x] + rest) == multiset{x} + multiset(rest);
    }
  }

  lemma OwnOff(h: Share)
    requires InHole(h)
    ensures AllOff(Own(h)) && Inside(Own(h), Span(h.hole).start, Span(h.hole).end)
  {
    var x, rest := FixedExtent(h.hole.fixed), Map(FittedExtent, h.fs);
    FittedOff(h.fs, Addpos(h.hole), h.to);
    assert Own(h)[1..] == rest;
    assert multiset(Own(h)) == multiset{x} + multiset(rest);
    if h.fs == [] { assert multiset(rest) == multiset{}; }
  }

  ghost predicate AllInHole(shares: seq<Share>)
    decreases shares
  {
    shares == [] || (InHole(shares[0]) && AllInHole(shares[1..]))
  }

  lemma {:induction false} ExhaustedInHole(shares: seq<Share>, left: seq<Section>)
    requires AllExhausted(shares, left)
    ensures AllInHole(shares)
    decreases shares
  {
    if shares != [] { ExhaustedInHole(shares[1..], left); }
  }

  /** What lies in the segment lies in the span of some hole. */
  lemma {:induction false} WithinSpan(shares: seq<Share>, x: Extent) returns (s: Extent)
    requires AllInHole(shares) && x in multiset(Occupied(shares))
    ensures s in multiset(Map(Span, Map(HoleOf, shares))) && s.start <= x.start <= x.end <= s.end
    decreases shares
  {
    var rest := Map(Span, Map(HoleOf, shares[1..]));
    assert Map(HoleOf, shares)[1..] == Map(HoleOf, shares[1..]);
    assert Map(Span, Map(HoleOf, shares)) == [Span(shares[0].hole)] + rest;
    OwnOff(shares[0]);
    if x in multiset(Own(shares[0])) {
      s := Span(shares[0].hole);
    } else {
      s := WithinSpan(shares[1..], x);
    }
  }

  /** If the spans do not overlap, nothing does. */
  lemma {:induction false} OccupiedOff(shares: seq<Share>)
    requires AllInHole(shares) && AllOff(Map(Span, Map(HoleOf, shares)))
    ensures AllOff(Occupied(shares))
    decreases shares
  {
    if shares != [] {
      var spans := Map(Span, Map(HoleOf, shares));
      assert Map(HoleOf, shares)[1..] == Map(HoleOf, shares[1..]);
      assert spans[1..] == Map(Span, Map(HoleOf, shares[1..])) && spans[0] == Span(shares[0].hole);
      OccupiedOff(shares[1..]);
      OwnOff(shares[0]);
      forall x, y | x in multiset(Own(shares[0])) && y in multiset(Occupied(shares[1..]))
        ensures Off(x, y)
      {
        var s := WithinSpan(shares[1..], y);
        assert Off(spans[0], s);
      }
      AllOffJoin(Own(shares[0]), Occupied(shares[1..]));
    }
  }

  /** Each fixed section ends where the next begins at the latest, and the last one in
      the segment. */
  predicate InOrder(fs: seq<Fixed>)
    decreases fs
  {
    fs == [] || (fs[0].addr + fs[0].size <= (if |fs| == 1 then SEGMENT else fs[1].addr) && InOrder(fs[1..]))
  }

  lemma {:induction false} HolesOff(fs: seq<Fixed>)
    requires InOrder(fs)
    ensures AllOff(Map(Span, Holes(fs)))
    ensures fs != [] ==> Inside(Map(Span, Holes(fs)), fs[0].addr, SEGMENT)
    decreases fs
  {
    if fs != [] {
      HolesOff(fs[1..]);
      var spans, rest := Map(Span, Holes(fs)), Map(Span, Holes(fs[1..]));
      assert Holes(fs)[1..] == Holes(fs[1..]);
      assert spans == [spans[0]] + rest && spans[1..] == rest;
      assert multiset(spans) == multiset{spans[0]} + multiset(rest);
      if |fs| == 1 { assert rest == []; }
    }
  }

  lemma {:induction false} FixedOfHoles(fs: seq<Fixed>)
    ensures Map(FixedOf, Holes(fs)) == fs
    decreases fs
  {
    if fs != [] {
      assert Holes(fs)[1..] == Holes(fs[1..]);
      FixedOfHoles(fs[1..]);
    }
  }

  function FixedOf(h: Hole): Fixed {
    h.fixed
  }

  /** For sections that take space, in the order of their addresses: they are in order
      exactly when they do not overlap and lie in the segment. */
  lemma {:induction false} OffIsInOrder(fs: seq<Fixed>)
    requires Ordered(fs, ByAddr) && forall i | 0 <= i < |fs| :: fs[i].size > 0
    requires AllOff(Map(FixedExtent, fs)) && Inside(Map(FixedExtent, fs), 0, SEGMENT)
    ensures InOrder(fs)
    decreases fs
  {
    hide Map, AllOff, Inside;
    if fs != [] {
      FirstOff(fs);
      OffIsInOrder(fs[1..]);
    }
  }

  lemma {:induction false} FirstOff(fs: seq<Fixed>)
    requires fs != [] && AllOff(Map(FixedExtent, fs)) && Inside(Map(FixedExtent, fs), 0, SEGMENT)
    ensures AllOff(Map(FixedExtent, fs[1..])) && Inside(Map(FixedExtent, fs[1..]), 0, SEGMENT)
    ensures fs[0].addr + fs[0].size <= SEGMENT
    ensures |fs| > 1 ==> Off(FixedExtent(fs[0]), FixedExtent(fs[1]))
  {
    var xs, rest := Map(FixedExtent, fs), Map(FixedExtent, fs[1..]);
    assert xs == [FixedExtent(fs[0])] + rest && xs[1..] == rest;
    assert multiset(xs) == multiset{xs[0]} + multiset(rest);
    if |fs| > 1 { assert rest[0] in multiset(rest); }
  }

  // ------------------------------------------------------- the order of the gaps

  /** Smaller gaps first; of two that are the same size, the lower one. */
  predicate Sooner(a: Hole, b: Hole) {
    Avail(a) < Avail(b) || (Avail(a) == Avail(b) && a.fixed.addr <= b.fixed.addr)
  }

  lemma {:induction false} InsertKeepsOrder(hs: seq<Hole>, x: Hole)
    requires Ordered(hs, Sooner) && forall h | h in multiset(hs) :: h.fixed.addr <= x.fixed.addr
    ensures Ordered(Insert(hs, x, ByAvail), Sooner)
    decreases hs
  {
    if hs != [] {
      assert hs == [hs[0]] + hs[1..];
      if ByAvail(hs[0], x) {
        InsertKeepsOrder(hs[1..], x);
        var rest := Insert(hs[1..], x, ByAvail);
        assert Insert(hs, x, ByAvail)[1..] == rest;
        assert rest[0] == x || rest[0] == hs[1];
      } else {
        assert ([x] + hs)[1..] == hs;
      }
    }
  }

  /** The sort is stable, so gaps that are listed by address stay so when they tie. */
  lemma {:induction false} SortKeepsOrder(hs: seq<Hole>)
    requires forall i, j | 0 <= i < j < |hs| :: hs[i].fixed.addr <= hs[j].fixed.addr
    ensures Ordered(Sort(hs, ByAvail), Sooner)
    decreases hs
  {
    if hs != [] {
      var n := |hs| - 1;
      SortKeepsOrder(hs[..n]);
      SortHas(hs[..n], ByAvail);
      forall h | h in multiset(hs[..n])
        ensures h.fixed.addr <= hs[n].fixed.addr
      {
        var i :| 0 <= i < n && hs[..n][i] == h;
      }
      InsertKeepsOrder(Sort(hs[..n], ByAvail), hs[n]);
    }
  }

  lemma {:induction false} SoonerMeans(hs: seq<Hole>, i: nat, j: nat)
    requires Ordered(hs, Sooner) && i <= j < |hs|
    ensures Sooner(hs[i], hs[j])
    decreases hs
  {
    if i > 0 {
      SoonerMeans(hs[1..], i - 1, j - 1);
    } else if j > 0 {
      SoonerMeans(hs[1..], 0, j - 1);
    }
  }

  lemma {:induction false} ByAddrMeans(fs: seq<Fixed>, i: nat, j: nat)
    requires Ordered(fs, ByAddr) && i <= j < |fs|
    ensures fs[i].addr <= fs[j].addr
    decreases fs
  {
    if i > 0 {
      ByAddrMeans(fs[1..], i - 1, j - 1);
    } else if j > 0 {
      ByAddrMeans(fs[1..], 0, j - 1);
    }
  }

  lemma {:induction false} HoleAt(fs: seq<Fixed>, k: nat)
    requires k < |fs|
    ensures Holes(fs)[k] == Hole(fs[k], if k == |fs| - 1 then SEGMENT else fs[k + 1].addr)
    decreases fs
  {
    if k > 0 { HoleAt(fs[1..], k - 1); }
  }

  /** Two places of one list are two places of any other list of the same elements. */
  lemma TwoPlaces(xs: seq<Fixed>, ys: seq<Fixed>, k: nat)
    requires multiset(xs) == multiset(ys) && k + 1 < |xs|
    ensures exists i, j :: 0 <= i < |ys| && 0 <= j < |ys| && i != j && ys[i] == xs[k] && ys[j] == xs[k + 1]
  {
    var x, y := xs[k], xs[k + 1];
    assert x in multiset(ys) && y in multiset(ys);
    var i :| 0 <= i < |ys| && ys[i] == x;
    if x == y {
      TwiceListed(xs, k);
      var j := OtherPlace(ys, i);
    } else {
      var j :| 0 <= j < |ys| && ys[j] == y;
    }
  }

  lemma TwiceListed(xs: seq<Fixed>, k: nat)
    requires k + 1 < |xs| && xs[k] == xs[k + 1]
    ensures multiset(xs)[xs[k]] >= 2
  {
    assert xs == xs[..k] + ([xs[k]] + ([xs[k]] + xs[k + 2..]));
  }

  lemma OtherPlace(ys: seq<Fixed>, i: nat) returns (j: nat)
    requires i < |ys| && multiset(ys)[ys[i]] >= 2
    ensures j < |ys| && i != j && ys[j] == ys[i]
  {
    var a, b := ys[..i], ys[i + 1..];
    assert ys == a + ([ys[i]] + b);
    assert multiset(a + b)[ys[i]] >= 1;
    j :| 0 <= j < |a + b| && (a + b)[j] == ys[i];
    if j >= i { j := j + 1; }
  }

  /** A gap reaches to the next fixed section, or to the end of the segment. */
  lemma HoleReaches(fixed: seq<Fixed>, h: Hole)
    requires h in multiset(Holes(Sort(fixed, ByAddr)))
    ensures h.fixed in multiset(fixed)
    ensures || (h.next == 0x1_0000 && forall f | f in multiset(fixed) :: f.addr <= h.fixed.addr)
            || (&& h.fixed.addr <= h.next
                && (forall f | f in multiset(fixed) :: f.addr <= h.fixed.addr || h.next <= f.addr)
                && exists i, j :: && 0 <= i < |fixed| && 0 <= j < |fixed| && i != j
                                  && fixed[i] == h.fixed && fixed[j].addr == h.next)
  {
    hide Holes, Sort, Ordered;
    var fs := Sort(fixed, ByAddr);
    var k := HoleIndex(fs, h);
    SortHas(fixed, ByAddr);
    SortOrdered(fixed, ByAddr);
    ReachesNext(fixed, fs, k, h);
  }

  lemma HoleIndex(fs: seq<Fixed>, h: Hole) returns (k: nat)
    requires h in multiset(Holes(fs))
    ensures k < |fs| && h == Hole(fs[k], if k == |fs| - 1 then SEGMENT else fs[k + 1].addr)
  {
    k :| 0 <= k < |fs| && Holes(fs)[k] == h;
    HoleAt(fs, k);
  }

  lemma ReachesNext(fixed: seq<Fixed>, fs: seq<Fixed>, k: nat, h: Hole)
    requires multiset(fs) == multiset(fixed) && Ordered(fs, ByAddr)
    requires k < |fs| && h == Hole(fs[k], if k == |fs| - 1 then SEGMENT else fs[k + 1].addr)
    ensures h.fixed in multiset(fixed)
    ensures || (h.next == 0x1_0000 && forall f | f in multiset(fixed) :: f.addr <= h.fixed.addr)
            || (&& h.fixed.addr <= h.next
                && (forall f | f in multiset(fixed) :: f.addr <= h.fixed.addr || h.next <= f.addr)
                && exists i, j :: && 0 <= i < |fixed| && 0 <= j < |fixed| && i != j
                                  && fixed[i] == h.fixed && fixed[j].addr == h.next)
  {
    hide Ordered;
    assert fs[k] in multiset(fs);
    ByAddrAround(fs, k);
    if k < |fs| - 1 { TwoPlaces(fs, fixed, k); }
  }

  lemma ByAddrAround(fs: seq<Fixed>, k: nat)
    requires Ordered(fs, ByAddr) && k < |fs|
    ensures forall f | f in multiset(fs) :: f.addr <= fs[k].addr || (k < |fs| - 1 && fs[k + 1].addr <= f.addr)
    ensures k < |fs| - 1 ==> fs[k].addr <= fs[k + 1].addr
  {
    hide Ordered;
    forall f | f in multiset(fs)
      ensures f.addr <= fs[k].addr || (k < |fs| - 1 && fs[k + 1].addr <= f.addr)
    {
      var m :| 0 <= m < |fs| && fs[m] == f;
      if m <= k { ByAddrMeans(fs, m, k); } else { ByAddrMeans(fs, k + 1, m); }
    }
    if k < |fs| - 1 { ByAddrMeans(fs, k, k + 1); }
  }

  // -------------------------------------------------------------- fitSections

  /** The loop that finds the free space behind each fixed section. */
  method FindHoles(fixedsections: seq<Fixed>) returns (fixedAddr: seq<Hole>)
    ensures fixedAddr == Holes(fixedsections)
  {
    fixedAddr := [];
    var i := 0;
    assert fixedsections[0..] == fixedsections;
    while i < |fixedsections|
      invariant i <= |fixedsections| && fixedAddr + Holes(fixedsections[i..]) == Holes(fixedsections)
    {
      var nextaddr := if i == |fixedsections| - 1 then SEGMENT else fixedsections[i + 1].addr;
      NextHole(fixedsections, i);
      assert fixedAddr + [Hole(fixedsections[i], nextaddr)] + Holes(fixedsections[i + 1..]) ==
             fixedAddr + ([Hole(fixedsections[i], nextaddr)] + Holes(fixedsections[i + 1..]));
      fixedAddr := fixedAddr + [Hole(fixedsections[i], nextaddr)];
      i := i + 1;
    }
    assert fixedsections[i..] == [];
  }

  lemma NextHole(fs: seq<Fixed>, i: nat)
    requires i < |fs|
    ensures Holes(fs[i..]) == [Hole(fs[i], if i == |fs| - 1 then SEGMENT else fs[i + 1].addr)] + Holes(fs[i + 1..])
  {
    assert fs[i..][1..] == fs[i + 1..];
    if i < |fs| - 1 { assert fs[i..][1] == fs[i + 1]; }
  }

  /** The holes in turn. */
  method FillHoles(holes: seq<Hole>, sections: seq<Section>) returns (shares: seq<Share>, left: seq<Section>)
    requires Sorted(sections) && Positive(sections)
    ensures Map(HoleOf, shares) == holes && Shared(sections, shares, left)
  {
    shares, left := [], sections;
    var i := 0;
    while i < |holes|
      invariant i <= |holes| && Map(HoleOf, shares) == holes[..i] && Shared(sections, shares, left)
    {
      var fs, rest, to := FillGap(left, Addpos(holes[i]), holes[i].next);
      var h := Share(holes[i], fs, to);
      OneMoreGap(sections, shares, left, h, rest);
      MapJoin(HoleOf, shares, [h]);
      assert [h][1..] == [] && Map(HoleOf, [h]) == [holes[i]] && holes[..i] + [holes[i]] == holes[..i + 1];
      shares, left, i := shares + [h], rest, i + 1;
    }
    assert holes[..i] == holes;
  }

  /** What `fitSections` knows of the fixed sections at its end. */
  ghost predicate FixedIn(fixed: seq<Fixed>, shares: seq<Share>) {
    multiset(Map(FixedOf, Map(HoleOf, shares))) == multiset(fixed)
  }

  /** No address is given twice when the fixed sections are in order. */
  lemma SegmentOff(fixed: seq<Fixed>, shares: seq<Share>)
    requires fixed != [] && AllInHole(shares)
    requires Map(HoleOf, shares) == Sort(Holes(Sort(fixed, ByAddr)), ByAvail)
    ensures FixedIn(fixed, shares)
    ensures InOrder(Sort(fixed, ByAddr)) ==>
              AllOff(Occupied(shares)) && Inside(Occupied(shares), Sort(fixed, ByAddr)[0].addr, SEGMENT)
  {
    var fs := Sort(fixed, ByAddr);
    var hs := Holes(fs);
    SortHas(fixed, ByAddr);
    SortHas(hs, ByAvail);
    FixedOfHoles(fs);
    MapPermutes(FixedOf, Sort(hs, ByAvail), hs);
    MapPermutes(Span, Sort(hs, ByAvail), hs);
    if InOrder(fs) {
      HolesOff(fs);
      AllOffPermutes(Map(Span, hs), Map(Span, Sort(hs, ByAvail)));
      OccupiedOff(shares);
      forall x | x in multiset(Occupied(shares))
        ensures fs[0].addr <= x.start <= x.end <= SEGMENT
      {
        var s := WithinSpan(shares, x);
      }
    }
  }

  /** The fixed sections are among what lies in the segment. */
  lemma {:induction false} FixedAreOccupied(shares: seq<Share>, lo: int, hi: int)
    requires AllOff(Occupied(shares)) && Inside(Occupied(shares), lo, hi)
    ensures AllOff(Map(FixedExtent, Map(FixedOf, Map(HoleOf, shares))))
    ensures Inside(Map(FixedExtent, Map(FixedOf, Map(HoleOf, shares))), lo, hi)
    ensures forall x | x in multiset(Map(FixedExtent, Map(FixedOf, Map(HoleOf, shares)))) ::
              x in multiset(Occupied(shares))
    decreases shares
  {
    if shares != [] {
      var h, rest := shares[0], shares[1..];
      var xs := Map(FixedExtent, Map(FixedOf, Map(HoleOf, shares)));
      var ys := Map(FixedExtent, Map(FixedOf, Map(HoleOf, rest)));
      assert Map(HoleOf, shares)[1..] == Map(HoleOf, rest);
      assert Map(FixedOf, Map(HoleOf, shares))[1..] == Map(FixedOf, Map(HoleOf, rest));
      assert xs == [FixedExtent(h.hole.fixed)] + ys && xs[1..] == ys;
      assert multiset(xs) == multiset{xs[0]} + multiset(ys);
      AllOffJoin(Own(h), Occupied(rest));
      assert multiset(Occupied(shares)) == multiset(Own(h)) + multiset(Occupied(rest));
      assert Own(h)[0] == xs[0] && xs[0] in multiset(Own(h));
      FixedAreOccupied(rest, lo, hi);
    }
  }

  ghost predicate TakeSpace(fixed: seq<Fixed>) {
    forall f | f in multiset(fixed) :: f.size > 0
  }

  /** For fixed sections that take space this is exactly when those do not overlap and lie
      in the segment. */
  lemma SegmentOffExactly(fixed: seq<Fixed>, shares: seq<Share>)
    requires fixed != [] && AllInHole(shares) && TakeSpace(fixed)
    requires Map(HoleOf, shares) == Sort(Holes(Sort(fixed, ByAddr)), ByAvail)
    ensures AllOff(Occupied(shares)) && Inside(Occupied(shares), 0, SEGMENT) <==>
            AllOff(Map(FixedExtent, fixed)) && Inside(Map(FixedExtent, fixed), 0, SEGMENT)
  {
    hide Sort, AllOff, Map, Occupied, Holes, AllInHole, InOrder;
    var fs := Sort(fixed, ByAddr);
    SegmentOff(fixed, shares);
    SortHas(fixed, ByAddr);
    SortOrdered(fixed, ByAddr);
    MapPermutes(FixedExtent, fixed, fs);
    if AllOff(Map(FixedExtent, fixed)) && Inside(Map(FixedExtent, fixed), 0, SEGMENT) {
      AllOffPermutes(Map(FixedExtent, fixed), Map(FixedExtent, fs));
      forall i | 0 <= i < |fs|
        ensures fs[i].size > 0
      {
        assert fs[i] in multiset(fs);
      }
      OffIsInOrder(fs);
    }
    if AllOff(Occupied(shares)) && Inside(Occupied(shares), 0, SEGMENT) {
      var fs' := Map(FixedOf, Map(HoleOf, shares));
      FixedAreOccupied(shares, 0, SEGMENT);
      MapPermutes(FixedExtent, fs', fixed);
      AllOffPermutes(Map(FixedExtent, fs'), Map(FixedExtent, fixed));
    }
  }

  /** The build fails when a fixed section has an alignment, or there is none. */
  predicate Accepted(fixed: seq<Fixed>) {
    fixed != [] && forall i | 0 <= i < |fixed| :: fixed[i].align == 1
  }

  method CheckFixed(fixed: seq<Fixed>) returns (ok: bool)
    ensures ok <==> Accepted(fixed)
  {
    var i := 0;
    while i < |fixed|
      invariant i <= |fixed| && forall j | 0 <= j < i :: fixed[j].align == 1
    {
      if fixed[i].align != 1 {
        return false;
      }
      i := i + 1;
    }
    ok := fixed != [];
  }

  /** What `fitSections` achieves: every fixed section keeps its address; every other one
      is put behind one of them at most, aligned, or is left over, and then fits behind
      none; and none overlaps another or leaves the segment, if the fixed ones are in
      order, and, where those take space, only if they do not themselves. */
  ghost predicate Fits(fixed: seq<Fixed>, fillsections: seq<Section>, shares: seq<Share>, left: seq<Section>, lo: int) {
    && FixedIn(fixed, shares) && AllExhausted(shares, left)
    && All(shares) + multiset(left) == multiset(fillsections)
    && (InOrder(Sort(fixed, ByAddr)) ==> AllOff(Occupied(shares)) && Inside(Occupied(shares), lo, SEGMENT))
    && (TakeSpace(fixed) ==>
          (AllOff(Occupied(shares)) && Inside(Occupied(shares), 0, SEGMENT) <==>
           AllOff(Map(FixedExtent, fixed)) && Inside(Map(FixedExtent, fixed), 0, SEGMENT)))
  }

  /** The gap reaches to the next fixed section, or to the end of the segment. */
  ghost predicate Reaches(fixed: seq<Fixed>, h: Hole) {
    && h.fixed in fixed
    && ((h.next == 0x1_0000 && forall f | f in fixed :: f.addr <= h.fixed.addr) ||
        (h.fixed.addr <= h.next
         && (forall f | f in fixed :: f.addr <= h.fixed.addr || h.next <= f.addr)
         && exists i, j :: 0 <= i < |fixed| && 0 <= j < |fixed| && i != j && fixed[i] == h.fixed &&
                           fixed[j].addr == h.next))
  }

  /** The sections follow each other from the end of the fixed one, each at the next
      multiple of its alignment. */
  ghost predicate FromStart(h: Share) {
    var n, end := |h.fs|, h.hole.fixed.addr + h.hole.fixed.size;
    && (forall i | 0 <= i < n :: h.fs[i].section.align > 0)
    && (n == 0 ==> h.to == end)
    && (n > 0 ==>
          && h.fs[0].addpos == end && h.to <= h.hole.next
          && h.to == AlignUp(h.fs[n - 1].addpos, h.fs[n - 1].section.align) + h.fs[n - 1].section.size)
    && (forall i | 0 < i < n ::
          h.fs[i].addpos == AlignUp(h.fs[i - 1].addpos, h.fs[i - 1].section.align) + h.fs[i - 1].section.size)
  }

  /** Section `s`, put in later or never, would not have fitted in the place of `f`, or does
      not come behind it by size, alignment and name. */
  predicate Preferred(f: Fitted, s: Section, next: int) {
    var t := f.section;
    s.align > 0 && AlignUp(f.addpos, s.align) + s.size <= next ==>
      s.size < t.size || (s.size == t.size && (s.align < t.align || (s.align == t.align && s.name <= t.name)))
  }

  /** The gaps are those behind the fixed sections, the smallest first and of equal ones the
      lowest; each is filled from its start; and each time with the last section, by size,
      alignment and name, that fits. */
  ghost predicate PlacedInTurn(fixed: seq<Fixed>, shares: seq<Share>, left: seq<Section>) {
    && |shares| == |fixed| && (forall g | 0 <= g < |shares| :: Reaches(fixed, shares[g].hole) && FromStart(shares[g]))
    && (forall g, h | 0 <= g < h < |shares| ::
          var x, y := shares[g].hole, shares[h].hole;
          var a, b := x.next - (x.fixed.addr + x.fixed.size), y.next - (y.fixed.addr + y.fixed.size);
          a < b || (a == b && x.fixed.addr <= y.fixed.addr))
    && (forall g, i, k | 0 <= g < |shares| && 0 <= i < |shares[g].fs| && 0 <= k < |left| ::
          Preferred(shares[g].fs[i], left[k], shares[g].hole.next))
    && (forall g, i, h, j | && 0 <= g < |shares| && 0 <= i < |shares[g].fs| && 0 <= h < |shares|
                            && 0 <= j < |shares[h].fs| && (g < h || (g == h && i < j)) ::
          Preferred(shares[g].fs[i], shares[h].fs[j].section, shares[g].hole.next))
  }

  lemma SmallestFirst(fixed: seq<Fixed>, shares: seq<Share>, left: seq<Section>)
    requires PlacedInTurn(fixed, shares, left)
    ensures forall i, j | 0 <= i < j < |shares| ::
              var a, b := shares[i].hole, shares[j].hole;
              a.next - (a.fixed.addr + a.fixed.size) <= b.next - (b.fixed.addr + b.fixed.size)
  {
  }

  lemma {:induction false} FilledFrom(fs: seq<Fitted>, from: nat, to: nat)
    requires Filled(fs, from, to)
    ensures forall i | 0 <= i < |fs| :: fs[i].section.align > 0
    ensures if fs == [] then to == from
            else
              var f := fs[|fs| - 1];
              fs[0].addpos == from && to == AlignUp(f.addpos, f.section.align) + f.section.size
    ensures forall i | 0 < i < |fs| ::
              fs[i].addpos == AlignUp(fs[i - 1].addpos, fs[i - 1].section.align) + fs[i - 1].section.size
    decreases fs
  {
    if fs != [] {
      FilledFrom(fs[1..], Start(fs[0]) + fs[0].section.size, to);
      assert forall i | 0 < i < |fs| :: fs[1..][i - 1] == fs[i];
    }
  }

  lemma {:induction false} SharesFromStart(shares: seq<Share>, g: nat)
    requires AllInHole(shares) && g < |shares|
    ensures FromStart(shares[g])
    decreases shares
  {
    if g > 0 {
      SharesFromStart(shares[1..], g - 1);
    } else {
      var h := shares[0];
      FilledFrom(h.fs, Addpos(h.hole), h.to);
    }
  }

  /** The gaps, their order, and what was preferred to what. */
  lemma FittedInOrder(fixed: seq<Fixed>, fillsections: seq<Section>, shares: seq<Share>, left: seq<Section>)
    requires fixed != [] && Shared(Sort(fillsections, BySize), shares, left)
    requires Map(HoleOf, shares) == Sort(Holes(Sort(fixed, ByAddr)), ByAvail)
    ensures PlacedInTurn(fixed, shares, left)
  {
    hide Sort, Holes, Map, AllExhausted, All, Sorted, Positive, Reaches, FromStart, AllInHole, Ordered, AllGreedy;
    ExhaustedInHole(shares, left);
    forall g | 0 <= g < |shares|
      ensures Reaches(fixed, shares[g].hole) && FromStart(shares[g])
    {
      GapReaches(fixed, shares, g);
      SharesFromStart(shares, g);
    }
    forall g, h | 0 <= g < h < |shares|
      ensures Sooner(shares[g].hole, shares[h].hole)
    {
      GapsInOrder(fixed, shares, g, h);
    }
    forall g, i, k | 0 <= g < |shares| && 0 <= i < |shares[g].fs| && 0 <= k < |left|
      ensures Preferred(shares[g].fs[i], left[k], shares[g].hole.next)
    {
      if FitsIn(left[k], shares[g].fs[i].addpos, shares[g].hole.next) {
        AllGreedyMeans(shares, multiset(left), g, i, left[k]);
      }
    }
    forall g, i, h, j | && 0 <= g < |shares| && 0 <= i < |shares[g].fs| && 0 <= h < |shares|
                        && 0 <= j < |shares[h].fs| && (g < h || (g == h && i < j))
      ensures Preferred(shares[g].fs[i], shares[h].fs[j].section, shares[g].hole.next)
    {
      if FitsIn(shares[h].fs[j].section, shares[g].fs[i].addpos, shares[g].hole.next) {
        AllGreedyMeans(shares, multiset(left), g, i, shares[h].fs[j].section);
      }
    }
  }

  lemma GapReaches(fixed: seq<Fixed>, shares: seq<Share>, g: nat)
    requires Map(HoleOf, shares) == Sort(Holes(Sort(fixed, ByAddr)), ByAvail) && g < |shares|
    ensures Reaches(fixed, shares[g].hole)
  {
    hide Sort, Holes, Map;
    var hs := Holes(Sort(fixed, ByAddr));
    MapAt(HoleOf, shares, g);
    SortHas(hs, ByAvail);
    assert Sort(hs, ByAvail)[g] in multiset(Sort(hs, ByAvail));
    HoleReaches(fixed, shares[g].hole);
    assert forall f :: f in multiset(fixed) <==> f in fixed;
  }

  lemma GapsInOrder(fixed: seq<Fixed>, shares: seq<Share>, g: nat, h: nat)
    requires Map(HoleOf, shares) == Sort(Holes(Sort(fixed, ByAddr)), ByAvail) && g < h < |shares|
    ensures Sooner(shares[g].hole, shares[h].hole)
  {
    hide Sort, Holes, Map, Ordered;
    var fs := Sort(fixed, ByAddr);
    var hs := Holes(fs);
    SortOrdered(fixed, ByAddr);
    forall i, j | 0 <= i < j < |hs|
      ensures hs[i].fixed.addr <= hs[j].fixed.addr
    {
      HoleAt(fs, i);
      HoleAt(fs, j);
      ByAddrMeans(fs, i, j);
    }
    SortKeepsOrder(hs);
    MapAt(HoleOf, shares, g);
    MapAt(HoleOf, shares, h);
    SoonerMeans(Sort(hs, ByAvail), g, h);
  }

  ghost predicate Least(fixed: seq<Fixed>, addr: nat) {
    (exists f | f in multiset(fixed) :: addr == f.addr) && forall f | f in multiset(fixed) :: addr <= f.addr
  }

  /** `fitSections`.  The gaps behind the fixed sections are filled one by one, the smallest
      first and of equal ones the lowest; each from its start on, aligned; and each time
      with the last section, by size, alignment and name, that fits. */
  method FitSections(fixed: seq<Fixed>, fillsections: seq<Section>)
    returns (first: Option<nat>, shares: seq<Share>, left: seq<Section>)
    requires Positive(fillsections)
    ensures first.Some? <==> fixed != [] && forall i | 0 <= i < |fixed| :: fixed[i].align == 1
    ensures first.Some? ==> first.value >= 0xF_0000 && Least(fixed, first.value - 0xF_0000)
    ensures first.Some? ==> Fits(fixed, fillsections, shares, left, first.value - BIOS)
    ensures first.Some? ==> PlacedInTurn(fixed, shares, left)
    ensures first.Some? ==>
              forall i, j | 0 <= i < j < |shares| ::
                var a, b := shares[i].hole, shares[j].hole;
                a.next - (a.fixed.addr + a.fixed.size) <= b.next - (b.fixed.addr + b.fixed.size)
  {
    hide Fits, Least, PlacedInTurn, Sorted, Positive, Shared, Holes, Map, Sort, BySize, ByAvail, ByAddr;
    first, shares, left := None, [], [];
    var ok := CheckFixed(fixed);
    if ok {
      var fixedsections := Sort(fixed, ByAddr);
      var fixedAddr := FindHoles(fixedsections);
      SortedForFitting(fillsections);
      var canrelocate := Sort(fillsections, BySize);
      shares, left := FillHoles(Sort(fixedAddr, ByAvail), canrelocate);
      AllFits(fixed, fillsections, shares, left);
      FittedInOrder(fixed, fillsections, shares, left);
      SmallestFirst(fixed, shares, left);
      LeastAddr(fixed);
      first := Some(fixedsections[0].addr + BIOS);
    }
  }

  lemma AllFits(fixed: seq<Fixed>, fillsections: seq<Section>, shares: seq<Share>, left: seq<Section>)
    requires fixed != [] && Positive(fillsections) && Shared(Sort(fillsections, BySize), shares, left)
    requires Map(HoleOf, shares) == Sort(Holes(Sort(fixed, ByAddr)), ByAvail)
    ensures Fits(fixed, fillsections, shares, left, Sort(fixed, ByAddr)[0].addr)
  {
    SortedForFitting(fillsections);
    ExhaustedInHole(shares, left);
    SegmentOff(fixed, shares);
    if TakeSpace(fixed) { SegmentOffExactly(fixed, shares); }
  }

  lemma LeastAddr(fixed: seq<Fixed>)
    requires fixed != []
    ensures var fs := Sort(fixed, ByAddr);
            Least(fixed, fs[0].addr)
  {
    var fs := Sort(fixed, ByAddr);
    SortHas(fixed, ByAddr);
    SortOrdered(fixed, ByAddr);
    assert fs[0] in multiset(fs);
    forall f | f in multiset(fs)
      ensures fs[0].addr <= f.addr
    {
      var i :| 0 <= i < |fs| && fs[i] == f;
      FirstIsLeast(fs, i);
    }
  }

  lemma {:induction false} FirstIsLeast(fs: seq<Fixed>, i: nat)
    requires Ordered(fs, ByAddr) && i < |fs|
    ensures fs[0].addr <= fs[i].addr
    decreases fs
  {
    if i > 0 { FirstIsLeast(fs[1..], i - 1); }
  }

  // ---------------------------------------------------------- the 16-bit code

  /** The sections that were given no address. */
  function Leftover(sections: seq<Section>, left: multiset<Section>): seq<Section>
    decreases sections
  {
    if sections == [] then []
    else (if sections[0] in left then [sections[0]] else []) + Leftover(sections[1..], left)
  }

  lemma {:induction false} LeftoverHas(sections: seq<Section>, left: multiset<Section>, s: Section)
    ensures multiset(Leftover(sections, left))[s] == if s in left then multiset(sections)[s] else 0
    decreases sections
  {
    if sections != [] {
      LeftoverHas(sections[1..], left, s);
      assert sections == [sections[0]] + sections[1..];
    }
  }

  /** No section is listed twice. */
  ghost predicate Once(sections: seq<Section>) {
    forall s :: multiset(sections)[s] <= 1
  }

  lemma LeftoverIsLeft(sections: seq<Section>, left: multiset<Section>)
    requires Once(sections) && left <= multiset(sections)
    ensures multiset(Leftover(sections, left)) == left
  {
    forall s
      ensures multiset(Leftover(sections, left))[s] == left[s]
    {
      LeftoverHas(sections, left, s);
      assert left[s] <= multiset(sections)[s] <= 1;
    }
  }

  lemma {:induction false} PowersMeans(sections: seq<Section>)
    ensures Powers(sections) <==> forall s | s in multiset(sections) :: PowerOfTwo(s.align)
    decreases sections
  {
    if sections != [] {
      assert sections == [sections[0]] + sections[1..];
      PowersMeans(sections[1..]);
    }
  }

  lemma PowersSum(left: seq<Section>, others: seq<Section>, text: seq<Section>)
    requires Powers(text) && Powers(others) && multiset(left) <= multiset(text)
    ensures Powers(left + others)
  {
    PowersMeans(text);
    PowersMeans(others);
    PowersMeans(left + others);
    forall s | s in multiset(left + others)
      ensures PowerOfTwo(s.align)
    {
      assert s in multiset(text) || s in multiset(others);
    }
  }

  lemma {:induction false} PowersPositive(sections: seq<Section>)
    requires Powers(sections)
    ensures Positive(sections)
    decreases sections
  {
    if sections != [] {
      var k: nat :| sections[0].align == Pow2(k);
      PowersPositive(sections[1..]);
    }
  }

  function PackedExtents(sections: seq<Section>, addrs: seq<int>): seq<Extent>
    requires |addrs| == |sections|
    decreases sections
  {
    if sections == [] then []
    else [Extent(addrs[0], addrs[0] + sections[0].size)] + PackedExtents(sections[1..], addrs[1..])
  }

  lemma {:induction false} PackedOff(sections: seq<Section>, addrs: seq<int>, from: int, to: int)
    requires Apart(sections, addrs, from, to)
    ensures AllOff(PackedExtents(sections, addrs)) && Inside(PackedExtents(sections, addrs), from, to) && from <= to
    decreases sections
  {
    if sections != [] {
      var x := Extent(addrs[0], addrs[0] + sections[0].size);
      var rest := PackedExtents(sections[1..], addrs[1..]);
      PackedOff(sections[1..], addrs[1..], addrs[0] + sections[0].size, to);
      assert ([x] + rest)[1..] == rest && multiset([x] + rest) == multiset{x} + multiset(rest);
    }
  }

  /** An extent of the segment as an address range. */
  function InMemory(x: Extent): Extent {
    Extent(x.start + BIOS, x.end + BIOS)
  }

  lemma {:induction false} MovedFrom(xs: seq<Extent>, y: Extent) returns (x: Extent)
    requires y in multiset(Map(InMemory, xs))
    ensures x in multiset(xs) && y == InMemory(x)
    decreases xs
  {
    assert xs == [xs[0]] + xs[1..];
    if y == InMemory(xs[0]) {
      x := xs[0];
    } else {
      x := MovedFrom(xs[1..], y);
    }
  }

  lemma MemoryInside(xs: seq<Extent>, lo: int, hi: int)
    requires Inside(xs, lo, hi)
    ensures Inside(Map(InMemory, xs), lo + BIOS, hi + BIOS)
  {
    forall y | y in multiset(Map(InMemory, xs))
      ensures lo + BIOS <= y.start <= y.end <= hi + BIOS
    {
      var x := MovedFrom(xs, y);
    }
  }

  lemma {:induction false} MemoryOff(xs: seq<Extent>)
    requires AllOff(xs)
    ensures AllOff(Map(InMemory, xs))
    decreases xs
  {
    if xs != [] {
      var x, rest := InMemory(xs[0]), Map(InMemory, xs[1..]);
      MemoryOff(xs[1..]);
      assert ([x] + rest)[1..] == rest;
      forall y | y in multiset(rest)
        ensures Off(x, y)
      {
        var z := MovedFrom(xs[1..], y);
      }
    }
  }

  /** All 16-bit sections, wherever they were put. */
  function Everything(shares: seq<Share>, rem: seq<Section>, finalloc: seq<int>): seq<Extent>
    requires |finalloc| == |rem|
  {
    PackedExtents(rem, finalloc) + Map(InMemory, Occupied(shares))
  }

  lemma EverythingOff(shares: seq<Share>, rem: seq<Section>, finalloc: seq<int>, start: int, end: int, first: int)
    requires Apart(rem, finalloc, start, end) && end <= first
    requires AllOff(Occupied(shares)) && Inside(Occupied(shares), first - BIOS, SEGMENT)
    requires first <= BIOS + SEGMENT
    ensures AllOff(Everything(shares, rem, finalloc))
    ensures Inside(Everything(shares, rem, finalloc), start, BIOS + SEGMENT)
  {
    PackedOff(rem, finalloc, start, end);
    MemoryOff(Occupied(shares));
    MemoryInside(Occupied(shares), first - BIOS, SEGMENT);
    AllOffJoin(PackedExtents(rem, finalloc), Map(InMemory, Occupied(shares)));
  }

  /** What the 16-bit part of `doLayout` achieves: no section is lost; those left over
      are packed in order; and no two overlap, whenever the fixed ones are in order and
      the rest fits below them. */
  ghost predicate Laid(fixed: seq<Fixed>, sections: seq<Section>, floors: bool, first: nat, shares: seq<Share>,
                       rem: seq<Section>, finalloc: seq<int>, start: int)
  {
    && Positive(rem) && |finalloc| == |rem|
    && FixedIn(fixed, shares) && All(shares) + multiset(rem) == multiset(sections)
    && Apart(rem, finalloc, start, start + Packed(rem, 0))
    && (InOrder(Sort(fixed, ByAddr)) && (floors || first >= Packed(rem, 0)) ==>
          && AllOff(Everything(shares, rem, finalloc))
          && Inside(Everything(shares, rem, finalloc), start, BIOS + SEGMENT))
  }

  /** That part: what is left over goes below the first fixed section. */
  method Layout16(fixed: seq<Fixed>, text: seq<Section>, others: seq<Section>, floors: bool)
    returns (first: Option<nat>, shares: seq<Share>, rem: seq<Section>, finalloc: seq<int>, start: int)
    requires Powers(text) && Powers(others) && Once(text)
    ensures first.Some? <==> Accepted(fixed)
    ensures first.Some? ==> Laid(fixed, text + others, floors, first.value, shares, rem, finalloc, start)
  {
    hide Powers, Once, All, Fits, Laid, Positive, Least, Apart, Packed, Leftover, PlacedInTurn;
    PowersPositive(text);
    var left;
    first, shares, left := FitSections(fixed, text);
    rem, finalloc, start := [], [], 0;
    if first.Some? {
      NothingLost(fixed, text, shares, left, first.value - BIOS);
      RemIs(shares, left, others, text);
      rem := Leftover(text, multiset(left)) + others;
      start, finalloc := PutBelow(rem, first.value, floors);
      LaidOut(fixed, text, others, floors, first.value, shares, left, rem, finalloc, start);
    }
  }

  lemma NothingLost(fixed: seq<Fixed>, fillsections: seq<Section>, shares: seq<Share>, left: seq<Section>, lo: int)
    requires Fits(fixed, fillsections, shares, left, lo)
    ensures All(shares) + multiset(left) == multiset(fillsections)
  {
  }

  lemma LaidOut(fixed: seq<Fixed>, text: seq<Section>, others: seq<Section>, floors: bool, first: nat,
                shares: seq<Share>, left: seq<Section>, rem: seq<Section>, finalloc: seq<int>, start: int)
    requires Accepted(fixed) && first >= BIOS && Least(fixed, first - BIOS)
    requires Fits(fixed, text, shares, left, first - BIOS)
    requires All(shares) + multiset(rem) == multiset(text + others)
    requires Positive(rem) && |finalloc| == |rem| && Apart(rem, finalloc, start, start + Packed(rem, 0))
    requires floors || first >= Packed(rem, 0) ==> start + Packed(rem, 0) <= first
    ensures Laid(fixed, text + others, floors, first, shares, rem, finalloc, start)
  {
    hide Sort, AllOff, Inside, Everything, Apart, Occupied, All, AllExhausted, InOrder, Positive, Packed;
    FirstInSegment(fixed, first);
    if InOrder(Sort(fixed, ByAddr)) && (floors || first >= Packed(rem, 0)) {
      EverythingOff(shares, rem, finalloc, start, start + Packed(rem, 0), first);
    }
  }

  lemma RemIs(shares: seq<Share>, left: seq<Section>, others: seq<Section>, text: seq<Section>)
    requires Powers(text) && Powers(others) && Once(text) && All(shares) + multiset(left) == multiset(text)
    ensures var rem := Leftover(text, multiset(left)) + others;
            Powers(rem) && All(shares) + multiset(rem) == multiset(text + others)
  {
    LeftoverIsLeft(text, multiset(left));
    PowersSum(Leftover(text, multiset(left)), others, text);
  }

  lemma FirstInSegment(fixed: seq<Fixed>, first: nat)
    requires fixed != [] && first >= BIOS && Least(fixed, first - BIOS)
    ensures InOrder(Sort(fixed, ByAddr)) ==> first <= BIOS + SEGMENT
  {
    if InOrder(Sort(fixed, ByAddr)) {
      SortHas(fixed, ByAddr);
      HolesOff(Sort(fixed, ByAddr));
      var spans := Map(Span, Holes(Sort(fixed, ByAddr)));
      assert spans[0] in multiset(spans);
      assert Sort(fixed, ByAddr)[0] in multiset(Sort(fixed, ByAddr));
    }
  }

  method PutBelow(rem: seq<Section>, endaddr: int, floors: bool) returns (start: int, addrs: seq<int>)
    requires Powers(rem)
    ensures Positive(rem) && |addrs| == |rem| && Apart(rem, addrs, start, start + Packed(rem, 0))
    ensures floors || endaddr >= Packed(rem, 0) ==> start + Packed(rem, 0) <= endaddr
  {
    PowersPositive(rem);
    var finalloc, finalsegloc := new int[|rem|], new int[|rem|];
    assert PowerOfTwo(1) by { assert Pow2(0) == 1; }
    var minalign;
    start, minalign := SetSectionsStart(rem, endaddr, 1, BIOS, floors, finalloc, finalsegloc);
    addrs := finalloc[..];
  }
}
