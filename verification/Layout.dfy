/** Where seabios/scripts/layoutrom.py puts sections: packed against an end address. */
module Layout {
  import opened Basics
  import opened Rounding

  /** `name` stands for the rank of the section's name. */
  datatype Section = Section(size: nat, align: nat, name: nat)

  /** `align` is one of the powers of two up to `limit`. */
  ghost predicate PowerUpTo(align: nat, limit: nat) {
    exists j: nat, k: nat :: align == Pow2(j) && limit == Pow2(k) && j <= k
  }

  predicate Positive(sections: seq<Section>)
    decreases sections
  {
    sections == [] || (sections[0].align > 0 && Positive(sections[1..]))
  }

  ghost predicate AllUpTo(sections: seq<Section>, limit: nat)
    decreases sections
  {
    sections == [] || (PowerUpTo(sections[0].align, limit) && AllUpTo(sections[1..], limit))
  }

  // --------------------------------------------------------- setSectionsStart

  /** The position behind the sections when they are packed from `pos` on. */
  function Packed(sections: seq<Section>, pos: nat): nat
    requires Positive(sections)
    decreases sections
  {
    if sections == [] then pos else Packed(sections[1..], AlignUp(pos, sections[0].align) + sections[0].size)
  }

  function Widest(sections: seq<Section>, minalign: nat): nat
    decreases sections
  {
    if sections == [] then minalign
    else Widest(sections[1..], if sections[0].align > minalign then sections[0].align else minalign)
  }

  /** `int(x / d) * d`.  Between integers the division of Python 2 rounds down; that of
      Python 3 does not, and `int` then rounds toward zero. */
  function Rounded(x: int, d: nat, floors: bool): (r: int)
    requires d > 0
    ensures x >= 0 || floors ==> x - d < r <= x
    ensures x < 0 && !floors ==> x <= r < x + d
  {
    if x >= 0 then AlignDown(x, d)
    else
      var y: int := if floors then AlignUp(-x, d) else AlignDown(-x, d);
      -y
  }

  /** A multiple of `align`, of either sign. */
  predicate Multiple(x: int, align: nat)
    requires align > 0
  {
    Aligned(if x >= 0 then x else -x, align)
  }

  /** `alignpos`, which rounds negative positions up as well. */
  function AlignPos(x: int, align: nat): (r: int)
    requires align > 0
    ensures x <= r < x + align
  {
    if x >= 0 then AlignUp(x, align) else var y: int := AlignDown(-x, align); -y
  }

  lemma {:induction false} MultipleDifference(x: nat, y: nat, align: nat)
    requires align > 0 && Aligned(x, align) && Aligned(y, align)
    ensures Multiple(x - y, align)
    decreases x
  {
    if x >= align && y >= align { MultipleDifference(x - align, y - align, align); }
  }

  /** Rounding commutes with moving by a multiple, also below 0. */
  lemma AlignPosShift(base: int, x: nat, align: nat)
    requires align > 0 && Multiple(base, align)
    ensures AlignPos(base + x, align) == base + AlignUp(x, align)
    ensures Multiple(base + AlignUp(x, align), align)
  {
    AlignUpIsLeast(x, align);
    if base >= 0 {
      AlignUpShift(base, x, align);
      AlignUpIsLeast(base + x, align);
    } else {
      MultipleDifference(AlignUp(x, align), -base, align);
      if base + x >= 0 {
        AlignUpShift(-base, base + x, align);
      } else {
        AlignDownIsAligned(-base - x, align);
        MultipleDifference(-base, AlignUp(x, align), align);
        DownFromUp(-base, x, align);
      }
    }
  }

  lemma DownFromUp(b: nat, x: nat, align: nat)
    requires align > 0 && Aligned(b, align) && x < b
    ensures AlignUp(x, align) <= b && AlignDown(b - x, align) == b - AlignUp(x, align)
  {
    AlignUpIsLeast(x, align);
    AlignDownIsAligned(b - x, align);
    var d := b - AlignUp(x, align);
    MultipleDifference(b, AlignUp(x, align), align);
    NextMultiple(d, AlignDown(b - x, align), align);
    NextMultiple(AlignDown(b - x, align), d, align);
  }

  /** Aligned, in order and apart, from `from` to `to`. */
  predicate Apart(sections: seq<Section>, addrs: seq<int>, from: int, to: int)
    decreases sections
  {
    |addrs| == |sections| &&
    if sections == [] then from <= to
    else
      && sections[0].align > 0 && from <= addrs[0] && Multiple(addrs[0], sections[0].align)
      && Apart(sections[1..], addrs[1..], addrs[0] + sections[0].size, to)
  }

  /** Not only neighbours: each section lies wholly before every later one. */
  lemma {:induction false} ApartMeans(sections: seq<Section>, addrs: seq<int>, from: int, to: int, i: nat)
    requires Apart(sections, addrs, from, to) && i < |sections|
    ensures from <= addrs[i] && addrs[i] + sections[i].size <= to
    ensures sections[i].align > 0 && Multiple(addrs[i], sections[i].align)
    ensures forall j | 0 <= j < i :: addrs[j] + sections[j].size <= addrs[i]
    decreases sections
  {
    if i > 0 {
      ApartMeans(sections[1..], addrs[1..], addrs[0] + sections[0].size, to, i - 1);
      forall j | 0 <= j < i
        ensures addrs[j] + sections[j].size <= addrs[i]
      {
        if j > 0 { assert addrs[1..][j - 1] == addrs[j] && sections[1..][j - 1] == sections[j]; }
      }
    } else {
      ApartEnds(sections[1..], addrs[1..], addrs[0] + sections[0].size, to);
    }
  }

  lemma {:induction false} ApartEnds(sections: seq<Section>, addrs: seq<int>, from: int, to: int)
    requires Apart(sections, addrs, from, to)
    ensures from <= to
    decreases sections
  {
    if sections != [] { ApartEnds(sections[1..], addrs[1..], addrs[0] + sections[0].size, to); }
  }

  /** The addresses when the sections are packed from `base + pos` on. */
  function Addresses(sections: seq<Section>, base: int, pos: nat): (addrs: seq<int>)
    requires Positive(sections)
    ensures |addrs| == |sections|
    decreases sections
  {
    if sections == [] then []
    else
      var a := AlignUp(pos, sections[0].align);
      [base + a] + Addresses(sections[1..], base, a + sections[0].size)
  }

  /** Each address is the first multiple of its alignment from the end of the section before
      on, and nothing lies behind the last. */
  lemma {:induction false} AddressesTight(sections: seq<Section>, base: int, pos: nat, i: nat)
    requires Positive(sections) && i < |sections|
    ensures var addrs := Addresses(sections, base, pos);
            && sections[i].align > 0
            && (var end := if i == 0 then base + pos else addrs[i - 1] + sections[i - 1].size;
                end <= addrs[i] < end + sections[i].align)
            && (i == |sections| - 1 ==> addrs[i] + sections[i].size == base + Packed(sections, pos))
    decreases sections
  {
    var a := AlignUp(pos, sections[0].align);
    if i > 0 {
      AddressesTight(sections[1..], base, a + sections[0].size, i - 1);
      var addrs := Addresses(sections, base, pos);
      assert addrs[1..] == Addresses(sections[1..], base, a + sections[0].size);
      assert addrs[i] == addrs[1..][i - 1];
      if i > 1 { assert addrs[i - 1] == addrs[1..][i - 2]; }
    } else {
      if |sections| == 1 { assert sections[1..] == []; }
    }
  }

  lemma SectionsTight(sections: seq<Section>, base: int, addrs: seq<int>)
    requires Positive(sections) && addrs == Addresses(sections, base, 0)
    ensures forall i | 0 <= i < |sections| ::
              var end := if i == 0 then base else addrs[i - 1] + sections[i - 1].size;
              end <= addrs[i] < end + sections[i].align
    ensures var end := if sections == [] then base else addrs[|sections| - 1] + sections[|sections| - 1].size;
            end == base + Packed(sections, 0)
  {
    hide Addresses, Positive;
    forall i | 0 <= i < |sections|
      ensures var end := if i == 0 then base else addrs[i - 1] + sections[i - 1].size;
              end <= addrs[i] < end + sections[i].align
    {
      AddressesTight(sections, base, 0, i);
    }
    if sections != [] { AddressesTight(sections, base, 0, |sections| - 1); }
  }

  lemma {:induction false} WidestIs(sections: seq<Section>, minalign: nat)
    ensures minalign <= Widest(sections, minalign)
    ensures forall i | 0 <= i < |sections| :: sections[i].align <= Widest(sections, minalign)
    ensures Widest(sections, minalign) == minalign ||
            exists i :: 0 <= i < |sections| && sections[i].align == Widest(sections, minalign)
    decreases sections
  {
    if sections != [] {
      var m := if sections[0].align > minalign then sections[0].align else minalign;
      WidestIs(sections[1..], m);
      forall i | 0 <= i < |sections|
        ensures sections[i].align <= Widest(sections, minalign)
      {
        if i > 0 { assert sections[i] == sections[1..][i - 1]; }
      }
      if Widest(sections[1..], m) == m {
        assert m == minalign || sections[0].align == m;
      } else {
        var i :| 0 <= i < |sections[1..]| && sections[1..][i].align == Widest(sections, minalign);
        assert sections[i + 1] == sections[1..][i];
      }
    }
  }

  /** From a multiple of the widest alignment, the sections lie aligned and apart in just
      the space they take from 0. */
  lemma {:induction false} AddressesApart(sections: seq<Section>, base: int, pos: nat, limit: nat)
    requires Positive(sections) && AllUpTo(sections, limit) && limit > 0 && Multiple(base, limit)
    ensures Apart(sections, Addresses(sections, base, pos), base + pos, base + Packed(sections, pos))
    decreases sections
  {
    if sections != [] {
      var a := AlignUp(pos, sections[0].align);
      SmallerMultiple(base, sections[0].align, limit);
      AlignPosShift(base, pos, sections[0].align);
      AddressesApart(sections[1..], base, a + sections[0].size, limit);
      assert Addresses(sections, base, pos)[1..] == Addresses(sections[1..], base, a + sections[0].size);
    }
  }

  lemma SmallerMultiple(base: int, align: nat, limit: nat)
    requires PowerUpTo(align, limit) && limit > 0 && Multiple(base, limit)
    ensures align > 0 && Multiple(base, align)
  {
    var j: nat, k: nat :| align == Pow2(j) && limit == Pow2(k) && j <= k;
    AlignedForLess(if base >= 0 then base else -base, j, k);
  }

  ghost predicate Powers(sections: seq<Section>)
    decreases sections
  {
    sections == [] || (PowerOfTwo(sections[0].align) && Powers(sections[1..]))
  }

  lemma {:induction false} WidestIsLimit(sections: seq<Section>, minalign: nat)
    requires Powers(sections) && PowerOfTwo(minalign)
    ensures PowerUpTo(minalign, Widest(sections, minalign)) && AllUpTo(sections, Widest(sections, minalign))
    ensures Positive(sections)
    decreases sections
  {
    if sections != [] {
      var a := sections[0].align;
      var m := if a > minalign then a else minalign;
      WidestIsLimit(sections[1..], m);
      LessPower(a, m, Widest(sections, minalign));
      LessPower(minalign, m, Widest(sections, minalign));
    } else {
      var k: nat :| minalign == Pow2(k);
    }
  }

  lemma LessPower(a: nat, m: nat, limit: nat)
    requires PowerOfTwo(a) && PowerUpTo(m, limit) && a <= m
    ensures PowerUpTo(a, limit) && a > 0
  {
    var i: nat :| a == Pow2(i);
    var j: nat, k: nat :| m == Pow2(j) && limit == Pow2(k) && j <= k;
    Pow2Ordered(i, j);
  }

  /** The start is a multiple, and the sections end at or before `endaddr` exactly when
      the division rounds down, they fit below it, or they are too long by a multiple. */
  lemma StartIs(endaddr: int, space: nat, d: nat, floors: bool)
    requires d > 0
    ensures Multiple(Rounded(endaddr - space, d, floors), d)
    ensures Rounded(endaddr - space, d, floors) + space <= endaddr <==>
            floors || endaddr >= space || Aligned(space - endaddr, d)
    ensures floors || endaddr >= space ==> endaddr - (Rounded(endaddr - space, d, floors) + space) < d
  {
    if endaddr >= space {
      AlignDownIsAligned(endaddr - space, d);
    } else {
      AlignDownIsAligned(space - endaddr, d);
      AlignUpIsLeast(space - endaddr, d);
    }
  }

  /** `setSectionsStart`. */
  method SetSectionsStart(sections: seq<Section>, endaddr: int, minalign0: nat, segoffset: int, floors: bool,
                          finalloc: array<int>, finalsegloc: array<int>)
    returns (startaddr: int, minalign: nat)
    requires Powers(sections) && PowerOfTwo(minalign0) && Positive(sections)
    requires finalloc.Length == finalsegloc.Length == |sections| && finalloc != finalsegloc
    modifies finalloc, finalsegloc
    ensures minalign == Widest(sections, minalign0) > 0 && Multiple(startaddr, minalign)
    ensures minalign0 <= minalign && forall i | 0 <= i < |sections| :: sections[i].align <= minalign
    ensures minalign == minalign0 || exists i :: 0 <= i < |sections| && sections[i].align == minalign
    ensures forall i | 0 <= i < |sections| ::
              var end := if i == 0 then startaddr else finalloc[..][i - 1] + sections[i - 1].size;
              end <= finalloc[..][i] < end + sections[i].align
    ensures var end := if sections == [] then startaddr
                       else finalloc[..][|sections| - 1] + sections[|sections| - 1].size;
            && end == startaddr + Packed(sections, 0)
            && (floors || endaddr >= end - startaddr ==> endaddr - minalign < end <= endaddr)
            && (!floors && endaddr < end - startaddr ==> endaddr <= end < endaddr + minalign)
    ensures Apart(sections, finalloc[..], startaddr, startaddr + Packed(sections, 0))
    ensures forall i | 0 <= i < |sections| :: finalsegloc[..][i] == finalloc[..][i] - segoffset
    ensures startaddr + Packed(sections, 0) <= endaddr <==>
            floors || endaddr >= Packed(sections, 0) || Aligned(Packed(sections, 0) - endaddr, minalign)
    ensures floors || endaddr >= Packed(sections, 0) ==> endaddr - (startaddr + Packed(sections, 0)) < minalign
  {
    hide Addresses, Packed, Apart, Widest, Powers, Rounded, Multiple, Positive, AllUpTo, Aligned;
    WidestIsLimit(sections, minalign0);
    var totspace: nat;
    totspace, minalign := Measure(sections, minalign0);
    StartIs(endaddr, totspace, minalign, floors);
    startaddr := Rounded(endaddr - totspace, minalign, floors);
    PlaceAll(sections, startaddr, minalign, segoffset, finalloc, finalsegloc);
    AddressesApart(sections, startaddr, 0, minalign);
    WidestIs(sections, minalign0);
    SectionsTight(sections, startaddr, finalloc[..]);
    forall i | 0 <= i < |sections|
      ensures finalsegloc[..][i] == finalloc[..][i] - segoffset
    {
      AddressesOffset(sections, startaddr, segoffset, 0, i);
    }
  }

  /** The first loop. */
  method Measure(sections: seq<Section>, minalign0: nat) returns (totspace: nat, minalign: nat)
    requires Positive(sections) && minalign0 > 0
    ensures totspace == Packed(sections, 0) && minalign == Widest(sections, minalign0)
    ensures minalign > 0
  {
    totspace, minalign := 0, minalign0;
    var i := 0;
    assert sections[0..] == sections;
    while i < |sections|
      invariant i <= |sections| && Positive(sections[i..]) && minalign > 0
      invariant Packed(sections[i..], totspace) == Packed(sections, 0)
      invariant Widest(sections[i..], minalign) == Widest(sections, minalign0)
    {
      var section := sections[i];
      assert sections[i..][0] == section && sections[i..][1..] == sections[i + 1..];
      if section.align > minalign {
        minalign := section.align;
      }
      totspace := AlignUp(totspace, section.align) + section.size;
      i := i + 1;
    }
  }

  /** The first `i` addresses are in place, and those of `rest` start looking at `pos`. */
  predicate PlacedUpTo(done: seq<int>, i: nat, rest: seq<Section>, all: seq<int>, base: int, pos: nat)
    requires Positive(rest)
  {
    |done| == i + |rest| && done[..i] + Addresses(rest, base, pos) == all
  }

  lemma OnePlaced(done: seq<int>, i: nat, rest: seq<Section>, all: seq<int>, base: int, pos: nat)
    requires rest != [] && Positive(rest) && PlacedUpTo(done, i, rest, all, base, pos)
    ensures rest[0].align > 0 && Positive(rest[1..])
    ensures var a := AlignUp(pos, rest[0].align);
            PlacedUpTo(done[i := base + a], i + 1, rest[1..], all, base, a + rest[0].size)
  {
    FirstAddress(rest, base, pos);
    hide Addresses, AlignUp, Positive;
    var a := AlignUp(pos, rest[0].align);
    OneLonger(done, i, base + a, Addresses(rest[1..], base, a + rest[0].size), all);
  }

  lemma FirstAddress(sections: seq<Section>, base: int, pos: nat)
    requires sections != [] && Positive(sections)
    ensures Positive(sections[1..])
    ensures var a := AlignUp(pos, sections[0].align);
            Addresses(sections, base, pos) == [base + a] + Addresses(sections[1..], base, a + sections[0].size)
  {
  }

  lemma OneLonger(done: seq<int>, i: nat, x: int, rest: seq<int>, all: seq<int>)
    requires i < |done| && done[..i] + ([x] + rest) == all
    ensures done[i := x][..i + 1] + rest == all
  {
    assert done[i := x][..i + 1] == done[..i] + [x];
  }

  lemma {:induction false} AddressesOffset(sections: seq<Section>, base: int, off: int, pos: nat, i: nat)
    requires Positive(sections) && i < |sections|
    ensures Addresses(sections, base - off, pos)[i] == Addresses(sections, base, pos)[i] - off
    decreases sections
  {
    if i > 0 {
      AddressesOffset(sections[1..], base, off, AlignUp(pos, sections[0].align) + sections[0].size, i - 1);
    }
  }

  /** The second loop. */
  method PlaceAll(sections: seq<Section>, startaddr: int, ghost limit: nat, segoffset: int,
                  finalloc: array<int>, finalsegloc: array<int>)
    requires Positive(sections) && AllUpTo(sections, limit) && limit > 0 && Multiple(startaddr, limit)
    requires finalloc.Length == finalsegloc.Length == |sections| && finalloc != finalsegloc
    modifies finalloc, finalsegloc
    ensures finalloc[..] == Addresses(sections, startaddr, 0)
    ensures finalsegloc[..] == Addresses(sections, startaddr - segoffset, 0)
  {
    var curaddr, i := startaddr, 0;
    ghost var pos: nat := 0;
    ghost var all, allseg := Addresses(sections, startaddr, 0), Addresses(sections, startaddr - segoffset, 0);
    assert sections[0..] == sections;
    while i < |sections|
      invariant i <= |sections| && Positive(sections[i..]) && AllUpTo(sections[i..], limit)
      invariant curaddr == startaddr + pos
      invariant PlacedUpTo(finalloc[..], i, sections[i..], all, startaddr, pos)
      invariant PlacedUpTo(finalsegloc[..], i, sections[i..], allseg, startaddr - segoffset, pos)
    {
      assert sections[i..][1..] == sections[i + 1..] && sections[i..][0] == sections[i];
      curaddr, pos := PlaceOne(sections[i], sections[i..], i, all, allseg, startaddr, pos, limit, curaddr, segoffset,
                               finalloc, finalsegloc);
      i := i + 1;
    }
    assert sections[|sections|..] == [];
  }

  /** The next section, the first of `rest`. */
  method PlaceOne(section: Section, ghost rest: seq<Section>, i: nat, ghost all: seq<int>, ghost allseg: seq<int>,
                  ghost startaddr: int, ghost pos: nat, ghost limit: nat, curaddr: int, segoffset: int,
                  finalloc: array<int>, finalsegloc: array<int>)
    returns (next: int, ghost pos': nat)
    requires rest != [] && section == rest[0] && Positive(rest) && AllUpTo(rest, limit)
    requires limit > 0 && Multiple(startaddr, limit) && curaddr == startaddr + pos
    requires finalloc.Length == finalsegloc.Length == i + |rest| && finalloc != finalsegloc
    requires PlacedUpTo(finalloc[..], i, rest, all, startaddr, pos)
    requires PlacedUpTo(finalsegloc[..], i, rest, allseg, startaddr - segoffset, pos)
    modifies finalloc, finalsegloc
    ensures next == startaddr + pos' && Positive(rest[1..])
    ensures PlacedUpTo(finalloc[..], i + 1, rest[1..], all, startaddr, pos')
    ensures PlacedUpTo(finalsegloc[..], i + 1, rest[1..], allseg, startaddr - segoffset, pos')
  {
    OnePlaced(finalloc[..], i, rest, all, startaddr, pos);
    OnePlaced(finalsegloc[..], i, rest, allseg, startaddr - segoffset, pos);
    NextCuraddr(rest, startaddr, pos, limit);
    next := AlignPos(curaddr, section.align);
    Assign(finalloc, finalsegloc, i, next, segoffset);
    pos' := AlignUp(pos, section.align) + section.size;
    next := next + section.size;
  }

  method Assign(finalloc: array<int>, finalsegloc: array<int>, i: nat, addr: int, segoffset: int)
    requires i < finalloc.Length == finalsegloc.Length && finalloc != finalsegloc
    modifies finalloc, finalsegloc
    ensures finalloc[..] == old(finalloc[..])[i := addr]
    ensures finalsegloc[..] == old(finalsegloc[..])[i := addr - segoffset]
  {
    finalloc[i] := addr;
    finalsegloc[i] := addr - segoffset;
  }

  lemma NextCuraddr(sections: seq<Section>, startaddr: int, pos: nat, limit: nat)
    requires Positive(sections) && AllUpTo(sections, limit) && limit > 0 && Multiple(startaddr, limit) && sections != []
    ensures AlignPos(startaddr + pos, sections[0].align) == startaddr + AlignUp(pos, sections[0].align)
  {
    SmallerMultiple(startaddr, sections[0].align, limit);
    AlignPosShift(startaddr, pos, sections[0].align);
  }
}
