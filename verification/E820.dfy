/** The e820 memory map of seabios/src/memmap.c: a sorted table of address ranges
    that `add_e820` updates in place. */
module E820 {
  import opened Basics

  const MAX_ENTRIES := 32
  const LIMIT := 0x1_0000_0000_0000_0000
  /** The type that removes a range instead of adding one. */
  const HOLE := 0xFFFF_FFFF

  datatype Entry = Entry(start: nat, size: nat, kind: nat)

  function End(e: Entry): nat {
    e.start + e.size
  }

  /** What INT 15h E820h reports for an address. */
  function TypeAt(es: seq<Entry>, a: nat): Option<nat>
    decreases es
  {
    if es == [] then None
    else if es[0].start <= a < End(es[0]) then Some(es[0].kind)
    else TypeAt(es[1..], a)
  }

  predicate Sound(e: Entry) {
    e.size > 0 && End(e) < LIMIT && e.kind != HOLE
  }

  /** `e` lies wholly before `f`, and is not a piece of the same range. */
  predicate Apart(e: Entry, f: Entry) {
    End(e) < f.start || (End(e) == f.start && e.kind != f.kind)
  }

  /** Sorted, disjoint, no empty entry, no two touching entries of one type. */
  predicate Tidy(es: seq<Entry>)
    decreases es
  {
    es == [] || (Sound(es[0]) && (|es| > 1 ==> Apart(es[0], es[1])) && Tidy(es[1..]))
  }

  /** Not only neighbours: every entry lies before every later one. */
  lemma {:induction false} TidyMeans(es: seq<Entry>, i: nat, j: nat)
    requires Tidy(es) && i < j < |es|
    ensures Sound(es[i]) && Sound(es[j]) && Apart(es[i], es[j])
    decreases es
  {
    if i > 0 {
      TidyMeans(es[1..], i - 1, j - 1);
    } else if j == 1 {
      assert es[1..][0] == es[1];
    } else {
      TidyMeans(es[1..], 0, j - 1);
    }
  }

  // ----------------------------------------------------------- what an update is

  /** The part of the map below an address, and the part from it on. */
  function Below(es: seq<Entry>, x: nat): seq<Entry>
    decreases es
  {
    if es == [] then []
    else if es[0].start >= x then []
    else if End(es[0]) <= x then [es[0]] + Below(es[1..], x)
    else [es[0].(size := x - es[0].start)]
  }

  function Above(es: seq<Entry>, x: nat): seq<Entry>
    decreases es
  {
    if es == [] then []
    else if End(es[0]) <= x then Above(es[1..], x)
    else if es[0].start >= x then es
    else [Entry(x, End(es[0]) - x, es[0].kind)] + es[1..]
  }

  predicate TouchesLeft(l: seq<Entry>, start: nat, kind: nat) {
    l != [] && End(l[|l| - 1]) == start && l[|l| - 1].kind == kind
  }

  predicate TouchesRight(r: seq<Entry>, end: nat, kind: nat) {
    r != [] && r[0].start == end && r[0].kind == kind
  }

  /** The new range between what is left of the map on either side, joined to a
      neighbour of its own type that it touches. */
  function Joined(l: seq<Entry>, start: nat, end: nat, kind: nat, r: seq<Entry>): (Entry, seq<Entry>, seq<Entry>)
    requires start < end
  {
    var left, right := TouchesLeft(l, start, kind), TouchesRight(r, end, kind);
    var s := if left then l[|l| - 1].start else start;
    var e := if right then End(r[0]) else end;
    (Entry(s, if e >= s then e - s else 0, kind),
     if left then l[..|l| - 1] else l,
     if right then r[1..] else r)
  }

  /** What `add_e820` makes of the map.  A full table drops an insertion: the piece
      split off behind the new range, the new range itself, or both. */
  function Updated(es: seq<Entry>, start: nat, end: nat, kind: nat, keptTail: bool, keptNew: bool): seq<Entry>
    requires start < end
  {
    var l, above := Below(es, start), Above(es, end);
    var r := if keptTail || above == [] then above else above[1..];
    var (e, l', r') := Joined(l, start, end, kind, r);
    if kind == HOLE || !keptNew then l' + r' else l' + [e] + r'
  }

  /** The update with room for everything. */
  function Ideal(es: seq<Entry>, start: nat, end: nat, kind: nat): seq<Entry>
    requires start < end
  {
    Updated(es, start, end, kind, true, true)
  }

  // --------------------------------------------------------- its two properties

  lemma {:induction false} NothingBefore(es: seq<Entry>, a: nat)
    requires Tidy(es) && (es != [] ==> a < es[0].start)
    ensures TypeAt(es, a) == None
    decreases es
  {
    if es != [] { NothingBefore(es[1..], a); }
  }

  lemma {:induction false} BelowIs(es: seq<Entry>, x: nat, a: nat)
    requires Tidy(es)
    ensures TypeAt(Below(es, x), a) == if a < x then TypeAt(es, a) else None
    decreases es
  {
    if es != [] {
      BelowIs(es[1..], x, a);
      if a < End(es[0]) { NothingBefore(es[1..], a); }
      if es[0].start >= x && a < es[0].start { NothingBefore(es, a); }
    }
  }

  lemma {:induction false} AboveIs(es: seq<Entry>, x: nat, a: nat)
    requires Tidy(es)
    ensures TypeAt(Above(es, x), a) == if a < x then None else TypeAt(es, a)
    decreases es
  {
    if es != [] {
      if End(es[0]) <= x {
        AboveIs(es[1..], x, a);
      } else {
        if a < End(es[0]) { NothingBefore(es[1..], a); }
        if es[0].start >= x && a < x { NothingBefore(es, a); }
      }
    }
  }

  lemma {:induction false} BelowTidy(es: seq<Entry>, x: nat)
    requires Tidy(es)
    ensures Tidy(Below(es, x))
    ensures Below(es, x) != [] ==>
            es != [] && Below(es, x)[0].start == es[0].start && Below(es, x)[0].kind == es[0].kind
    ensures forall i | 0 <= i < |Below(es, x)| :: End(Below(es, x)[i]) <= x
    decreases es
  {
    if es != [] {
      BelowTidy(es[1..], x);
      var b := Below(es, x);
      if b != [] { assert b[1..] == if End(es[0]) <= x then Below(es[1..], x) else []; }
    }
  }

  lemma {:induction false} AboveTidy(es: seq<Entry>, x: nat)
    requires Tidy(es)
    ensures Tidy(Above(es, x))
    ensures Above(es, x) != [] ==> Above(es, x)[0].start >= x
    decreases es
  {
    if es != [] {
      if End(es[0]) <= x {
        AboveTidy(es[1..], x);
      } else if es[0].start < x {
        assert Above(es, x)[1..] == es[1..];
      }
    }
  }

  lemma {:induction false} TypeOfJoin(l: seq<Entry>, r: seq<Entry>, a: nat)
    ensures TypeAt(l + r, a) == if TypeAt(l, a).Some? then TypeAt(l, a) else TypeAt(r, a)
    decreases l
  {
    if l == [] {
      assert l + r == r;
    } else {
      assert (l + r)[1..] == l[1..] + r;
      TypeOfJoin(l[1..], r, a);
    }
  }

  lemma {:induction false} TidyJoin(l: seq<Entry>, r: seq<Entry>)
    requires Tidy(l) && Tidy(r) && (l == [] || r == [] || Apart(l[|l| - 1], r[0]))
    ensures Tidy(l + r)
    decreases l
  {
    if l == [] {
      assert l + r == r;
    } else {
      assert (l + r)[1..] == l[1..] + r;
      if |l| > 1 { assert l[1..][|l| - 2] == l[|l| - 1]; }
      TidyJoin(l[1..], r);
    }
  }

  lemma {:induction false} TidyParts(es: seq<Entry>, k: nat)
    requires Tidy(es) && k <= |es|
    ensures Tidy(es[..k]) && Tidy(es[k..])
    ensures 0 < k < |es| ==> Apart(es[k - 1], es[k])
    decreases es
  {
    if es != [] && k > 0 {
      TidyParts(es[1..], k - 1);
      assert es[..k][1..] == es[1..][..k - 1] && es[1..][k - 1..] == es[k..];
      if k == 1 { assert es[..1][1..] == []; }
    }
  }

  lemma NoHoles(es: seq<Entry>, k: nat)
    requires Tidy(es) && k < |es|
    ensures Sound(es[k])
  {
    TidyParts(es, k);
    assert es[k..][0] == es[k];
  }

  lemma JoinedIsTidy(l: seq<Entry>, start: nat, end: nat, kind: nat, r: seq<Entry>)
    requires Tidy(l) && Tidy(r) && start < end < LIMIT
    requires (forall i | 0 <= i < |l| :: End(l[i]) <= start) && (r != [] ==> r[0].start >= end)
    ensures var (e, l', r') := Joined(l, start, end, kind, r);
            && Tidy(l' + r')
            && (kind != HOLE ==> Tidy(l' + [e] + r'))
  {
    var (e, l', r') := Joined(l, start, end, kind, r);
    LeftOfJoined(l, start, end, kind, r);
    RightOfJoined(l, start, end, kind, r);
    hide Joined, Tidy;
    if l' != [] && r' != [] { ApartOver(l'[|l'| - 1], start, end, r'[0]); }
    TidyJoin(l', r');
    if kind != HOLE {
      TidyJoin(l', [e]);
      TidyJoin(l' + [e], r');
    }
  }

  /** What is left below a range and above it is apart. */
  lemma ApartOver(f: Entry, start: nat, end: nat, g: Entry)
    requires End(f) <= start < end <= g.start
    ensures Apart(f, g)
  {
  }

  lemma LeftOfJoined(l: seq<Entry>, start: nat, end: nat, kind: nat, r: seq<Entry>)
    requires Tidy(l) && start < end && forall i | 0 <= i < |l| :: End(l[i]) <= start
    ensures var (e, l', r') := Joined(l, start, end, kind, r);
            && Tidy(l') && e.start <= start && e.kind == kind
            && (l' != [] ==> End(l'[|l'| - 1]) <= start && Apart(l'[|l'| - 1], e))
  {
    if l != [] {
      TidyParts(l, |l| - 1);
      NoHoles(l, |l| - 1);
    }
  }

  lemma RightOfJoined(l: seq<Entry>, start: nat, end: nat, kind: nat, r: seq<Entry>)
    requires Tidy(r) && start < end < LIMIT && (forall i | 0 <= i < |l| :: End(l[i]) <= start)
    requires r != [] ==> r[0].start >= end
    ensures var (e, l', r') := Joined(l, start, end, kind, r);
            && Tidy(r') && (kind != HOLE ==> Sound(e) && Tidy([e]))
            && (r' != [] ==> r'[0].start >= end && Apart(e, r'[0]))
  {
    if r != [] {
      TidyParts(r, 1);
      NoHoles(r, 0);
    }
  }

  /** Joining neighbours changes no address's type. */
  lemma JoinedTypes(l: seq<Entry>, start: nat, end: nat, kind: nat, r: seq<Entry>, a: nat)
    requires Tidy(l) && Tidy(r) && start < end
    requires (forall i | 0 <= i < |l| :: End(l[i]) <= start) && (r != [] ==> r[0].start >= end)
    ensures var (e, l', r') := Joined(l, start, end, kind, r);
            && TypeAt(l' + [e] + r', a) == (if start <= a < end then Some(kind) else TypeAt(l + r, a))
            && (TypeAt(l' + r', a) == TypeAt(l + r, a) || TypeAt(l' + r', a) == None)
            && (start <= a < end ==> TypeAt(l' + r', a) == None)
  {
    var (e, l', r') := Joined(l, start, end, kind, r);
    hide TypeAt, Tidy;
    TypeOfJoin(l, r, a);
    TypeOfJoin(l', r', a);
    TypeOfJoin(l' + [e], r', a);
    TypeOfJoin(l', [e], a);
    TypeOfOne(e, a);
    if TouchesLeft(l, start, kind) {
      assert l == l' + [l[|l| - 1]];
      TypeOfJoin(l', [l[|l| - 1]], a);
      TypeOfOne(l[|l| - 1], a);
    }
    if a >= start {
      TypeBeyond(l, start, a);
      TypeBeyond(l', start, a);
    }
    if r != [] {
      TypeOfFirst(r, a);
      if a < r[0].start { NothingBefore(r, a); }
      TidyParts(r, 1);
      TailStarts(r);
      if a < End(r[0]) { NothingBefore(r[1..], a); }
    }
  }

  lemma TypeOfOne(e: Entry, a: nat)
    ensures TypeAt([e], a) == if e.start <= a < End(e) then Some(e.kind) else None
  {
    assert [e][1..] == [];
  }

  lemma TypeOfFirst(es: seq<Entry>, a: nat)
    requires es != []
    ensures TypeAt(es, a) == if es[0].start <= a < End(es[0]) then Some(es[0].kind) else TypeAt(es[1..], a)
  {
  }

  lemma TailStarts(es: seq<Entry>)
    requires Tidy(es) && es != []
    ensures |es| > 1 ==> End(es[0]) <= es[1].start
    ensures End(es[0]) > es[0].start
  {
  }

  lemma {:induction false} TypeBeyond(l: seq<Entry>, x: nat, a: nat)
    requires (forall i | 0 <= i < |l| :: End(l[i]) <= x) && x <= a
    ensures TypeAt(l, a) == None
    decreases l
  {
    if l != [] { TypeBeyond(l[1..], x, a); }
  }

  lemma Sides(es: seq<Entry>, start: nat, end: nat, keptTail: bool, a: nat)
    requires Tidy(es) && start < end
    ensures var l, above := Below(es, start), Above(es, end);
            var r := if keptTail || above == [] then above else above[1..];
            && Tidy(l) && Tidy(r)
            && (forall i | 0 <= i < |l| :: End(l[i]) <= start) && (r != [] ==> r[0].start >= end)
            && (TypeAt(l + r, a) == None || (!(start <= a < end) && TypeAt(l + r, a) == TypeAt(es, a)))
            && (keptTail && !(start <= a < end) ==> TypeAt(l + r, a) == TypeAt(es, a))
  {
    var l, above := Below(es, start), Above(es, end);
    var r := if keptTail || above == [] then above else above[1..];
    BelowIs(es, start, a);
    AboveIs(es, end, a);
    BelowTidy(es, start);
    AboveTidy(es, end);
    TypeOfJoin(l, r, a);
    if !keptTail && above != [] {
      TidyParts(above, 1);
      if a < End(above[0]) { NothingBefore(above[1..], a); }
    }
  }

  /** The type an address should have after the update: the new one in the new range
      (none for a hole), its old one elsewhere. */
  function Wanted(es: seq<Entry>, start: nat, end: nat, kind: nat, a: nat): Option<nat> {
    if start <= a < end then (if kind == HOLE then None else Some(kind)) else TypeAt(es, a)
  }

  ghost predicate Reports(view: seq<Entry>, es: seq<Entry>, start: nat, end: nat, kind: nat) {
    forall a: nat :: TypeAt(view, a) == Wanted(es, start, end, kind, a)
  }

  /** With nothing dropped, every address has the type it should have. */
  lemma UpdatedTypes(es: seq<Entry>, start: nat, end: nat, kind: nat, a: nat)
    requires Tidy(es) && start < end
    ensures TypeAt(Ideal(es, start, end, kind), a) == Wanted(es, start, end, kind, a)
  {
    Sides(es, start, end, true, a);
    JoinedTypes(Below(es, start), start, end, kind, Above(es, end), a);
    if kind == HOLE {
      NoHoleTouches(Below(es, start), start, Above(es, end), end);
    }
  }

  lemma NoHoleTouches(l: seq<Entry>, start: nat, r: seq<Entry>, end: nat)
    requires Tidy(l) && Tidy(r)
    ensures !TouchesLeft(l, start, HOLE) && !TouchesRight(r, end, HOLE)
  {
    if l != [] { NoHoles(l, |l| - 1); }
    if r != [] { NoHoles(r, 0); }
  }

  /** Even a full table never lies: whatever is dropped, no address is listed with
      another type than its true one. */
  lemma UpdatedIsHonest(es: seq<Entry>, start: nat, end: nat, kind: nat, keptTail: bool, keptNew: bool, a: nat)
    requires Tidy(es) && start < end
    ensures var t := TypeAt(Updated(es, start, end, kind, keptTail, keptNew), a);
            t == None || t == TypeAt(Updated(es, start, end, kind, true, true), a)
  {
    UpdatedTypes(es, start, end, kind, a);
    Sides(es, start, end, keptTail, a);
    var l, above := Below(es, start), Above(es, end);
    var r := if keptTail || above == [] then above else above[1..];
    JoinedTypes(l, start, end, kind, r, a);
  }

  /** And whatever is dropped, the table stays sorted, disjoint and joined. */
  lemma UpdatedTidy(es: seq<Entry>, start: nat, end: nat, kind: nat, keptTail: bool, keptNew: bool)
    requires Tidy(es) && start < end < LIMIT
    ensures Tidy(Updated(es, start, end, kind, keptTail, keptNew))
  {
    Sides(es, start, end, keptTail, 0);
    var l, above := Below(es, start), Above(es, end);
    JoinedIsTidy(l, start, end, kind, if keptTail || above == [] then above else above[1..]);
  }

  // ------------------------------------------------- what a full table loses

  /** The clipped entry below the new range, if one of its type touches it. */
  lemma {:induction false} LeftTouch(es: seq<Entry>, start: nat, kind: nat, i: nat)
    requires Tidy(es)
    ensures TouchesLeft(Below(es, start), start, kind) ==>
              exists j :: 0 <= j < |es| && es[j].kind == kind && es[j].start < start <= End(es[j])
    ensures i < |es| && es[i].kind == kind && es[i].start < start <= End(es[i]) ==>
              var l := Below(es, start); TouchesLeft(l, start, kind) && l[|l| - 1].start == es[i].start
    decreases es
  {
    if es != [] {
      LeftTouch(es[1..], start, kind, if i > 0 then i - 1 else 0);
      var l, m := Below(es, start), Below(es[1..], start);
      if |es| > 1 { assert es[1..][0] == es[1]; }
      if es[0].start < start && End(es[0]) <= start {
        assert l == [es[0]] + m;
        if m == [] {
          assert l[|l| - 1] == es[0];
        } else {
          assert l[|l| - 1] == m[|m| - 1];
          if TouchesLeft(m, start, kind) {
            var j :| 0 <= j < |es[1..]| && es[1..][j].kind == kind && es[1..][j].start < start <= End(es[1..][j]);
            assert es[j + 1] == es[1..][j];
          }
        }
      }
      if 0 < i < |es| { TidyMeans(es, 0, i); }
    }
  }

  lemma {:induction false} RightTouch(es: seq<Entry>, end: nat, kind: nat, i: nat)
    requires Tidy(es)
    ensures TouchesRight(Above(es, end), end, kind) ==>
              exists j :: 0 <= j < |es| && es[j].kind == kind && es[j].start <= end < End(es[j])
    ensures i < |es| && es[i].kind == kind && es[i].start <= end < End(es[i]) ==>
              var r := Above(es, end); TouchesRight(r, end, kind) && End(r[0]) == End(es[i])
    decreases es
  {
    if es != [] {
      RightTouch(es[1..], end, kind, if i > 0 then i - 1 else 0);
      if End(es[0]) <= end {
        if TouchesRight(Above(es[1..], end), end, kind) {
          var j :| 0 <= j < |es[1..]| && es[1..][j].kind == kind && es[1..][j].start <= end < End(es[1..][j]);
          assert es[j + 1] == es[1..][j];
        }
      }
      if 0 < i < |es| { TidyMeans(es, 0, i); }
    }
  }

  /** Entry `i` reaches into, or just up to, the new range, and is of its type. */
  predicate Meets(es: seq<Entry>, i: int, start: nat, end: nat, kind: nat) {
    0 <= i < |es| && es[i].kind == kind && es[i].start <= end && start <= End(es[i])
  }

  /** Entry `i` is of another type and reaches beyond the new range on both sides. */
  predicate Spans(es: seq<Entry>, i: int, start: nat, end: nat, kind: nat) {
    0 <= i < |es| && es[i].kind != kind && es[i].start < start && end < End(es[i])
  }

  lemma {:induction false} AboveInside(es: seq<Entry>, end: nat, i: nat)
    requires Tidy(es) && i < |es| && es[i].start < end < End(es[i])
    ensures Above(es, end) != [] && Above(es, end)[0] == Entry(end, End(es[i]) - end, es[i].kind)
    decreases es
  {
    if i > 0 {
      TidyMeans(es, 0, i);
      AboveInside(es[1..], end, i - 1);
    }
  }

  /** The range of the joined entry: the new range and the entries that meet it. */
  lemma JoinedRange(es: seq<Entry>, start: nat, end: nat, kind: nat, a: nat)
    requires Tidy(es) && start < end
    ensures var e := Joined(Below(es, start), start, end, kind, Above(es, end)).0;
            e.start <= a < End(e) <==>
            start <= a < end || exists i :: Meets(es, i, start, end, kind) && es[i].start <= a < End(es[i])
  {
    var l, r := Below(es, start), Above(es, end);
    BelowTidy(es, start);
    AboveTidy(es, end);
    LeftTouch(es, start, kind, |es|);
    RightTouch(es, end, kind, |es|);
    if TouchesLeft(l, start, kind) {
      var j :| 0 <= j < |es| && es[j].kind == kind && es[j].start < start <= End(es[j]);
      LeftTouch(es, start, kind, j);
      assert Meets(es, j, start, end, kind);
    }
    if TouchesRight(r, end, kind) {
      var j :| 0 <= j < |es| && es[j].kind == kind && es[j].start <= end < End(es[j]);
      RightTouch(es, end, kind, j);
      assert Meets(es, j, start, end, kind);
    }
    forall i | Meets(es, i, start, end, kind) && es[i].start <= a < End(es[i]) && !(start <= a < end)
      ensures a < start ==> TouchesLeft(l, start, kind) && l[|l| - 1].start == es[i].start
      ensures a >= end ==> TouchesRight(r, end, kind) && End(r[0]) == End(es[i])
    {
      LeftTouch(es, start, kind, i);
      RightTouch(es, end, kind, i);
    }
  }

  /** Without the joined entry its range has no type. */
  lemma JoinedLoses(l: seq<Entry>, start: nat, end: nat, kind: nat, r: seq<Entry>, a: nat)
    requires Tidy(l) && Tidy(r) && start < end
    requires (forall i | 0 <= i < |l| :: End(l[i]) <= start) && (r != [] ==> r[0].start >= end)
    ensures var (e, l', r') := Joined(l, start, end, kind, r);
            TypeAt(l' + r', a) == if e.start <= a < End(e) then None else TypeAt(l + r, a)
  {
    var (e, l', r') := Joined(l, start, end, kind, r);
    JoinedTypes(l, start, end, kind, r, a);
    hide TypeAt;
    TypeOfJoin(l' + [e], r', a);
    TypeOfJoin(l', [e], a);
    TypeOfJoin(l', r', a);
    TypeOfOne(e, a);
    if e.start <= a < End(e) {
      if |l| > 0 {
        forall i | 0 <= i < |l'|
          ensures End(l'[i]) <= e.start
        {
          if |l'| < |l| { TidyMeans(l, i, |l| - 1); }
        }
      }
      TypeBeyond(l', e.start, a);
      if r' != [] { RightOfEntry(r, end, a, End(e), |r'| < |r|); }
    }
  }

  lemma RightOfEntry(r: seq<Entry>, end: nat, a: nat, newEnd: nat, joined: bool)
    requires Tidy(r) && r != [] && r[0].start >= end && a < newEnd
    requires newEnd == if joined then End(r[0]) else end
    ensures TypeAt(if joined then r[1..] else r, a) == None
  {
    TidyParts(r, 1);
    TailStarts(r);
    NothingBefore(if joined then r[1..] else r, a);
  }

  /** What is left of the map on either side. */
  lemma SidesAre(es: seq<Entry>, start: nat, end: nat, keptTail: bool, a: nat)
    requires Tidy(es) && start < end
    ensures var above := Above(es, end);
            var r := if keptTail || above == [] then above else above[1..];
            TypeAt(Below(es, start) + r, a) ==
            if start <= a < end || (!keptTail && above != [] && above[0].start <= a < End(above[0])) then None
            else TypeAt(es, a)
  {
    var l, above := Below(es, start), Above(es, end);
    var r := if keptTail || above == [] then above else above[1..];
    BelowIs(es, start, a);
    AboveIs(es, end, a);
    AboveTidy(es, end);
    TypeOfJoin(l, r, a);
    if !keptTail && above != [] {
      TidyParts(above, 1);
      TailStarts(above);
      if a < End(above[0]) { NothingBefore(above[1..], a); }
    }
  }

  /** An entry that spans the new range leaves nothing for it to meet. */
  lemma SpannedMeetsNone(es: seq<Entry>, start: nat, end: nat, kind: nat, j: int, i: int)
    requires Tidy(es) && start < end && Spans(es, j, start, end, kind)
    ensures !Meets(es, i, start, end, kind)
    ensures Spans(es, i, start, end, kind) ==> i == j
  {
    if Meets(es, i, start, end, kind) || Spans(es, i, start, end, kind) {
      if i < j { TidyMeans(es, i, j); }
      if j < i { TidyMeans(es, j, i); }
    }
  }

  /** The exact outcome, for every address.  A full table loses what lies behind the new
      range of an entry that spans it; and with the new entry, its range and that of the
      entries it meets. */
  lemma UpdatedExactly(es: seq<Entry>, start: nat, end: nat, kind: nat, keptTail: bool, keptNew: bool, a: nat)
    requires Tidy(es) && start < end
    requires (keptNew || kind != HOLE) && (keptTail || exists i :: Spans(es, i, start, end, kind))
    ensures TypeAt(Updated(es, start, end, kind, keptTail, keptNew), a) ==
            if !keptTail && exists i :: Spans(es, i, start, end, kind) && end <= a < End(es[i]) then None
            else if !keptNew && exists i :: Meets(es, i, start, end, kind) && es[i].start <= a < End(es[i]) then None
            else if start <= a < end then (if keptNew && kind != HOLE then Some(kind) else None)
            else TypeAt(es, a)
  {
    var l, above := Below(es, start), Above(es, end);
    var r := if keptTail || above == [] then above else above[1..];
    Sides(es, start, end, keptTail, a);
    SidesAre(es, start, end, keptTail, a);
    JoinedTypes(l, start, end, kind, r, a);
    JoinedLoses(l, start, end, kind, r, a);
    if kind == HOLE { NoHoleTouches(l, start, r, end); }
    if keptTail {
      JoinedRange(es, start, end, kind, a);
    } else {
      var j :| Spans(es, j, start, end, kind);
      SpannedAlone(es, start, end, kind, j);
      forall i
        ensures !Meets(es, i, start, end, kind)
        ensures Spans(es, i, start, end, kind) ==> i == j
      {
        SpannedMeetsNone(es, start, end, kind, j, i);
      }
    }
  }

  lemma SpannedAlone(es: seq<Entry>, start: nat, end: nat, kind: nat, j: int)
    requires Tidy(es) && start < end && Spans(es, j, start, end, kind)
    ensures Above(es, end) != []
    ensures Above(es, end)[0].start == end && End(Above(es, end)[0]) == End(es[j])
    ensures !TouchesLeft(Below(es, start), start, kind) && !TouchesRight(Above(es, end)[1..], end, kind)
  {
    AboveInside(es, end, j);
    AboveTidy(es, end);
    TailStarts(Above(es, end));
    LeftTouch(es, start, kind, 0);
    if TouchesLeft(Below(es, start), start, kind) {
      var i :| 0 <= i < |es| && es[i].kind == kind && es[i].start < start <= End(es[i]);
      assert Meets(es, i, start, end, kind);
      SpannedMeetsNone(es, start, end, kind, j, i);
    }
  }

  ghost predicate SameTypes(a: seq<Entry>, b: seq<Entry>) {
    forall x: nat :: TypeAt(a, x) == TypeAt(b, x)
  }

  /** A tidy table is the only tidy table that reports what it reports, so the two
      lemmas above leave no choice of entries to an update that drops nothing. */
  lemma {:induction false} TidyIsCanonical(a: seq<Entry>, b: seq<Entry>)
    requires Tidy(a) && Tidy(b) && SameTypes(a, b)
    ensures a == b
    decreases a
  {
    var x := if a != [] then a[0].start else if b != [] then b[0].start else 0;
    assert TypeAt(a, x) == TypeAt(b, x);
    if a != [] && b != [] {
      FirstReaches(a, b);
      FirstReaches(b, a);
      assert End(a[0]) == End(b[0]);
      assert SameTypes(a[1..], b[1..]) by {
        forall x: nat ensures TypeAt(a[1..], x) == TypeAt(b[1..], x) {
          assert TypeAt(a, x) == TypeAt(b, x);
          if x < End(a[0]) {
            NothingBefore(a[1..], x);
            NothingBefore(b[1..], x);
          }
        }
      }
      TidyIsCanonical(a[1..], b[1..]);
      assert a == [a[0]] + a[1..] && b == [b[0]] + b[1..];
    }
  }

  /** So a table reports the updated types exactly when it is the ideal map. */
  lemma OnlyIdealReports(es: seq<Entry>, start: nat, end: nat, kind: nat, view: seq<Entry>)
    requires Tidy(es) && start < end < LIMIT && Tidy(view)
    ensures Reports(view, es, start, end, kind) <==> view == Ideal(es, start, end, kind)
  {
    var ideal := Ideal(es, start, end, kind);
    UpdatedTidy(es, start, end, kind, true, true);
    forall a: nat
      ensures TypeAt(ideal, a) == Wanted(es, start, end, kind, a)
    {
      UpdatedTypes(es, start, end, kind, a);
    }
    if Reports(view, es, start, end, kind) {
      forall a: nat
        ensures TypeAt(view, a) == TypeAt(ideal, a)
      {
        UpdatedTypes(es, start, end, kind, a);
      }
      TidyIsCanonical(view, ideal);
    }
  }

  lemma FirstReaches(a: seq<Entry>, b: seq<Entry>)
    requires Tidy(a) && Tidy(b) && SameTypes(a, b) && a != [] && b != []
    ensures b[0].start <= a[0].start
    ensures a[0].start == b[0].start ==> a[0].kind == b[0].kind && End(a[0]) <= End(b[0])
  {
    assert TypeAt(a, a[0].start) == TypeAt(b, a[0].start);
    assert TypeAt(a, End(b[0])) == TypeAt(b, End(b[0]));
    if a[0].start < b[0].start { NothingBefore(b, a[0].start); }
    TypeChangesAfter(b);
  }

  lemma TypeChangesAfter(b: seq<Entry>)
    requires Tidy(b) && b != []
    ensures TypeAt(b, End(b[0])) != Some(b[0].kind)
  {
    var t := b[1..];
    if t != [] {
      assert t[0] == b[1];
      if End(b[0]) < t[0].start { NothingBefore(t, End(b[0])); }
    }
  }

  /** Where the first loop stops, an entry that spans the new range is found at once. */
  lemma SpanIsFirst(es: seq<Entry>, i: nat, start: nat, end: nat, kind: nat, j: int)
    requires Tidy(es) && i <= |es| && start < end && forall k | 0 <= k < i :: End(es[k]) < start
    requires i < |es| ==> start <= End(es[i])
    ensures Spans(es, j, start, end, kind) ==> j == i
  {
    if Spans(es, j, start, end, kind) && i < j { TidyMeans(es, i, j); }
  }

  // ------------------------------------------------------------ the table itself

  lemma {:induction false} SkipLower(es: seq<Entry>, k: nat, start: nat, end: nat)
    requires k <= |es| && start < end && forall i | 0 <= i < k :: es[i].start < start && End(es[i]) < start
    ensures Below(es, start) == es[..k] + Below(es[k..], start)
    ensures Above(es, end) == Above(es[k..], end)
    decreases k
  {
    if k > 0 {
      SkipLower(es[1..], k - 1, start, end);
      assert Below(es, start) == [es[0]] + Below(es[1..], start) && Above(es, end) == Above(es[1..], end);
      hide Below, Above;
      assert es[1..][k - 1..] == es[k..] && es[..k] == [es[0]] + es[1..][..k - 1];
    } else {
      assert es[0..] == es;
    }
  }

  class Map {
    const list: array<Entry>
    var count: nat

    constructor ()
      ensures fresh(list) && Shaped() && View() == []
    {
      list := new Entry[MAX_ENTRIES](i => Entry(0, 0, 0));
      count := 0;
    }

    ghost predicate Shaped()
      reads this
    {
      list.Length == MAX_ENTRIES && count <= MAX_ENTRIES
    }

    ghost function View(): seq<Entry>
      reads this, list
      requires Shaped()
    {
      list[..count]
    }

    /** `remove_e820`. */
    method Remove(i: nat)
      requires Shaped() && i < count
      modifies this, list
      ensures Shaped() && View() == old(View())[..i] + old(View())[i + 1..]
    {
      count := count - 1;
      forall j | i <= j < count {
        list[j] := list[j + 1];
      }
    }

    /** `insert_e820`, which refuses when the table is full. */
    method Insert(i: nat, e: Entry)
      requires Shaped() && i <= count
      modifies this, list
      ensures Shaped()
      ensures View() == if old(count) < MAX_ENTRIES then old(View())[..i] + [e] + old(View())[i..] else old(View())
    {
      if count >= MAX_ENTRIES {
        return;
      }
      forall j | i < j <= count {
        list[j] := list[j - 1];
      }
      count := count + 1;
      list[i] := e;
    }

    /** The first loop: the first entry that reaches up to the new range. */
    method Find(start: nat) returns (i: nat)
      requires Shaped()
      ensures i <= count && forall j | 0 <= j < i :: End(list[j]) < start
      ensures i < count ==> start <= End(list[i])
    {
      i := 0;
      while i < count && start > End(list[i])
        invariant i <= count && forall j | 0 <= j < i :: End(list[j]) < start
      {
        i := i + 1;
      }
    }

    /** The rest of the first loop's body: a straddling entry is joined, or split when
        its type is another.  Left of position `i` the table is then settled. */
    method Locate(start: nat, end: nat, kind: nat) returns (i: nat, newStart: nat, keptTail: bool)
      requires Shaped() && Tidy(View()) && start < end
      modifies this, list
      ensures Shaped() && i <= count <= old(count) + 1 && newStart <= start
      ensures keptTail || (old(count) >= MAX_ENTRIES && |Ideal(old(View()), start, end, kind)| > old(count))
      ensures keptTail <==>
              old(count) < MAX_ENTRIES || forall j :: !Spans(old(View()), j, start, end, kind)
      ensures Located(old(View()), start, end, kind, keptTail, newStart, View()[..i], View()[i..])
    {
      ghost var es := View();
      newStart, keptTail := start, true;
      i := Find(start);
      assert forall j | 0 <= j < i :: es[j] == list[j];
      forall j
        ensures Spans(es, j, start, end, kind) ==> j == i
      {
        SpanIsFirst(es, i, start, end, kind, j);
      }
      if i >= count || start <= list[i].start {
        LocatedBeside(es, i, start, end, kind);
        return;
      }
      var e := list[i];
      if kind == e.kind {
        newStart := e.start;
        LocatedJoined(es, i, start, end, kind);
        return;
      }
      assert Spans(es, i, start, end, kind) <==> End(es[i]) > end;
      keptTail := SplitOther(es, i, start, end, kind);
      i := i + 1;
    }

    /** A straddling entry of another type. */
    method SplitOther(ghost es: seq<Entry>, i: nat, start: nat, end: nat, kind: nat) returns (keptTail: bool)
      requires Shaped() && es == View() && Tidy(es) && i < count && start < end
      requires es[i].start < start <= End(es[i]) && es[i].kind != kind && forall j | 0 <= j < i :: End(es[j]) < start
      modifies this, list
      ensures Shaped() && i + 1 <= count <= old(count) + 1
      ensures keptTail || (old(count) >= MAX_ENTRIES && |Ideal(es, start, end, kind)| > old(count))
      ensures keptTail <==> old(count) < MAX_ENTRIES || End(es[i]) <= end
      ensures Located(es, start, end, kind, keptTail, start, View()[..i + 1], View()[i + 1..])
    {
      keptTail := Split(i, start, end);
      LocatedSplit(es, i, start, end, kind, keptTail);
    }

    /** Cuts entry `i` off at `start` and puts what it had behind `end` after it. */
    method Split(i: nat, start: nat, end: nat) returns (keptTail: bool)
      requires Shaped() && i < count && list[i].start < start <= End(list[i])
      modifies this, list
      ensures Shaped() && i + 1 <= count <= old(count) + 1
      ensures keptTail <==> old(count) < MAX_ENTRIES || End(old(list[i])) <= end
      ensures var es := old(View());
              && View()[..i + 1] == es[..i] + [es[i].(size := start - es[i].start)]
              && View()[i + 1..] == AfterSplit(es, i, end, keptTail)
    {
      var e := list[i];
      ghost var es := View();
      list[i] := e.(size := start - e.start);
      ghost var v := View();
      assert v == es[i := list[i]];
      OneReplaced(es, i, list[i]);
      keptTail := true;
      if End(e) > end {
        keptTail := count < MAX_ENTRIES;
        Insert(i + 1, Entry(end, End(e) - end, e.kind));
        if keptTail {
          assert View()[..i + 1] == v[..i + 1];
        }
      }
    }

    /** The second loop: entries the new range covers go, the one it ends in is cut
        off from the left, and joined when it is of the same type. */
    method Absorb(i: nat, end: nat, kind: nat) returns (newEnd: nat)
      requires Shaped() && i <= count && Tidy(View()[i..])
      modifies this, list
      ensures Shaped() && i <= count <= old(count)
      ensures View()[..i] == old(View())[..i]
      ensures var r := Above(old(View())[i..], end);
              if TouchesRight(r, end, kind) then newEnd == End(r[0]) && View()[i..] == r[1..]
              else newEnd == end && View()[i..] == r
    {
      newEnd := end;
      ghost var p, r := View()[..i], Above(View()[i..], end);
      while i < count && End(list[i]) <= end
        invariant Shaped() && i <= count <= old(count)
        invariant View()[..i] == p && Above(View()[i..], end) == r && Tidy(View()[i..])
        decreases count
      {
        assert View()[i..][0] == list[i];
        ghost var v := View();
        Remove(i);
        assert View()[..i] == v[..i] && View()[i..] == v[i..][1..];
      }
      if i < count && end >= list[i].start {
        newEnd := TrimFirst(i, end, kind);
      } else if i < count {
        assert View()[i..][0] == list[i];
      }
    }

    method TrimFirst(i: nat, end: nat, kind: nat) returns (newEnd: nat)
      requires Shaped() && i < count && list[i].start <= end < End(list[i])
      modifies this, list
      ensures Shaped() && i <= count <= old(count)
      ensures View()[..i] == old(View())[..i]
      ensures var r := Above(old(View())[i..], end);
              if TouchesRight(r, end, kind) then newEnd == End(r[0]) && View()[i..] == r[1..]
              else newEnd == end && View()[i..] == r
    {
      ghost var v := View();
      var e := list[i];
      newEnd := end;
      assert v[i..][0] == e && v[i..][1..] == v[i + 1..];
      list[i] := Entry(end, End(e) - end, e.kind);
      assert View()[i..] == [list[i]] + v[i + 1..] && View()[..i] == v[..i];
      ghost var w := View();
      if kind == e.kind {
        newEnd := End(e);
        Remove(i);
        assert View()[i..] == w[i + 1..] && View()[..i] == w[..i];
      }
    }

    /** The second loop and the final insertion, from a table that is settled below
        position `i`. */
    method Place(ghost es: seq<Entry>, start: nat, end: nat, kind: nat, ghost keptTail: bool, i: nat, newStart: nat)
      returns (ghost keptNew: bool)
      requires Shaped() && i <= count && Tidy(es) && start < end
      requires Located(es, start, end, kind, keptTail, newStart, View()[..i], View()[i..])
      modifies this, list
      ensures Shaped() && View() == Updated(es, start, end, kind, keptTail, keptNew)
      ensures keptNew || (kind != HOLE && count == MAX_ENTRIES && old(count) >= MAX_ENTRIES)
      ensures keptNew <==> kind == HOLE || |Updated(es, start, end, kind, keptTail, true)| <= MAX_ENTRIES
      ensures keptTail ==> (keptNew <==> |Ideal(es, start, end, kind)| <= MAX_ENTRIES)
    {
      ghost var p, q := View()[..i], View()[i..];
      var newEnd := Absorb(i, end, kind);
      ghost var w := View();
      keptNew := kind == HOLE || count < MAX_ENTRIES;
      Assembled(es, start, end, kind, keptTail, newStart, newEnd, p, q, w[i..], keptNew);
      Assembled(es, start, end, kind, keptTail, newStart, newEnd, p, q, w[i..], true);
      assert w == w[..i] + w[i..];
      if kind != HOLE {
        Insert(i, Entry(newStart, newEnd - newStart, kind));
      }
    }

    /** `add_e820`. */
    method Add(start: nat, size: nat, kind: nat) returns (ghost keptTail: bool, ghost keptNew: bool)
      requires Shaped() && Tidy(View()) && start + size < LIMIT
      modifies this, list
      ensures Shaped() && Tidy(View())
      ensures size == 0 ==> View() == old(View())
      ensures size > 0 ==> View() == Updated(old(View()), start, start + size, kind, keptTail, keptNew)
      ensures size > 0 ==> (keptTail && keptNew <==> |Ideal(old(View()), start, start + size, kind)| <= MAX_ENTRIES)
      ensures size > 0 ==> (Reports(View(), old(View()), start, start + size, kind)
                            <==> |Ideal(old(View()), start, start + size, kind)| <= MAX_ENTRIES)
      ensures size > 0 ==>
                var es, end := old(View()), start + size;
                && (keptTail <==> |es| < 32 || forall i | 0 <= i < |es| ::
                      es[i].kind == kind || start <= es[i].start || es[i].start + es[i].size <= end)
                && (!keptTail ==> (keptNew <==> kind == 0xFFFF_FFFF))
                && (kind == 0xFFFF_FFFF ==> keptNew)
      ensures size > 0 ==>
                var es, end := old(View()), start + size;
                forall a: nat ::
                  TypeAt(View(), a) ==
                  if !keptTail && exists i | 0 <= i < |es| ::
                       es[i].kind != kind && es[i].start < start && end <= a < es[i].start + es[i].size then None
                  else if !keptNew && exists i | 0 <= i < |es| ::
                            && es[i].kind == kind && es[i].start <= end && start <= es[i].start + es[i].size
                            && es[i].start <= a < es[i].start + es[i].size then None
                  else if start <= a < end then (if keptNew && kind != 0xFFFF_FFFF then Some(kind) else None)
                  else TypeAt(es, a)
      ensures old(count) <= MAX_ENTRIES - 2 ==> keptTail && keptNew
    {
      hide Tidy, Updated, Reports, TypeAt, Located, Spans, Meets;
      keptTail, keptNew := true, true;
      if size == 0 {
        return;
      }
      var end := start + size;
      ghost var es := View();
      var i, newStart, kept := Locate(start, end, kind);
      keptTail := kept;
      keptNew := Place(es, start, end, kind, keptTail, i, newStart);
      AddedExactly(es, start, end, kind, keptTail, keptNew);
      UpdatedTidy(es, start, end, kind, keptTail, keptNew);
      OnlyIdealReports(es, start, end, kind, View());
    }
  }

  lemma OneReplaced(es: seq<Entry>, i: nat, x: Entry)
    requires i < |es|
    ensures es[i := x][..i + 1] == es[..i] + [x] && es[i := x][i + 1..] == es[i + 1..]
  {
  }

  /** A table `p + q` in which `p` is already what belongs left of the new range. */
  ghost predicate Located(es: seq<Entry>, start: nat, end: nat, kind: nat, keptTail: bool, newStart: nat,
                          p: seq<Entry>, q: seq<Entry>)
    requires start < end
  {
    var l, above := Below(es, start), Above(es, end);
    && Tidy(q)
    && newStart == (if TouchesLeft(l, start, kind) then l[|l| - 1].start else start)
    && p == (if TouchesLeft(l, start, kind) then l[..|l| - 1] else l)
    && Above(q, end) == (if keptTail || above == [] then above else above[1..])
  }

  lemma ReachedBy(es: seq<Entry>, i: nat, start: nat, end: nat)
    requires Tidy(es) && i <= |es| && start < end && forall j | 0 <= j < i :: End(es[j]) < start
    ensures Tidy(es[i..]) && Below(es, start) == es[..i] + Below(es[i..], start) &&
            Above(es, end) == Above(es[i..], end)
  {
    TidyParts(es, i);
    SkipLower(es, i, start, end);
  }

  lemma LocatedBeside(es: seq<Entry>, i: nat, start: nat, end: nat, kind: nat)
    requires Tidy(es) && i <= |es| && start < end && forall j | 0 <= j < i :: End(es[j]) < start
    requires i < |es| ==> start <= es[i].start
    ensures Located(es, start, end, kind, true, start, es[..i], es[i..])
  {
    ReachedBy(es, i, start, end);
    assert es[..i] + [] == es[..i];
  }

  lemma LocatedJoined(es: seq<Entry>, i: nat, start: nat, end: nat, kind: nat)
    requires Tidy(es) && i < |es| && start < end && forall j | 0 <= j < i :: End(es[j]) < start
    requires es[i].start < start <= End(es[i]) && es[i].kind == kind
    ensures Located(es, start, end, kind, true, es[i].start, es[..i], es[i..])
  {
    ReachedBy(es, i, start, end);
    NothingBelowNext(es, i, start);
    var l := Below(es, start);
    assert l == es[..i] + [es[i].(size := start - es[i].start)];
    assert l[..|l| - 1] == es[..i];
  }

  /** The clipped piece is the last thing below the new range. */
  lemma NothingBelowNext(es: seq<Entry>, i: nat, start: nat)
    requires Tidy(es) && i < |es| && es[i].start < start <= End(es[i])
    ensures Below(es[i..], start) == [es[i].(size := start - es[i].start)]
  {
    TidyParts(es, i);
    var t := es[i..];
    if |t| > 1 { assert Apart(t[0], t[1]) && t[1..][0] == t[1]; }
    assert Below(t[1..], start) == [];
    assert t[0].(size := start - t[0].start) == t[0] || End(t[0]) > start;
  }

  lemma LocatedSplit(es: seq<Entry>, i: nat, start: nat, end: nat, kind: nat, keptTail: bool)
    requires Tidy(es) && i < |es| && start < end && forall j | 0 <= j < i :: End(es[j]) < start
    requires es[i].start < start <= End(es[i]) && es[i].kind != kind
    requires keptTail || End(es[i]) > end
    ensures Located(es, start, end, kind, keptTail, start,
                    es[..i] + [es[i].(size := start - es[i].start)], AfterSplit(es, i, end, keptTail))
    ensures End(es[i]) > end ==> |Ideal(es, start, end, kind)| > |es|
  {
    ReachedBy(es, i, start, end);
    NothingBelowNext(es, i, start);
    BehindSplit(es, i, start, end, keptTail);
    var l := Below(es, start);
    assert l[|l| - 1] == es[i].(size := start - es[i].start);
    if End(es[i]) > end { SplitGrows(es, i, start, end, kind); }
  }

  /** Splitting an entry of another type leaves more entries than before. */
  lemma SplitGrows(es: seq<Entry>, i: nat, start: nat, end: nat, kind: nat)
    requires Tidy(es) && i < |es| && start < end && forall j | 0 <= j < i :: End(es[j]) < start
    requires es[i].start < start && End(es[i]) > end && es[i].kind != kind
    ensures |Ideal(es, start, end, kind)| > |es|
  {
    ReachedBy(es, i, start, end);
    NothingBelowNext(es, i, start);
    var l, r := Below(es, start), Above(es, end);
    assert l[|l| - 1].kind == es[i].kind && |l| == i + 1;
    TailAbove(es[i..], end);
    NothingJoined(l, start, end, kind, r);
  }

  /** Even without its tail there is then one entry more. */
  lemma SpannedGrows(es: seq<Entry>, i: nat, start: nat, end: nat, kind: nat)
    requires Tidy(es) && start < end && Spans(es, i, start, end, kind) && kind != HOLE
    ensures |Updated(es, start, end, kind, false, true)| == |es| + 1
  {
    forall j | 0 <= j < i
      ensures End(es[j]) < start
    {
      TidyMeans(es, j, i);
    }
    ReachedBy(es, i, start, end);
    NothingBelowNext(es, i, start);
    SpannedAlone(es, start, end, kind, i);
    TailAbove(es[i..], end);
    NothingJoined(Below(es, start), start, end, kind, Above(es, end)[1..]);
  }

  /** What an update of a table comes to. */
  lemma AddedExactly(es: seq<Entry>, start: nat, end: nat, kind: nat, keptTail: bool, keptNew: bool)
    requires Tidy(es) && start < end && |es| <= MAX_ENTRIES
    requires keptTail <==> |es| < MAX_ENTRIES || forall j :: !Spans(es, j, start, end, kind)
    requires keptNew <==> kind == HOLE || |Updated(es, start, end, kind, keptTail, true)| <= MAX_ENTRIES
    ensures && (keptTail <==> |es| < 32 || forall i | 0 <= i < |es| ::
                  es[i].kind == kind || start <= es[i].start || es[i].start + es[i].size <= end)
            && (!keptTail ==> (keptNew <==> kind == 0xFFFF_FFFF))
            && (kind == 0xFFFF_FFFF ==> keptNew)
    ensures forall a: nat ::
              TypeAt(Updated(es, start, end, kind, keptTail, keptNew), a) ==
              if !keptTail && exists i | 0 <= i < |es| ::
                   es[i].kind != kind && es[i].start < start && end <= a < es[i].start + es[i].size then None
              else if !keptNew && exists i | 0 <= i < |es| ::
                        && es[i].kind == kind && es[i].start <= end && start <= es[i].start + es[i].size
                        && es[i].start <= a < es[i].start + es[i].size then None
              else if start <= a < end then (if keptNew && kind != 0xFFFF_FFFF then Some(kind) else None)
              else TypeAt(es, a)
  {
    hide Updated, TypeAt, Tidy;
    if !keptTail {
      var j :| Spans(es, j, start, end, kind);
      if kind != HOLE { SpannedGrows(es, j, start, end, kind); }
    }
    assert forall i | 0 <= i < |es| ::
        (Spans(es, i, start, end, kind) <==>
         !(es[i].kind == kind || start <= es[i].start || es[i].start + es[i].size <= end));
    forall a: nat
      ensures TypeAt(Updated(es, start, end, kind, keptTail, keptNew), a) ==
              if !keptTail && exists i | 0 <= i < |es| ::
                   es[i].kind != kind && es[i].start < start && end <= a < es[i].start + es[i].size then None
              else if !keptNew && exists i | 0 <= i < |es| ::
                        && es[i].kind == kind && es[i].start <= end && start <= es[i].start + es[i].size
                        && es[i].start <= a < es[i].start + es[i].size then None
              else if start <= a < end then (if keptNew && kind != 0xFFFF_FFFF then Some(kind) else None)
              else TypeAt(es, a)
    {
      UpdatedExactly(es, start, end, kind, keptTail, keptNew, a);
      assert forall i | 0 <= i < |es| && end <= a < End(es[i]) ::
          (Spans(es, i, start, end, kind) <==> es[i].kind != kind && es[i].start < start);
      assert forall i | 0 <= i < |es| ::
          (Meets(es, i, start, end, kind) <==>
           es[i].kind == kind && es[i].start <= end && start <= es[i].start + es[i].size);
    }
  }

  /** `n` entries of one type, four bytes long and four bytes apart. */
  function Comb(n: nat, start: nat): seq<Entry>
    decreases n
  {
    if n == 0 then [] else [Entry(start, 4, 1)] + Comb(n - 1, start + 8)
  }

  lemma {:induction false} CombIsTidy(n: nat, start: nat)
    requires start + 8 * n < LIMIT
    ensures |Comb(n, start)| == n && Tidy(Comb(n, start))
    decreases n
  {
    if n > 0 {
      CombIsTidy(n - 1, start + 8);
      assert Comb(n, start)[1..] == Comb(n - 1, start + 8);
    }
  }

  /** A full table, and an update of two bytes that no table reports. */
  lemma FullTable()
    ensures var es := Comb(MAX_ENTRIES, 0);
            && Tidy(es) && |es| == MAX_ENTRIES && |Ideal(es, 1, 3, 2)| > MAX_ENTRIES
            && forall view | Tidy(view) && |view| <= MAX_ENTRIES :: !Reports(view, es, 1, 3, 2)
  {
    var es := Comb(MAX_ENTRIES, 0);
    CombIsTidy(MAX_ENTRIES, 0);
    assert es[0] == Entry(0, 4, 1);
    SplitGrows(es, 0, 1, 3, 2);
    forall view | Tidy(view) && |view| <= MAX_ENTRIES
      ensures !Reports(view, es, 1, 3, 2)
    {
      OnlyIdealReports(es, 1, 3, 2, view);
    }
  }

  lemma TailAbove(es: seq<Entry>, end: nat)
    requires es != [] && es[0].start < end < End(es[0])
    ensures |Above(es, end)| == |es| && Above(es, end)[0].kind == es[0].kind
  {
  }

  lemma NothingJoined(l: seq<Entry>, start: nat, end: nat, kind: nat, r: seq<Entry>)
    requires start < end && !TouchesLeft(l, start, kind) && !TouchesRight(r, end, kind)
    ensures Joined(l, start, end, kind, r).1 == l && Joined(l, start, end, kind, r).2 == r
  {
  }

  lemma BehindSplit(es: seq<Entry>, i: nat, start: nat, end: nat, keptTail: bool)
    requires Tidy(es) && i < |es| && start < end && es[i].start < start <= End(es[i])
    requires keptTail || End(es[i]) > end
    ensures var q, above := AfterSplit(es, i, end, keptTail), Above(es[i..], end);
            && Tidy(q) && Above(q, end) == (if keptTail || above == [] then above else above[1..])
            && (End(es[i]) > end ==> |above| == |es| - i)
  {
    TidyParts(es, i + 1);
    NoHoles(es, i);
    var t, q := es[i..], AfterSplit(es, i, end, keptTail);
    assert t[1..] == es[i + 1..];
    if i + 1 < |es| {
      TidyMeans(es, i, i + 1);
      assert es[i + 1..][0] == es[i + 1];
    }
    if keptTail && End(es[i]) > end {
      assert q[1..] == es[i + 1..];
    } else {
      assert q == es[i + 1..];
    }
  }

  /** What follows the clipped entry. */
  function AfterSplit(es: seq<Entry>, i: nat, end: nat, keptTail: bool): seq<Entry>
    requires i < |es|
  {
    (if keptTail && End(es[i]) > end then [Entry(end, End(es[i]) - end, es[i].kind)] else []) + es[i + 1..]
  }

  /** What is settled on either side and the new entry between them make the
      updated map. */
  lemma Assembled(es: seq<Entry>, start: nat, end: nat, kind: nat, keptTail: bool, newStart: nat, newEnd: nat,
                  p: seq<Entry>, q: seq<Entry>, q': seq<Entry>, keptNew: bool)
    requires Tidy(es) && start < end && Located(es, start, end, kind, keptTail, newStart, p, q)
    requires var r := Above(q, end);
             if TouchesRight(r, end, kind) then newEnd == End(r[0]) && q' == r[1..] else newEnd == end && q' == r
    ensures newStart < newEnd
    ensures Updated(es, start, end, kind, keptTail, keptNew) ==
            if kind == HOLE || !keptNew then p + q' else p + [Entry(newStart, newEnd - newStart, kind)] + q'
  {
    var l, r := Below(es, start), Above(q, end);
    BelowTidy(es, start);
    AboveTidy(q, end);
    JoinedParts(l, start, end, kind, r, newStart, newEnd, p, q');
  }

  lemma JoinedParts(l: seq<Entry>, start: nat, end: nat, kind: nat, r: seq<Entry>, newStart: nat, newEnd: nat,
                    l': seq<Entry>, r': seq<Entry>)
    requires Tidy(l) && Tidy(r) && start < end
    requires newStart == if TouchesLeft(l, start, kind) then l[|l| - 1].start else start
    requires l' == if TouchesLeft(l, start, kind) then l[..|l| - 1] else l
    requires if TouchesRight(r, end, kind) then newEnd == End(r[0]) && r' == r[1..] else newEnd == end && r' == r
    ensures newStart < newEnd
    ensures Joined(l, start, end, kind, r) == (Entry(newStart, newEnd - newStart, kind), l', r')
  {
    if TouchesLeft(l, start, kind) { NoHoles(l, |l| - 1); }
    if TouchesRight(r, end, kind) { NoHoles(r, 0); }
  }
}
