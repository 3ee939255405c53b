/** Self-relocation: the three relocation lists of seabios/scripts/layoutrom.py and the
    code of seabios/src/post.c that moves the init code and patches it. */
module Relocation {
  import opened Basics

  datatype Category = Init32 | Flat32 | Low32 | FSeg32 | Seg32 | Code16

  /** The relocation types of the i386 ABI that occur. */
  datatype Kind = Abs32 | Pc32 | Abs16 | Pc16

  /** `dest` is the category of the section that defines the symbol, if one does. */
  datatype Reloc = Reloc(offset: nat, kind: Kind, dest: Option<Category>)
  datatype Section = Section(finalloc: nat, category: Category, relocs: seq<Reloc>)

  /** A reference: the address of its field, and what it refers to. */
  datatype Ref = Ref(pos: nat, kind: Kind, dest: Option<Category>)

  function Located(finalloc: nat, relocs: seq<Reloc>): seq<Ref>
    decreases relocs
  {
    if relocs == [] then []
    else [Ref(finalloc + relocs[0].offset, relocs[0].kind, relocs[0].dest)] + Located(finalloc, relocs[1..])
  }

  function Refs(sections: seq<Section>): seq<Ref>
    decreases sections
  {
    if sections == [] then [] else Located(sections[0].finalloc, sections[0].relocs) + Refs(sections[1..])
  }

  // ---------------------------------------------------------------- getRelocs

  /** The three optional filters of `getRelocs`; a symbol no section defines never
      passes. */
  predicate Wanted(r: Ref, kind: Option<Kind>, category: Option<Category>, notcategory: Option<Category>) {
    && r.dest.Some?
    && (kind == None || r.kind == kind.value)
    && (category == None || r.dest == category)
    && (notcategory == None || r.dest != notcategory)
  }

  function Selected(refs: seq<Ref>, kind: Option<Kind>, category: Option<Category>,
                    notcategory: Option<Category>): seq<nat>
    decreases refs
  {
    if refs == [] then []
    else
      (if Wanted(refs[0], kind, category, notcategory) then [refs[0].pos] else []) +
      Selected(refs[1..], kind, category, notcategory)
  }

  lemma {:induction false} SelectedJoin(a: seq<Ref>, b: seq<Ref>, kind: Option<Kind>, category: Option<Category>,
                                        notcategory: Option<Category>)
    ensures Selected(a + b, kind, category, notcategory) ==
            Selected(a, kind, category, notcategory) + Selected(b, kind, category, notcategory)
    decreases a
  {
    if a == [] {
      assert a + b == b;
    } else {
      assert (a + b)[1..] == a[1..] + b;
      SelectedJoin(a[1..], b, kind, category, notcategory);
      Associate(if Wanted(a[0], kind, category, notcategory) then [a[0].pos] else [],
                Selected(a[1..], kind, category, notcategory), Selected(b, kind, category, notcategory));
    }
  }

  lemma {:induction false} LocatedHas(finalloc: nat, relocs: seq<Reloc>, r: Ref)
    ensures r in Located(finalloc, relocs) <==>
            exists j :: && 0 <= j < |relocs| && r.pos == finalloc + relocs[j].offset && r.kind == relocs[j].kind
                        && r.dest == relocs[j].dest
    decreases relocs
  {
    if relocs != [] {
      LocatedHas(finalloc, relocs[1..], r);
      if j :| && 0 <= j < |relocs| && r.pos == finalloc + relocs[j].offset && r.kind == relocs[j].kind
              && r.dest == relocs[j].dest {
        if j > 0 { assert relocs[1..][j - 1] == relocs[j]; }
      }
      if j :| && 0 <= j < |relocs[1..]| && r.pos == finalloc + relocs[1..][j].offset && r.kind == relocs[1..][j].kind
              && r.dest == relocs[1..][j].dest {
        assert relocs[j + 1] == relocs[1..][j];
      }
    }
  }

  /** `r` is one of the references, as the object files list them. */
  ghost predicate Refers(sections: seq<Section>, i: int, j: int, r: Ref) {
    && 0 <= i < |sections| && 0 <= j < |sections[i].relocs|
    && r.pos == sections[i].finalloc + sections[i].relocs[j].offset && r.kind == sections[i].relocs[j].kind
    && r.dest == sections[i].relocs[j].dest
  }

  lemma {:induction false} RefsHave(sections: seq<Section>, r: Ref)
    ensures r in Refs(sections) <==> exists i, j :: Refers(sections, i, j, r)
    decreases sections
  {
    if sections != [] {
      RefsHave(sections[1..], r);
      LocatedHas(sections[0].finalloc, sections[0].relocs, r);
      if i, j :| Refers(sections, i, j, r) && i > 0 {
        assert Refers(sections[1..], i - 1, j, r);
      }
      if i, j :| Refers(sections[1..], i, j, r) {
        assert Refers(sections, i + 1, j, r);
      }
      if r in Located(sections[0].finalloc, sections[0].relocs) {
        var j :| && 0 <= j < |sections[0].relocs| && r.pos == sections[0].finalloc + sections[0].relocs[j].offset
                 && r.kind == sections[0].relocs[j].kind && r.dest == sections[0].relocs[j].dest;
        assert Refers(sections, 0, j, r);
      }
      if j :| Refers(sections, 0, j, r) {
        assert r in Located(sections[0].finalloc, sections[0].relocs);
      }
    }
  }

  lemma {:induction false} SelectedHas(refs: seq<Ref>, kind: Option<Kind>, category: Option<Category>,
                                       notcategory: Option<Category>, p: nat)
    ensures p in Selected(refs, kind, category, notcategory) <==>
            exists r :: r in refs && r.pos == p && Wanted(r, kind, category, notcategory)
    decreases refs
  {
    if refs != [] { SelectedHas(refs[1..], kind, category, notcategory, p); }
  }

  /** A position is listed when a reference there passes the filters. */
  lemma ListedExactly(sections: seq<Section>, kind: Option<Kind>, category: Option<Category>,
                      notcategory: Option<Category>, p: nat)
    ensures p in Selected(Refs(sections), kind, category, notcategory) <==>
            exists i, j, r ::
              && Refers(sections, i, j, r) && r.pos == p && r.dest.Some? && (kind.Some? ==> r.kind == kind.value)
              && (category.Some? ==> r.dest.value == category.value)
              && (notcategory.Some? ==> r.dest.value != notcategory.value)
  {
    hide Selected, Refs, Refers;
    SelectedHas(Refs(sections), kind, category, notcategory, p);
    if p in Selected(Refs(sections), kind, category, notcategory) {
      var r :| r in Refs(sections) && r.pos == p && Wanted(r, kind, category, notcategory);
      RefsHave(sections, r);
      var i, j :| Refers(sections, i, j, r);
    }
    forall i, j, r | Refers(sections, i, j, r)
      ensures r in Refs(sections)
    {
      RefsHave(sections, r);
    }
  }

  method GetRelocs(sections: seq<Section>, kind: Option<Kind>, category: Option<Category>,
                   notcategory: Option<Category>)
    returns (out: seq<nat>)
    ensures out == Selected(Refs(sections), kind, category, notcategory)
    ensures forall p: nat ::
              p in out <==>
              exists i, j, r ::
                && Refers(sections, i, j, r) && r.pos == p && r.dest.Some? && (kind.Some? ==> r.kind == kind.value)
                && (category.Some? ==> r.dest.value == category.value)
                && (notcategory.Some? ==> r.dest.value != notcategory.value)
  {
    hide Selected, Refers;
    out := [];
    ghost var all := Selected(Refs(sections), kind, category, notcategory);
    assert sections[0..] == sections;
    var i := 0;
    while i < |sections|
      invariant i <= |sections| && out + Selected(Refs(sections[i..]), kind, category, notcategory) == all
    {
      assert sections[i..][1..] == sections[i + 1..];
      SelectedJoin(Located(sections[i].finalloc, sections[i].relocs), Refs(sections[i + 1..]), kind, category,
          notcategory);
      var found := SectionRelocs(sections[i], kind, category, notcategory);
      Associate(out, found, Selected(Refs(sections[i + 1..]), kind, category, notcategory));
      out := out + found;
      i := i + 1;
    }
    NothingLeft(kind, category, notcategory);
    assert sections[i..] == [];
    forall p: nat
      ensures p in out <==>
              exists i, j, r ::
                && Refers(sections, i, j, r) && r.pos == p && r.dest.Some? && (kind.Some? ==> r.kind == kind.value)
                && (category.Some? ==> r.dest.value == category.value)
                && (notcategory.Some? ==> r.dest.value != notcategory.value)
    {
      ListedExactly(sections, kind, category, notcategory, p);
    }
  }

  lemma NothingLeft(kind: Option<Kind>, category: Option<Category>, notcategory: Option<Category>)
    ensures Selected(Refs([]), kind, category, notcategory) == []
  {
  }

  /** The inner loop of `getRelocs`. */
  method SectionRelocs(section: Section, kind: Option<Kind>, category: Option<Category>, notcategory: Option<Category>)
    returns (out: seq<nat>)
    ensures out == Selected(Located(section.finalloc, section.relocs), kind, category, notcategory)
  {
    out := [];
    ghost var all := Selected(Located(section.finalloc, section.relocs), kind, category, notcategory);
    var j := 0;
    assert section.relocs[0..] == section.relocs;
    while j < |section.relocs|
      invariant j <= |section.relocs|
      invariant out + Selected(Located(section.finalloc, section.relocs[j..]), kind, category, notcategory) == all
    {
      var reloc := section.relocs[j];
      assert section.relocs[j..][1..] == section.relocs[j + 1..];
      SelectedNext(section.finalloc, section.relocs[j..], kind, category, notcategory);
      Regroup(out, section.finalloc + reloc.offset,
              Selected(Located(section.finalloc, section.relocs[j + 1..]), kind, category, notcategory));
      if reloc.dest.Some? {
        var destcategory := reloc.dest.value;
        if (kind == None || reloc.kind == kind.value) && (category == None || destcategory == category.value)
           && (notcategory == None || destcategory != notcategory.value)
        {
          out := out + [section.finalloc + reloc.offset];
        }
      }
      j := j + 1;
    }
  }

  lemma Associate(a: seq<nat>, b: seq<nat>, c: seq<nat>)
    ensures a + (b + c) == a + b + c
  {
  }

  lemma Regroup(a: seq<nat>, x: nat, b: seq<nat>)
    ensures a + ([x] + b) == a + [x] + b && a + ([] + b) == a + b
  {
    assert [] + b == b;
  }

  lemma SelectedNext(finalloc: nat, relocs: seq<Reloc>, kind: Option<Kind>, category: Option<Category>,
                     notcategory: Option<Category>)
    requires relocs != []
    ensures var r := Ref(finalloc + relocs[0].offset, relocs[0].kind, relocs[0].dest);
            Selected(Located(finalloc, relocs), kind, category, notcategory) ==
            (if Wanted(r, kind, category, notcategory) then [r.pos] else []) +
            Selected(Located(finalloc, relocs[1..]), kind, category, notcategory)
  {
    assert Located(finalloc, relocs)[1..] == Located(finalloc, relocs[1..]);
  }

  // ------------------------------------------------------------ words in memory

  type Memory = seq<Byte>

  /** 32-bit addition and negation. */
  function Add32(a: Word, b: Word): Word {
    var sum: int := a + b;
    if sum >= WORD then sum - WORD else sum
  }

  function Neg32(a: Word): Word {
    if a == 0 then 0 else WORD - a
  }

  /** The `k` bytes from `p`, least significant first. */
  function Value(m: Memory, p: nat, k: nat): nat
    requires p + k <= |m|
    decreases m, k
  {
    if k == 0 then 0 else var low: int := m[p]; low + 0x100 * Value(m, p + 1, k - 1)
  }

  function Load(m: Memory, p: nat): Word
    requires p + 4 <= |m|
  {
    ValueSmall(m, p);
    Value(m, p, 4)
  }

  lemma ValueSmall(m: Memory, p: nat)
    requires p + 4 <= |m|
    ensures Value(m, p, 4) < WORD
  {
    assert Value(m, p + 4, 0) == 0;
    assert Value(m, p + 3, 1) < 0x100;
    assert Value(m, p + 2, 2) < 0x1_0000;
    assert Value(m, p + 1, 3) < 0x100_0000;
  }

  /** A word is stored with its least significant byte first. */
  lemma LoadIs(m: Memory, p: nat)
    requires p + 4 <= |m|
    ensures var b0: int, b1: int, b2: int, b3: int := m[p], m[p + 1], m[p + 2], m[p + 3];
            Load(m, p) == b0 + 0x100 * b1 + 0x1_0000 * b2 + 0x100_0000 * b3
  {
    assert Value(m, p + 4, 0) == 0;
    assert Value(m, p + 3, 1) == m[p + 3];
    assert Value(m, p + 2, 2) == m[p + 2] + 0x100 * Value(m, p + 3, 1);
    assert Value(m, p + 1, 3) == m[p + 1] + 0x100 * Value(m, p + 2, 2);
  }

  /** The arithmetic is that of 32-bit words. */
  lemma WordArithmetic(a: Word, b: Word, v: Move)
    requires v.initStart <= WORD && v.dest <= WORD
    ensures var x: int, y: int := a, b; Add32(a, b) == (x + y) % 0x1_0000_0000 && Neg32(a) == -x % 0x1_0000_0000
    ensures Delta(v) == (v.dest - v.initStart) % 0x1_0000_0000
  {
  }

  function LowByte(w: nat): Byte {
    var b: int := w % 0x100;
    b
  }

  function Put(m: Memory, p: nat, w: nat, k: nat): (m': Memory)
    requires p + k <= |m|
    ensures |m'| == |m|
    decreases m, k
  {
    if k == 0 then m else Put(m, p + 1, w / 0x100, k - 1)[p := LowByte(w)]
  }

  function Store(m: Memory, p: nat, w: Word): (m': Memory)
    requires p + 4 <= |m|
    ensures |m'| == |m|
  {
    Put(m, p, w, 4)
  }

  predicate Apart(p: nat, q: nat) {
    p + 4 <= q || q + 4 <= p
  }

  lemma {:induction false} PutKeeps(m: Memory, p: nat, w: nat, k: nat, i: nat)
    requires p + k <= |m| && i < |m| && !(p <= i < p + k)
    ensures Put(m, p, w, k)[i] == m[i]
    decreases k
  {
    if k > 0 { PutKeeps(m, p + 1, w / 0x100, k - 1, i); }
  }

  lemma {:induction false} SameValue(m: Memory, p: nat, m': Memory, q: nat, k: nat)
    requires p + k <= |m| && q + k <= |m'| && m'[q..q + k] == m[p..p + k]
    ensures Value(m', q, k) == Value(m, p, k)
    decreases k
  {
    if k > 0 {
      var a, b := m[p..p + k], m'[q..q + k];
      assert a[0] == m[p] && b[0] == m'[q];
      assert a[1..] == m[p + 1..p + k] && b[1..] == m'[q + 1..q + k];
      SameValue(m, p + 1, m', q + 1, k - 1);
    }
  }

  /** `w` takes no more than `k` bytes. */
  predicate Bytes(w: nat, k: nat)
    decreases w, k
  {
    if k == 0 then w == 0 else Bytes(w / 0x100, k - 1)
  }

  lemma {:induction false} ValuePut(m: Memory, p: nat, w: nat, k: nat)
    requires p + k <= |m| && Bytes(w, k)
    ensures Value(Put(m, p, w, k), p, k) == w
    decreases k
  {
    if k > 0 {
      var inner := Put(m, p + 1, w / 0x100, k - 1);
      ValuePut(m, p + 1, w / 0x100, k - 1);
      var outer := inner[p := LowByte(w)];
      assert outer[p + 1..p + 1 + (k - 1)] == inner[p + 1..p + 1 + (k - 1)];
      SameValue(inner, p + 1, outer, p + 1, k - 1);
    }
  }

  lemma WordBytes(w: Word)
    ensures Bytes(w, 4)
  {
    assert Bytes(w / 0x100 / 0x100 / 0x100 / 0x100, 0);
    assert Bytes(w / 0x100 / 0x100 / 0x100, 1);
    assert Bytes(w / 0x100 / 0x100, 2);
    assert Bytes(w / 0x100, 3);
  }

  lemma LoadStore(m: Memory, p: nat, w: Word, q: nat)
    requires p + 4 <= |m| && q + 4 <= |m| && (p == q || Apart(p, q))
    ensures Load(Store(m, p, w), q) == if p == q then w else Load(m, q)
  {
    if p == q {
      WordBytes(w);
      ValuePut(m, p, w, 4);
    } else {
      forall i | q <= i < q + 4
        ensures Store(m, p, w)[i] == m[i]
      {
        PutKeeps(m, p, w, 4, i);
      }
      assert Store(m, p, w)[q..q + 4] == m[q..q + 4];
      SameValue(m, q, Store(m, p, w), q, 4);
    }
  }

  // ------------------------------------------------------------- updateRelocs

  predicate Fields(ps: seq<nat>, size: nat)
    decreases ps
  {
    ps == [] || (ps[0] + 4 <= size && Fields(ps[1..], size))
  }

  /** Adds `delta` to the word at each position, in 32-bit arithmetic. */
  function Patched(m: Memory, ps: seq<nat>, delta: Word): (m': Memory)
    requires Fields(ps, |m|)
    ensures |m'| == |m|
    decreases ps
  {
    if ps == [] then m
    else Patched(Store(m, ps[0], Add32(Load(m, ps[0]), delta)), ps[1..], delta)
  }

  predicate NoRepeats(ps: seq<nat>)
    decreases ps
  {
    ps == [] || (ps[0] !in ps[1..] && NoRepeats(ps[1..]))
  }

  predicate ClearOf(ps: seq<nat>, p: nat)
    decreases ps
  {
    ps == [] || ((ps[0] == p || Apart(p, ps[0])) && ClearOf(ps[1..], p))
  }

  /** A byte of no listed word stays as it is. */
  lemma {:induction false} PatchedKeeps(m: Memory, ps: seq<nat>, delta: Word, i: nat)
    requires Fields(ps, |m|) && i < |m| && forall p | p in ps :: !(p <= i < p + 4)
    ensures Patched(m, ps, delta)[i] == m[i]
    decreases ps
  {
    if ps != [] {
      var w := Add32(Load(m, ps[0]), delta);
      assert ps[0] in ps && forall p | p in ps[1..] :: p in ps;
      PutKeeps(m, ps[0], w, 4, i);
      PatchedKeeps(Store(m, ps[0], w), ps[1..], delta, i);
    }
  }

  /** Patching adds to the listed words, whatever their order, and to no other. */
  lemma {:induction false} PatchedIs(m: Memory, ps: seq<nat>, delta: Word, p: nat)
    requires Fields(ps, |m|) && NoRepeats(ps) && p + 4 <= |m| && ClearOf(ps, p)
    ensures Load(Patched(m, ps, delta), p) == if p in ps then Add32(Load(m, p), delta) else Load(m, p)
    decreases ps
  {
    if ps != [] {
      var w := Add32(Load(m, ps[0]), delta);
      LoadStore(m, ps[0], w, p);
      PatchedIs(Store(m, ps[0], w), ps[1..], delta, p);
    }
  }

  function Shifted(table: seq<nat>, base: nat): seq<nat>
    decreases table
  {
    if table == [] then [] else [base + table[0]] + Shifted(table[1..], base)
  }

  /** `*(u32*)p = w`. */
  method Write(ram: array<Byte>, p: nat, w: Word)
    requires p + 4 <= ram.Length
    modifies ram
    ensures ram[..] == Store(old(ram[..]), p, w)
  {
    ghost var m := ram[..];
    var v: nat := w;
    ram[p], ram[p + 1], ram[p + 2], ram[p + 3] :=
      LowByte(v), LowByte(v / 0x100), LowByte(v / 0x100 / 0x100), LowByte(v / 0x100 / 0x100 / 0x100);
    PutFour(m, p, v);
  }

  lemma PutFour(m: Memory, p: nat, w: nat)
    requires p + 4 <= |m|
    ensures Put(m, p, w, 4) ==
            m[p + 3 := LowByte(w / 0x100 / 0x100 / 0x100)][p + 2 := LowByte(w / 0x100 / 0x100)]
            [p + 1 := LowByte(w / 0x100)][p := LowByte(w)]
  {
    var w1, w2, w3 := w / 0x100, w / 0x100 / 0x100, w / 0x100 / 0x100 / 0x100;
    assert Put(m, p + 4, w3 / 0x100, 0) == m;
    assert Put(m, p + 3, w3, 1) == m[p + 3 := LowByte(w3)];
    assert Put(m, p + 2, w2, 2) == m[p + 3 := LowByte(w3)][p + 2 := LowByte(w2)];
    assert Put(m, p + 1, w1, 3) == m[p + 3 := LowByte(w3)][p + 2 := LowByte(w2)][p + 1 := LowByte(w1)];
  }

  method UpdateRelocs(ram: array<Byte>, dest: nat, table: seq<nat>, delta: Word)
    requires Fields(Shifted(table, dest), ram.Length)
    modifies ram
    ensures ram[..] == Patched(old(ram[..]), Shifted(table, dest), delta)
  {
    var i := 0;
    assert table[0..] == table;
    while i < |table|
      invariant i <= |table| && Fields(Shifted(table[i..], dest), ram.Length)
      invariant Patched(ram[..], Shifted(table[i..], dest), delta) == Patched(old(ram[..]), Shifted(table, dest), delta)
    {
      assert table[i..][1..] == table[i + 1..];
      ghost var ps := Shifted(table[i..], dest);
      assert ps[1..] == Shifted(table[i + 1..], dest);
      var w := Load(ram[..], dest + table[i]);
      Write(ram, dest + table[i], Add32(w, delta));
      i := i + 1;
    }
  }

  // ------------------------------------------------------------ reloc_preinit

  /** Where the code lies and where it goes. */
  datatype Move = Move(initStart: nat, initEnd: nat, dest: nat)

  function Delta(v: Move): Word
    requires v.initStart <= WORD && v.dest <= WORD
  {
    if v.dest >= v.initStart then (if v.dest - v.initStart < WORD then v.dest - v.initStart else 0)
    else WORD - (v.initStart - v.dest)
  }

  function Copied(m: Memory, v: Move): (m': Memory)
    requires v.initStart <= v.initEnd <= |m| && v.dest + (v.initEnd - v.initStart) <= |m|
    ensures |m'| == |m|
  {
    m[..v.dest] + m[v.initStart..v.initEnd] + m[v.dest + (v.initEnd - v.initStart)..]
  }

  datatype Tables = Tables(abs: seq<nat>, rel: seq<nat>, init: seq<nat>)

  predicate TablesFit(t: Tables, v: Move, flatStart: nat, size: nat) {
    && v.initStart <= v.initEnd <= size <= WORD && v.dest + (v.initEnd - v.initStart) <= size
    && (v.dest + (v.initEnd - v.initStart) <= v.initStart || v.initEnd <= v.dest)
    && Fields(Shifted(t.abs, v.dest), size) && Fields(Shifted(t.rel, v.dest), size) &&
        Fields(Shifted(t.init, flatStart), size)
  }

  /** Memory after the copy and the first pass over it. */
  function AbsPatched(m: Memory, v: Move, t: Tables): (m': Memory)
    requires v.initStart <= v.initEnd <= |m| <= WORD && v.dest + (v.initEnd - v.initStart) <= |m|
    requires Fields(Shifted(t.abs, v.dest), |m|)
    ensures |m'| == |m|
  {
    Patched(Copied(m, v), Shifted(t.abs, v.dest), Delta(v))
  }

  /** And the second. */
  function CopyPatched(m: Memory, v: Move, t: Tables): (m': Memory)
    requires v.initStart <= v.initEnd <= |m| <= WORD && v.dest + (v.initEnd - v.initStart) <= |m|
    requires Fields(Shifted(t.abs, v.dest), |m|) && Fields(Shifted(t.rel, v.dest), |m|)
    ensures |m'| == |m|
  {
    Patched(AbsPatched(m, v, t), Shifted(t.rel, v.dest), Neg32(Delta(v)))
  }

  /** And after the pass over the code that stays. */
  function Relocated(m: Memory, v: Move, flatStart: nat, t: Tables): (m': Memory)
    requires TablesFit(t, v, flatStart, |m|)
    ensures |m'| == |m|
  {
    Patched(CopyPatched(m, v, t), Shifted(t.init, flatStart), Delta(v))
  }

  /** Bytes of no listed word are only copied, or stay. */
  lemma OtherBytes(m: Memory, v: Move, flatStart: nat, t: Tables, i: nat)
    requires TablesFit(t, v, flatStart, |m|) && i < |m|
    requires forall q | q in t.abs || q in t.rel :: !(v.dest + q <= i < v.dest + q + 4)
    requires forall q | q in t.init :: !(flatStart + q <= i < flatStart + q + 4)
    ensures var size := v.initEnd - v.initStart;
            Relocated(m, v, flatStart, t)[i] ==
            if v.dest <= i < v.dest + size then m[v.initStart + i - v.dest] else m[i]
  {
    OffShifted(t.abs, v.dest, i);
    OffShifted(t.rel, v.dest, i);
    OffShifted(t.init, flatStart, i);
    PatchedKeeps(Copied(m, v), Shifted(t.abs, v.dest), Delta(v), i);
    PatchedKeeps(AbsPatched(m, v, t), Shifted(t.rel, v.dest), Neg32(Delta(v)), i);
    PatchedKeeps(CopyPatched(m, v, t), Shifted(t.init, flatStart), Delta(v), i);
    CopiedByte(m, v, i);
  }

  lemma CopiedByte(m: Memory, v: Move, i: nat)
    requires v.initStart <= v.initEnd <= |m| && v.dest + (v.initEnd - v.initStart) <= |m| && i < |m|
    ensures var size := v.initEnd - v.initStart;
            Copied(m, v)[i] == if v.dest <= i < v.dest + size then m[v.initStart + i - v.dest] else m[i]
  {
    if v.dest <= i < v.dest + (v.initEnd - v.initStart) {
      assert Copied(m, v)[i] == m[v.initStart..v.initEnd][i - v.dest];
    }
  }

  lemma OffShifted(table: seq<nat>, base: nat, i: nat)
    requires forall q | q in table :: !(base + q <= i < base + q + 4)
    ensures forall p | p in Shifted(table, base) :: !(p <= i < p + 4)
  {
    forall p | p in Shifted(table, base)
      ensures !(p <= i < p + 4)
    {
      InShifted(table, base, p);
    }
  }

  /** `reloc_preinit`, up to the final call. */
  method RelocPreinit(ram: array<Byte>, v: Move, flatStart: nat, t: Tables, f: nat) returns (func: nat)
    requires TablesFit(t, v, flatStart, ram.Length)
    modifies ram
    ensures ram[..] == Relocated(old(ram[..]), v, flatStart, t)
    ensures func == if v.initStart <= f < v.initEnd then f - v.initStart + v.dest else f
    ensures var size := v.initEnd - v.initStart;
            forall i | && 0 <= i < ram.Length
                       && (forall q | q in t.abs || q in t.rel :: !(v.dest + q <= i < v.dest + q + 4))
                       && (forall q | q in t.init :: !(flatStart + q <= i < flatStart + q + 4)) ::
              ram[..][i] == old(ram[..])[if v.dest <= i < v.dest + size then v.initStart + i - v.dest else i]
  {
    hide Patched, Copied, Fields, Shifted;
    AllOtherBytes(ram[..], v, flatStart, t);
    var delta := Delta(v);
    CopyInit(ram, v);
    UpdateRelocs(ram, v.dest, t.abs, delta);
    UpdateRelocs(ram, v.dest, t.rel, Neg32(delta));
    UpdateRelocs(ram, flatStart, t.init, delta);
    func := f;
    if f >= v.initStart && f < v.initEnd {
      MovedField(v, f);
      func := Add32(f, delta);
    }
  }

  lemma AllOtherBytes(m: Memory, v: Move, flatStart: nat, t: Tables)
    requires TablesFit(t, v, flatStart, |m|)
    ensures var size := v.initEnd - v.initStart;
            forall i | && 0 <= i < |m|
                       && (forall q | q in t.abs || q in t.rel :: !(v.dest + q <= i < v.dest + q + 4))
                       && (forall q | q in t.init :: !(flatStart + q <= i < flatStart + q + 4)) ::
              Relocated(m, v, flatStart, t)[i] == m[if v.dest <= i < v.dest + size then v.initStart + i - v.dest else i]
  {
    hide Relocated;
    forall i | && 0 <= i < |m|
               && (forall q | q in t.abs || q in t.rel :: !(v.dest + q <= i < v.dest + q + 4))
               && (forall q | q in t.init :: !(flatStart + q <= i < flatStart + q + 4))
      ensures var size := v.initEnd - v.initStart;
              Relocated(m, v, flatStart, t)[i] == m[if v.dest <= i < v.dest + size then v.initStart + i - v.dest else i]
    {
      OtherBytes(m, v, flatStart, t, i);
    }
  }

  /** `memcpy(codedest, code32init_start, initsize)`. */
  method CopyInit(ram: array<Byte>, v: Move)
    requires v.initStart <= v.initEnd <= ram.Length && v.dest + (v.initEnd - v.initStart) <= ram.Length
    requires v.dest + (v.initEnd - v.initStart) <= v.initStart || v.initEnd <= v.dest
    modifies ram
    ensures ram[..] == Copied(old(ram[..]), v)
  {
    forall i | 0 <= i < v.initEnd - v.initStart {
      ram[v.dest + i] := ram[v.initStart + i];
    }
  }

  lemma MovedField(v: Move, p: nat)
    requires v.initStart <= p < WORD && p - v.initStart + v.dest < WORD
    ensures Add32(p, Delta(v)) == p - v.initStart + v.dest
  {
  }

  // ------------------------------------------------- references keep their meaning

  /** The address a reference with its field at `p` refers to. */
  function Resolved(m: Memory, p: nat, kind: Kind): Word
    requires p + 4 <= |m| <= WORD
  {
    if kind == Pc32 then Add32(p, Load(m, p)) else Load(m, p)
  }

  /** References whose four bytes the lists may touch or that this is about. */
  predicate Patchable(r: Ref, init: bool) {
    r.kind == Abs32 || r.kind == Pc32 || (!init && r.dest == Some(Init32))
  }

  predicate ClearOfRefs(refs: seq<Ref>, init: bool, p: nat)
    decreases refs
  {
    refs == [] || ((Patchable(refs[0], init) ==> Apart(p, refs[0].pos)) && ClearOfRefs(refs[1..], init, p))
  }

  /** No two such fields overlap. */
  predicate Separate(refs: seq<Ref>, init: bool)
    decreases refs
  {
    refs == [] || ((Patchable(refs[0], init) ==> ClearOfRefs(refs[1..], init, refs[0].pos)) &&
        Separate(refs[1..], init))
  }

  predicate Filters(init: bool, kind: Option<Kind>, category: Option<Category>) {
    if init then kind == Some(Abs32) || kind == Some(Pc32) else category == Some(Init32)
  }

  lemma {:induction false} ClearOfSelected(refs: seq<Ref>, init: bool, kind: Option<Kind>, category: Option<Category>,
                                           notcategory: Option<Category>, p: nat)
    requires ClearOfRefs(refs, init, p) && Filters(init, kind, category)
    ensures var ps := Selected(refs, kind, category, notcategory); p !in ps && ClearOf(ps, p)
    decreases refs
  {
    if refs != [] {
      ClearOfSelected(refs[1..], init, kind, category, notcategory, p);
      SelectedHead(refs, kind, category, notcategory);
    }
  }

  lemma SelectedHead(refs: seq<Ref>, kind: Option<Kind>, category: Option<Category>, notcategory: Option<Category>)
    requires refs != []
    ensures var ps, qs := Selected(refs, kind, category, notcategory), Selected(refs[1..], kind, category, notcategory);
            if Wanted(refs[0], kind, category, notcategory) then ps != [] && ps[0] == refs[0].pos && ps[1..] == qs
            else ps == qs
  {
  }

  /** A list holds a reference exactly when the filters let it through, and no field
      twice. */
  lemma {:induction false} SelectedIs(refs: seq<Ref>, init: bool, kind: Option<Kind>, category: Option<Category>,
                                      notcategory: Option<Category>, k: nat)
    requires Separate(refs, init) && Filters(init, kind, category) && k < |refs| && Patchable(refs[k], init)
    ensures var ps := Selected(refs, kind, category, notcategory);
            && (refs[k].pos in ps <==> Wanted(refs[k], kind, category, notcategory)) && ClearOf(ps, refs[k].pos)
    decreases refs
  {
    SelectedHead(refs, kind, category, notcategory);
    if k == 0 {
      ClearOfSelected(refs[1..], init, kind, category, notcategory, refs[0].pos);
    } else {
      SelectedIs(refs[1..], init, kind, category, notcategory, k - 1);
      if Wanted(refs[0], kind, category, notcategory) { ClearOfAt(refs[1..], init, refs[0].pos, k - 1); }
    }
  }

  lemma {:induction false} ClearOfAt(refs: seq<Ref>, init: bool, p: nat, k: nat)
    requires ClearOfRefs(refs, init, p) && k < |refs| && Patchable(refs[k], init)
    ensures Apart(p, refs[k].pos)
    decreases refs
  {
    if k > 0 { ClearOfAt(refs[1..], init, p, k - 1); }
  }

  /** A table in the image: the selected positions, each once and in any order, as
      offsets from `base`. */
  predicate Tabulates(table: seq<nat>, base: nat, ps: seq<nat>) {
    NoRepeats(table) && Members(Shifted(table, base)) == Members(ps)
  }

  function Members(ps: seq<nat>): set<nat>
    decreases ps
  {
    if ps == [] then {} else {ps[0]} + Members(ps[1..])
  }

  lemma {:induction false} InMembers(ps: seq<nat>, p: nat)
    ensures p in Members(ps) <==> p in ps
    decreases ps
  {
    if ps != [] { InMembers(ps[1..], p); }
  }

  lemma TableHas(table: seq<nat>, base: nat, ps: seq<nat>, p: nat)
    requires Tabulates(table, base, ps)
    ensures p in ps <==> p >= base && p - base in table
  {
    InMembers(ps, p);
    InMembers(Shifted(table, base), p);
    InShifted(table, base, p);
  }

  lemma {:induction false} InShifted(table: seq<nat>, base: nat, y: nat)
    ensures y in Shifted(table, base) <==> y >= base && y - base in table
    decreases table
  {
    if table != [] { InShifted(table[1..], base, y); }
  }

  lemma {:induction false} ShiftedNoRepeats(table: seq<nat>, base: nat)
    requires NoRepeats(table)
    ensures NoRepeats(Shifted(table, base))
    decreases table
  {
    if table != [] {
      ShiftedNoRepeats(table[1..], base);
      InShifted(table[1..], base, base + table[0]);
    }
  }

  lemma {:induction false} ClearOfMeans(ps: seq<nat>, p: nat)
    ensures ClearOf(ps, p) <==> forall q | q in ps :: q == p || Apart(p, q)
    decreases ps
  {
    if ps != [] { ClearOfMeans(ps[1..], p); }
  }

  /** What a pass over a table does at the field `p'` that `p` has moved to. */
  lemma PassIs(m: Memory, table: seq<nat>, base: nat, ps: seq<nat>, to: nat, delta: Word, p: nat, p': nat)
    requires Tabulates(table, base, ps) && Fields(Shifted(table, to), |m|)
    requires p >= base && p' == p - base + to && p' + 4 <= |m| && ClearOf(ps, p)
    ensures Load(Patched(m, Shifted(table, to), delta), p') ==
            if p in ps then Add32(Load(m, p'), delta) else Load(m, p')
  {
    ShiftedNoRepeats(table, to);
    InShifted(table, to, p');
    TableHas(table, base, ps, p);
    ShiftedClear(table, base, ps, to, p);
    PatchedIs(m, Shifted(table, to), delta, p');
  }

  lemma ShiftedClear(table: seq<nat>, base: nat, ps: seq<nat>, to: nat, p: nat)
    requires Tabulates(table, base, ps) && p >= base && ClearOf(ps, p)
    ensures ClearOf(Shifted(table, to), p - base + to)
  {
    ClearOfMeans(ps, p);
    ClearOfMeans(Shifted(table, to), p - base + to);
    forall q | q in Shifted(table, to)
      ensures q == p - base + to || Apart(p - base + to, q)
    {
      InShifted(table, to, q);
      TableHas(table, base, ps, q - to + base);
    }
  }

  // ------------------------------------------------------------- the main result

  /** What layoutrom.py and the allocator guarantee: references lie in their sections,
      32-bit fields do not overlap, and the destination is free memory. */
  ghost predicate Linked(init: seq<Ref>, rest: seq<Ref>, v: Move, size: nat) {
    && v.initStart <= v.initEnd <= size <= WORD && v.dest + (v.initEnd - v.initStart) <= size
    && Separate(init, true) && Separate(rest, false)
    && (forall r | r in init && Patchable(r, true) :: v.initStart <= r.pos && r.pos + 4 <= v.initEnd)
    && (forall r | r in rest && Patchable(r, false) :: r.pos + 4 <= size && Outside(r.pos, v))
  }

  predicate Outside(p: nat, v: Move) {
    p + 4 <= v.dest || v.dest + (v.initEnd - v.initStart) <= p
  }

  function AbsRelocs(init: seq<Ref>): seq<nat> {
    Selected(init, Some(Abs32), Some(Init32), None)
  }

  function RelRelocs(init: seq<Ref>): seq<nat> {
    Selected(init, Some(Pc32), None, Some(Init32))
  }

  function InitRelocs(rest: seq<Ref>): seq<nat> {
    Selected(rest, None, Some(Init32), None)
  }

  lemma ListsHave(init: seq<Ref>, k: nat)
    requires Separate(init, true) && k < |init| && Patchable(init[k], true)
    ensures var r := init[k];
            && (r.pos in AbsRelocs(init) <==> r.kind == Abs32 && r.dest == Some(Init32)) &&
                ClearOf(AbsRelocs(init), r.pos)
            && (r.pos in RelRelocs(init) <==> r.kind == Pc32 && r.dest.Some? && r.dest != Some(Init32)) &&
                ClearOf(RelRelocs(init), r.pos)
  {
    SelectedIs(init, true, Some(Abs32), Some(Init32), None, k);
    SelectedIs(init, true, Some(Pc32), None, Some(Init32), k);
  }

  /** The three lists of `writeLinkerScripts`. */
  predicate Listed(t: Tables, init: seq<Ref>, rest: seq<Ref>, v: Move, flatStart: nat) {
    && Tabulates(t.abs, v.initStart, AbsRelocs(init))
    && Tabulates(t.rel, v.initStart, RelRelocs(init))
    && Tabulates(t.init, flatStart, InitRelocs(rest))
  }

  /** Where an address of the linked image is after the move. */
  function MovedTarget(a: Word, v: Move, toInit: bool): Word
    requires v.initStart <= WORD && v.dest <= WORD
  {
    if toInit then Add32(a, Delta(v)) else a
  }

  lemma CopiedWord(m: Memory, v: Move, p: nat, p': nat)
    requires v.initStart <= v.initEnd <= |m| && v.dest + (v.initEnd - v.initStart) <= |m|
    requires v.initStart <= p && p + 4 <= v.initEnd && p' == p - v.initStart + v.dest
    ensures Load(Copied(m, v), p') == Load(m, p)
  {
    var a, b := Copied(m, v)[p'..p' + 4], m[p..p + 4];
    forall i | 0 <= i < 4
      ensures a[i] == b[i]
    {
      assert Copied(m, v)[p' + i] == m[v.initStart..v.initEnd][p' + i - v.dest];
    }
    assert a == b;
    SameValue(m, p, Copied(m, v), p', 4);
  }

  lemma NotCopiedWord(m: Memory, v: Move, p: nat)
    requires v.initStart <= v.initEnd <= |m| && v.dest + (v.initEnd - v.initStart) <= |m|
    requires p + 4 <= |m| && Outside(p, v)
    ensures Load(Copied(m, v), p) == Load(m, p)
  {
    assert Copied(m, v)[p..p + 4] == m[p..p + 4];
    SameValue(m, p, Copied(m, v), p, 4);
  }

  /** In the copy, only the lists over the init code matter. */
  lemma InitWord(m: Memory, init: seq<Ref>, rest: seq<Ref>, v: Move, flatStart: nat, t: Tables, k: nat)
    requires TablesFit(t, v, flatStart, |m|) && Linked(init, rest, v, |m|) && Listed(t, init, rest, v, flatStart)
    requires k < |init| && (init[k].kind == Abs32 || init[k].kind == Pc32)
    ensures v.initStart <= init[k].pos && init[k].pos + 4 <= v.initEnd
    ensures Load(Relocated(m, v, flatStart, t), init[k].pos - v.initStart + v.dest) ==
            InitWordAfter(init[k], Load(m, init[k].pos), v)
  {
    assert init[k] in init && Patchable(init[k], true);
    CopyWord(m, init, v, t, k, init[k].pos, init[k].pos - v.initStart + v.dest);
    InitPassOutside(CopyPatched(m, v, t), init, rest, v, flatStart, t, init[k].pos - v.initStart + v.dest);
  }

  function InitWordAfter(r: Ref, w: Word, v: Move): Word
    requires v.initStart <= WORD && v.dest <= WORD
  {
    if r.kind == Abs32 && r.dest == Some(Init32) then Add32(w, Delta(v))
    else if r.kind == Pc32 && r.dest.Some? && r.dest != Some(Init32) then Add32(w, Neg32(Delta(v)))
    else w
  }

  lemma CopyWord(m: Memory, init: seq<Ref>, v: Move, t: Tables, k: nat, p: nat, p': nat)
    requires v.initStart <= v.initEnd <= |m| <= WORD && v.dest + (v.initEnd - v.initStart) <= |m|
    requires Fields(Shifted(t.abs, v.dest), |m|) && Fields(Shifted(t.rel, v.dest), |m|) && Separate(init, true)
    requires Tabulates(t.abs, v.initStart, AbsRelocs(init)) && Tabulates(t.rel, v.initStart, RelRelocs(init))
    requires k < |init| && (init[k].kind == Abs32 || init[k].kind == Pc32) && init[k].pos == p
    requires v.initStart <= p && p + 4 <= v.initEnd && p' == p - v.initStart + v.dest
    ensures Load(CopyPatched(m, v, t), p') == InitWordAfter(init[k], Load(m, p), v)
  {
    AbsWord(m, init, v, t, k, p, p');
    ListsHave(init, k);
    PassIs(AbsPatched(m, v, t), t.rel, v.initStart, RelRelocs(init), v.dest, Neg32(Delta(v)), p, p');
  }

  lemma AbsWord(m: Memory, init: seq<Ref>, v: Move, t: Tables, k: nat, p: nat, p': nat)
    requires v.initStart <= v.initEnd <= |m| <= WORD && v.dest + (v.initEnd - v.initStart) <= |m|
    requires Fields(Shifted(t.abs, v.dest), |m|) && Separate(init, true) &&
             Tabulates(t.abs, v.initStart, AbsRelocs(init))
    requires k < |init| && (init[k].kind == Abs32 || init[k].kind == Pc32) && init[k].pos == p
    requires v.initStart <= p && p + 4 <= v.initEnd && p' == p - v.initStart + v.dest
    ensures Load(AbsPatched(m, v, t), p') ==
            if init[k].kind == Abs32 && init[k].dest == Some(Init32) then Add32(Load(m, p), Delta(v)) else Load(m, p)
  {
    CopiedWord(m, v, p, p');
    ListsHave(init, k);
    PassIs(Copied(m, v), t.abs, v.initStart, AbsRelocs(init), v.dest, Delta(v), p, p');
  }

  lemma InitPassOutside(m: Memory, init: seq<Ref>, rest: seq<Ref>, v: Move, flatStart: nat, t: Tables, p: nat)
    requires Fields(Shifted(t.init, flatStart), |m|) && Linked(init, rest, v, |m|) &&
             Listed(t, init, rest, v, flatStart)
    requires v.dest <= p && p + 4 <= v.dest + (v.initEnd - v.initStart)
    ensures Load(Patched(m, Shifted(t.init, flatStart), Delta(v)), p) == Load(m, p)
  {
    var qs := Shifted(t.init, flatStart);
    ShiftedNoRepeats(t.init, flatStart);
    forall q | q in qs
      ensures Apart(p, q)
    {
      InShifted(t.init, flatStart, q);
      TableHas(t.init, flatStart, InitRelocs(rest), q);
      var r := SelectedFrom(rest, None, Some(Init32), None, q);
      assert Patchable(r, false);
    }
    ClearOfMeans(qs, p);
    PatchedIs(m, qs, Delta(v), p);
  }

  lemma {:induction false} SelectedFrom(refs: seq<Ref>, kind: Option<Kind>, category: Option<Category>,
                                        notcategory: Option<Category>, q: nat)
    returns (r: Ref)
    requires q in Selected(refs, kind, category, notcategory)
    ensures r in refs && r.pos == q && Wanted(r, kind, category, notcategory)
    decreases refs
  {
    SelectedHead(refs, kind, category, notcategory);
    if Wanted(refs[0], kind, category, notcategory) && q == refs[0].pos {
      r := refs[0];
    } else {
      r := SelectedFrom(refs[1..], kind, category, notcategory, q);
    }
  }

  /** Outside the copy, only the list over the other code matters. */
  lemma RestWord(m: Memory, init: seq<Ref>, rest: seq<Ref>, v: Move, flatStart: nat, t: Tables, k: nat)
    requires TablesFit(t, v, flatStart, |m|) && Linked(init, rest, v, |m|) && Listed(t, init, rest, v, flatStart)
    requires k < |rest| && (rest[k].kind == Abs32 || rest[k].kind == Pc32)
    ensures rest[k].pos + 4 <= |m|
    ensures var r, w := rest[k], Load(m, rest[k].pos);
            Load(Relocated(m, v, flatStart, t), r.pos) == if r.dest == Some(Init32) then Add32(w, Delta(v)) else w
  {
    hide Selected, Shifted, Patched, Load, Separate, ClearOf, NoRepeats, Members, CopyPatched;
    var r := rest[k];
    assert r in rest && Patchable(r, false);
    CopyPassesOutside(m, init, rest, v, flatStart, t, r.pos);
    SelectedIs(rest, false, None, Some(Init32), None, k);
    var ps := InitRelocs(rest);
    TableHas(t.init, flatStart, ps, r.pos);
    ShiftedNoRepeats(t.init, flatStart);
    InShifted(t.init, flatStart, r.pos);
    SameClear(t.init, flatStart, ps, r.pos);
    PatchedIs(CopyPatched(m, v, t), Shifted(t.init, flatStart), Delta(v), r.pos);
  }

  lemma SameClear(table: seq<nat>, base: nat, ps: seq<nat>, p: nat)
    requires Tabulates(table, base, ps) && ClearOf(ps, p)
    ensures ClearOf(Shifted(table, base), p)
  {
    ClearOfMeans(ps, p);
    ClearOfMeans(Shifted(table, base), p);
    forall q | q in Shifted(table, base)
      ensures q == p || Apart(p, q)
    {
      InShifted(table, base, q);
      TableHas(table, base, ps, q);
    }
  }

  lemma CopyPassesOutside(m: Memory, init: seq<Ref>, rest: seq<Ref>, v: Move, flatStart: nat, t: Tables, p: nat)
    requires TablesFit(t, v, flatStart, |m|) && Linked(init, rest, v, |m|) && Listed(t, init, rest, v, flatStart)
    requires p + 4 <= |m| && Outside(p, v)
    ensures Load(CopyPatched(m, v, t), p) == Load(m, p)
  {
    var m1 := Copied(m, v);
    NotCopiedWord(m, v, p);
    CopyPassOutside(m1, t.abs, AbsRelocs(init), init, rest, v, Delta(v), Some(Abs32), Some(Init32), None, p);
    CopyPassOutside(AbsPatched(m, v, t), t.rel, RelRelocs(init), init, rest, v,
                    Neg32(Delta(v)), Some(Pc32), None, Some(Init32), p);
  }

  lemma CopyPassOutside(m: Memory, table: seq<nat>, ps: seq<nat>, init: seq<Ref>, rest: seq<Ref>, v: Move, delta: Word,
                        kind: Option<Kind>, category: Option<Category>, notcategory: Option<Category>, p: nat)
    requires Linked(init, rest, v, |m|) && Fields(Shifted(table, v.dest), |m|) && Filters(true, kind, category)
    requires ps == Selected(init, kind, category, notcategory) && Tabulates(table, v.initStart, ps)
    requires p + 4 <= |m| && Outside(p, v)
    ensures Load(Patched(m, Shifted(table, v.dest), delta), p) == Load(m, p)
  {
    var qs := Shifted(table, v.dest);
    ShiftedNoRepeats(table, v.dest);
    forall q | q in qs
      ensures Apart(p, q)
    {
      InShifted(table, v.dest, q);
      TableHas(table, v.initStart, ps, q - v.dest + v.initStart);
      var r := SelectedFrom(init, kind, category, notcategory, q - v.dest + v.initStart);
      assert Patchable(r, true);
    }
    ClearOfMeans(qs, p);
    PatchedIs(m, qs, delta, p);
  }

  /** Every 32-bit reference in the init code that a section resolves still refers, from
      its new place, to its target: moved along when that is init code, where it was
      otherwise.  A symbol that no section defines is skipped by the lists, which loses
      exactly the relative references to it (unless nothing moved). */
  lemma InitReferencesKept(m: Memory, init: seq<Ref>, rest: seq<Ref>, v: Move, flatStart: nat, t: Tables, k: nat)
    requires TablesFit(t, v, flatStart, |m|) && Linked(init, rest, v, |m|) && Listed(t, init, rest, v, flatStart)
    requires k < |init| && (init[k].kind == Abs32 || init[k].kind == Pc32)
    ensures v.initStart <= init[k].pos && init[k].pos + 4 <= v.initEnd
    ensures var r, m' := init[k], Relocated(m, v, flatStart, t);
            Resolved(m', r.pos - v.initStart + v.dest, r.kind) ==
              MovedTarget(Resolved(m, r.pos, r.kind), v, r.dest == Some(Init32))
            <==> (r.dest.Some? || r.kind == Abs32 || Delta(v) == 0)
  {
    hide Selected, Shifted, Patched, Load, Separate, Relocated, Listed;
    InitWord(m, init, rest, v, flatStart, t, k);
    MovedField(v, init[k].pos);
    TargetArithmetic(init[k].pos, init[k].pos - v.initStart + v.dest, Load(m, init[k].pos), Delta(v));
  }

  lemma SkipsUndefined(r: Ref, kind: Option<Kind>, category: Option<Category>, notcategory: Option<Category>)
    requires r.dest == None
    ensures Selected([r], kind, category, notcategory) == []
  {
    assert [r][1..] == [];
    assert Selected([r], kind, category, notcategory) == [] + Selected([r][1..], kind, category, notcategory) == [];
  }

  /** Four bytes of init code that are a relative reference to a symbol without a section,
      moved up by four: it refers to something else afterwards. */
  lemma LostReference()
    ensures var m, v, t := [0, 0, 0, 0, 0, 0, 0, 0], Move(0, 4, 4), Tables([], [], []);
            var r := Ref(0, Pc32, None);
            && TablesFit(t, v, 0, |m|) && Linked([r], [], v, |m|) && Listed(t, [r], [], v, 0)
            && Resolved(Relocated(m, v, 0, t), 4, Pc32) != MovedTarget(Resolved(m, 0, Pc32), v, false)
  {
    var m, v, t := [0, 0, 0, 0, 0, 0, 0, 0], Move(0, 4, 4), Tables([], [], []);
    var r := Ref(0, Pc32, None);
    assert [r][1..] == [] && [r][0] == r;
    SkipsUndefined(r, Some(Abs32), Some(Init32), None);
    SkipsUndefined(r, Some(Pc32), None, Some(Init32));
    assert ClearOfRefs([r][1..], true, r.pos) && Separate([r][1..], true) && Separate([r], true);
    InitReferencesKept(m, [r], [], v, 0, t, 0);
  }

  lemma TargetArithmetic(p: Word, p': Word, w: Word, delta: Word)
    requires p' == Add32(p, delta)
    ensures Add32(p', w) == Add32(Add32(p, w), delta)
    ensures Add32(p', Add32(w, Neg32(delta))) == Add32(p, w)
    ensures Add32(Add32(p, w), delta) == Add32(p, w) <==> delta == 0
  {
  }

  /** And so does every such reference in the code that stays. */
  lemma OtherReferencesKept(m: Memory, init: seq<Ref>, rest: seq<Ref>, v: Move, flatStart: nat, t: Tables, k: nat)
    requires TablesFit(t, v, flatStart, |m|) && Linked(init, rest, v, |m|) && Listed(t, init, rest, v, flatStart)
    requires k < |rest| && (rest[k].kind == Abs32 || rest[k].kind == Pc32)
    ensures rest[k].pos + 4 <= |m|
    ensures Resolved(Relocated(m, v, flatStart, t), rest[k].pos, rest[k].kind) ==
            MovedTarget(Resolved(m, rest[k].pos, rest[k].kind), v, rest[k].dest == Some(Init32))
  {
    RestWord(m, init, rest, v, flatStart, t, k);
    StayArithmetic(rest[k].pos, Load(m, rest[k].pos), Delta(v));
  }

  lemma StayArithmetic(p: Word, w: Word, delta: Word)
    ensures Add32(p, Add32(w, delta)) == Add32(Add32(p, w), delta)
  {
  }
}
