/** The Huffman decoder of seabios/src/jpeg.c: `dec_makehuff` builds a 1024-entry
    look-ahead table beside the canonical tables, and DEC_REC with `dec_rec2`
    decodes through it.  Both are proved against the canonical code itself
    (ITU-T T.81, Annex C and sections F.2.2.1 and F.2.2.3). */
module JpegHuffman {
  import opened Basics
  import opened JpegBits

  const DEC_BITS := 10

  // ------------------------------------------------------ the canonical code

  /** What a DHT segment gives: how many codes there are of each length 1 to 16,
      and the symbols in order of their codes. */
  predicate WellSized(lens: seq<nat>, symbols: seq<Byte>) {
    |lens| == 16 && FirstIndex(lens, 16) <= |symbols| && FirstIndex(lens, 16) <= 256
  }

  /** The first code of length i + 1: the code after the last shorter one, with a
      zero bit appended. */
  function First(lens: seq<nat>, i: nat): nat
    requires i <= |lens|
    decreases lens, i
  {
    if i == 0 then 0 else 2 * (First(lens, i - 1) + lens[i - 1])
  }

  function FirstIndex(lens: seq<nat>, i: nat): nat
    requires i <= |lens|
    decreases lens, i
  {
    if i == 0 then 0 else FirstIndex(lens, i - 1) + lens[i - 1]
  }

  /** No length has more codes than fit behind the shorter ones. */
  predicate PrefixValid(lens: seq<nat>) {
    |lens| == 16 && forall i | 0 <= i < 16 :: First(lens, i) + lens[i] <= Pow2(i + 1)
  }

  /** `(i, j)` names the j-th code of length i + 1. */
  predicate IsCode(lens: seq<nat>, i: nat, j: nat) {
    i < 16 && i < |lens| && j < lens[i]
  }

  /** The stream has that code at position `pos`. */
  predicate Starts(lens: seq<nat>, data: seq<Byte>, pos: nat, i: nat, j: nat)
    requires IsCode(lens, i, j)
  {
    Window(data, pos, i + 1) == First(lens, i) + j
  }

  /** EXTEND: `s` bits as a signed number, the low half standing for negatives. */
  function Extend(v: nat, s: nat): int {
    if s == 0 then 0
    else if v < Pow2(s - 1) then v - Pow2(s) + 1
    else v
  }

  /** A size of `s` bits stands for the numbers of that many binary digits: positive when
      its first bit is 1, and then itself. */
  lemma ValueOfBits(v: nat, s: nat)
    requires s > 0 && v < Pow2(s)
    ensures var x := Extend(v, s);
            && Pow2(s - 1) <= (if x < 0 then -x else x) < Pow2(s) && (x > 0 <==> v >= Pow2(s - 1))
            && x == if x > 0 then v else v - (Pow2(s) - 1)
  {
  }

  /** More is more. */
  lemma ValuesGrow(v: nat, w: nat, s: nat)
    requires v < w < Pow2(s)
    ensures Extend(v, s) < Extend(w, s)
  {
    assert Pow2(s) == 2 * Pow2(s - 1);
  }

  /** Every number of `s` binary digits, of either sign, has its bits. */
  lemma BitsOfValue(x: int, s: nat) returns (v: nat)
    requires s > 0 && Pow2(s - 1) <= (if x < 0 then -x else x) < Pow2(s)
    ensures v < Pow2(s) && Extend(v, s) == x
  {
    v := if x > 0 then x else x + Pow2(s) - 1;
    assert Pow2(s) == 2 * Pow2(s - 1);
  }

  /** How many of the values of 16 bits begin with a code of at most `i` bits. */
  function Taken(lens: seq<nat>, i: nat): nat
    requires i <= 16 && i <= |lens|
    decreases lens, i
  {
    if i == 0 then 0 else Taken(lens, i - 1) + Doubled(lens[i - 1], 16 - i)
  }

  lemma {:induction false} FirstTakes(lens: seq<nat>, i: nat)
    requires i < 16 && i < |lens|
    ensures Doubled(First(lens, i) + lens[i], 15 - i) == Taken(lens, i + 1)
    decreases i
  {
    DoubledSum(First(lens, i), lens[i], 15 - i);
    if i > 0 {
      FirstTakes(lens, i - 1);
      DoubledFirst(First(lens, i - 1) + lens[i - 1], 15 - i);
    } else {
      DoubledZero(15);
    }
  }

  lemma {:induction false} DoubledSum(x: nat, y: nat, k: nat)
    ensures Doubled(x + y, k) == Doubled(x, k) + Doubled(y, k)
    decreases k
  {
    if k > 0 { DoubledSum(x, y, k - 1); }
  }

  lemma {:induction false} TakenGrows(lens: seq<nat>, i: nat, k: nat)
    requires i <= k <= 16 && k <= |lens|
    ensures Taken(lens, i) <= Taken(lens, k)
    decreases k
  {
    if i < k { TakenGrows(lens, i, k - 1); }
  }

  /** A set of lengths has a code exactly when the codes take no more values than there are
      (the Kraft inequality). */
  lemma ValidExactly(lens: seq<nat>)
    requires |lens| == 16
    ensures PrefixValid(lens) <==> Taken(lens, 16) <= 0x1_0000
  {
    assert Pow2(16) == 0x1_0000 by {
      Pow2Small();
      Pow2Add(8, 8);
    }
    FirstTakes(lens, 15);
    assert Doubled(First(lens, 15) + lens[15], 0) == First(lens, 15) + lens[15];
    if Taken(lens, 16) <= 0x1_0000 {
      forall i | 0 <= i < 16
        ensures First(lens, i) + lens[i] <= Pow2(i + 1)
      {
        FirstTakes(lens, i);
        TakenGrows(lens, i + 1, 16);
        TooMany(First(lens, i) + lens[i], i + 1, 15 - i);
      }
    }
  }

  lemma {:induction false} TooMany(x: nat, j: nat, k: nat)
    ensures Doubled(x, k) <= Pow2(j + k) ==> x <= Pow2(j)
    decreases k
  {
    if k > 0 { TooMany(x, j, k - 1); }
  }

  lemma {:induction false} LaterFirst(lens: seq<nat>, k: nat, i: nat)
    requires k < i <= |lens|
    ensures First(lens, i) >= Doubled(First(lens, k) + lens[k], i - k)
    decreases i
  {
    if k + 1 < i {
      LaterFirst(lens, k, i - 1);
    } else {
      assert Doubled(First(lens, k) + lens[k], 0) == First(lens, k) + lens[k];
    }
  }

  lemma {:induction false} ShrAtLeast(x: nat, a: nat, n: nat)
    requires x >= Doubled(a, n)
    ensures Shr(x, n) >= a
    decreases n
  {
    if n > 0 {
      ShrFirst(x, n - 1);
      ShrAtLeast(x / 2, a, n - 1);
    }
  }

  /** Before its last bit a code lies above every shorter code: the test DECODE
      makes at each length fails until the right one. */
  lemma PrefixIsLarger(lens: seq<nat>, data: seq<Byte>, pos: nat, i: nat, j: nat, k: nat)
    requires IsCode(lens, i, j) && Starts(lens, data, pos, i, j) && k < i
    ensures Window(data, pos, k + 1) >= First(lens, k) + lens[k]
  {
    LaterFirst(lens, k, i);
    DoubledMonotone(First(lens, k) + lens[k], i - k, First(lens, i), First(lens, i) + j);
    WindowShr(data, pos, i + 1, i - k);
    ShrAtLeast(Window(data, pos, i + 1), First(lens, k) + lens[k], i - k);
  }

  lemma DoubledMonotone(a: nat, n: nat, x: nat, y: nat)
    requires x >= Doubled(a, n) && y >= x
    ensures y >= Doubled(a, n)
  {
  }

  /** A stream has at most one code at a position. */
  lemma OneCode(lens: seq<nat>, data: seq<Byte>, pos: nat, i: nat, j: nat, i': nat, j': nat)
    requires IsCode(lens, i, j) && Starts(lens, data, pos, i, j)
    requires IsCode(lens, i', j') && Starts(lens, data, pos, i', j')
    ensures i == i' && j == j'
  {
    if i < i' {
      PrefixIsLarger(lens, data, pos, i', j', i);
    } else if i' < i {
      PrefixIsLarger(lens, data, pos, i, j, i');
    }
  }

  lemma {:induction false} FirstIndexGrows(lens: seq<nat>, i: nat, k: nat)
    requires i <= k <= |lens|
    ensures FirstIndex(lens, i) <= FirstIndex(lens, k)
    decreases k
  {
    if i < k { FirstIndexGrows(lens, i, k - 1); }
  }

  function Symbol(lens: seq<nat>, symbols: seq<Byte>, i: nat, j: nat): Byte
    requires WellSized(lens, symbols) && IsCode(lens, i, j)
  {
    FirstIndexGrows(lens, i + 1, 16);
    symbols[FirstIndex(lens, i) + j]
  }

  // ------------------------------------------------------- look-ahead entries

  /** An entry packs a value, a run, a flag for "the value is known" and how many
      of the ten bits were looked at in vain.  (The table is unsigned in the
      source; storing a negative entry and reading it back as int is lossless.) */
  function Pack(value: int, run: nat, known: bool, back: nat): int {
    value * 0x1_0000 + run * 0x100 + (if known then 128 else 0) + back
  }

  lemma Unpack(value: int, run: nat, known: bool, back: nat)
    requires run < 16 && back < 128
    ensures var e := Pack(value, run, known, back);
            && e / 0x1_0000 == value && e / 0x100 % 16 == run
            && (e / 128 % 2 == 1 <==> known) && e % 128 == back
  {
    var e, flag := Pack(value, run, known, back), if known then 1 else 0;
    ValueOf(e, value, run * 0x100 + flag * 128 + back);
    RunOf(e, value, run, flag * 128 + back);
    FlagOf(e, value * 256 + run, flag, back);
  }

  lemma ValueOf(e: int, value: int, low: nat)
    requires low < 0x1_0000 && e == value * 0x1_0000 + low
    ensures e / 0x1_0000 == value
  {
  }

  lemma RunOf(e: int, value: int, run: nat, low: nat)
    requires run < 16 && low < 0x100 && e == (16 * (16 * value) + run) * 0x100 + low
    ensures e / 0x100 % 16 == run
  {
    assert e / 0x100 == 16 * (16 * value) + run;
  }

  lemma FlagOf(e: int, high: int, flag: nat, back: nat)
    requires flag < 2 && back < 128 && e == (2 * high + flag) * 128 + back
    ensures e / 128 % 2 == flag && e % 128 == back
  {
    assert e / 128 == 2 * high + flag;
  }

  /** The entry for code length i + 1 and symbol `sym` when `d` follows in the
      9 - i bits left of the ten. */
  function Entry(i: nat, sym: Byte, d: nat): int
    requires i < DEC_BITS
  {
    var v := sym % 16;
    if v + i < DEC_BITS then
      Pack(Extend(Shr(d, DEC_BITS - 1 - v - i), v), sym / 16, true, DEC_BITS - (i + 1 + v))
    else
      Pack(v, sym / 16, false, DEC_BITS - (i + 1))
  }

  // ------------------------------------------------------------- the whole table

  function Block(i: nat, sym: Byte): (b: seq<int>)
    requires i < DEC_BITS
    ensures |b| == Pow2(DEC_BITS - 1 - i)
  {
    seq(Pow2(DEC_BITS - 1 - i), d requires d >= 0 => Entry(i, sym, d))
  }

  /** The entries of every code before `(i, j)`, each code owning one block of
      consecutive entries. */
  function Table(lens: seq<nat>, symbols: seq<Byte>, i: nat, j: nat): (t: seq<int>)
    requires WellSized(lens, symbols) && i < DEC_BITS && j <= lens[i]
    ensures |t| == Doubled(First(lens, i) + j, DEC_BITS - 1 - i)
    decreases lens, i, j
  {
    if j > 0 then
      DoubledNext(First(lens, i) + j - 1, DEC_BITS - 1 - i);
      Table(lens, symbols, i, j - 1) + Block(i, Symbol(lens, symbols, i, j - 1))
    else if i > 0 then
      DoubledFirst(First(lens, i - 1) + lens[i - 1], DEC_BITS - 1 - i);
      Table(lens, symbols, i - 1, lens[i - 1])
    else
      DoubledZero(DEC_BITS - 1);
      []
  }

  lemma {:induction false} DoubledZero(k: nat)
    ensures Doubled(0, k) == 0
  {
    if k > 0 { DoubledZero(k - 1); }
  }

  function FullTable(lens: seq<nat>, symbols: seq<Byte>): seq<int>
    requires WellSized(lens, symbols)
  {
    Table(lens, symbols, DEC_BITS - 1, lens[DEC_BITS - 1])
  }

  /** The table when the lengths up to `i` are done. */
  function TableBefore(lens: seq<nat>, symbols: seq<Byte>, i: nat): seq<int>
    requires WellSized(lens, symbols) && i <= 16
  {
    if i == 0 then [] else if i <= DEC_BITS then Table(lens, symbols, i - 1, lens[i - 1]) else FullTable(lens, symbols)
  }

  /** The table when the codes before `(i, j)` are done, for any length. */
  function Row(lens: seq<nat>, symbols: seq<Byte>, i: nat, j: nat): seq<int>
    requires WellSized(lens, symbols) && i < 16 && j <= lens[i]
  {
    if i < DEC_BITS then Table(lens, symbols, i, j) else FullTable(lens, symbols)
  }

  lemma {:induction false} TableExtends(lens: seq<nat>, symbols: seq<Byte>, i: nat, j: nat, i': nat, j': nat)
    requires WellSized(lens, symbols) && i < DEC_BITS && j <= lens[i] && i' < DEC_BITS && j' <= lens[i']
    requires i < i' || (i == i' && j <= j')
    ensures Table(lens, symbols, i, j) <= Table(lens, symbols, i', j')
    decreases i', j'
  {
    if i == i' && j == j' {
    } else if j' > 0 {
      TableExtends(lens, symbols, i, j, i', j' - 1);
    } else {
      TableExtends(lens, symbols, i, j, i' - 1, lens[i' - 1]);
    }
  }

  /** A hit: the ten bits begin with code `(i, j)`, and the entry is that code's. */
  lemma TableHit(lens: seq<nat>, symbols: seq<Byte>, i: nat, j: nat, r: nat)
    requires WellSized(lens, symbols) && IsCode(lens, i, j) && i < DEC_BITS
    requires Shr(r, DEC_BITS - 1 - i) == First(lens, i) + j
    ensures r < |FullTable(lens, symbols)|
    ensures FullTable(lens, symbols)[r] == Entry(i, Symbol(lens, symbols, i, j), LowBits(r, DEC_BITS - 1 - i))
  {
    var n := DEC_BITS - 1 - i;
    var before, after := Table(lens, symbols, i, j), Table(lens, symbols, i, j + 1);
    LowPlusHigh(r, n);
    assert after == before + Block(i, Symbol(lens, symbols, i, j));
    assert after[r] == Block(i, Symbol(lens, symbols, i, j))[LowBits(r, n)];
    TableExtends(lens, symbols, i, j + 1, DEC_BITS - 1, lens[DEC_BITS - 1]);
  }

  /** And nothing else is in the table. */
  lemma {:induction false} TableOwner(lens: seq<nat>, symbols: seq<Byte>, i: nat, j: nat, r: nat)
    returns (i': nat, j': nat)
    requires WellSized(lens, symbols) && i < DEC_BITS && j <= lens[i]
    requires r < |Table(lens, symbols, i, j)|
    ensures i' < DEC_BITS && IsCode(lens, i', j') && Shr(r, DEC_BITS - 1 - i') == First(lens, i') + j'
    decreases i, j
  {
    if j > 0 {
      if r < |Table(lens, symbols, i, j - 1)| {
        i', j' := TableOwner(lens, symbols, i, j - 1, r);
      } else {
        i', j' := i, j - 1;
        DoubledNext(First(lens, i) + j - 1, DEC_BITS - 1 - i);
        ShrBetween(r, First(lens, i) + j - 1, DEC_BITS - 1 - i);
      }
    } else {
      i', j' := TableOwner(lens, symbols, i - 1, lens[i - 1], r);
    }
  }

  lemma {:induction false} FirstFits(lens: seq<nat>, i: nat, j: nat)
    requires PrefixValid(lens) && i < DEC_BITS && j <= lens[i]
    ensures Doubled(First(lens, i) + j, DEC_BITS - 1 - i) <= 1024
  {
    DoubledUpTo(First(lens, i) + j, i + 1, DEC_BITS - 1 - i);
    assert Pow2(10) == 1024 by { Pow2Small(); Pow2Add(8, 2); }
  }

  lemma BlockFits(lens: seq<nat>, i: nat, j: nat, code: nat)
    requires PrefixValid(lens) && i < DEC_BITS && j < lens[i] && code == First(lens, i) + j
    ensures Doubled(code, DEC_BITS - 1 - i) + Pow2(DEC_BITS - 1 - i) <= 1024
  {
    FirstFits(lens, i, j + 1);
    DoubledNext(code, DEC_BITS - 1 - i);
    assert code + 1 == First(lens, i) + (j + 1);
  }

  lemma NextBlock(lens: seq<nat>, symbols: seq<Byte>, i: nat, j: nat, k: nat)
    requires WellSized(lens, symbols) && i < DEC_BITS && j < lens[i] && k == FirstIndex(lens, i) + j < |symbols|
    ensures Table(lens, symbols, i, j + 1) == Table(lens, symbols, i, j) + Block(i, symbols[k])
  {
  }

  lemma TableRow(lens: seq<nat>, symbols: seq<Byte>, i: nat)
    requires WellSized(lens, symbols) && i < 16
    ensures Row(lens, symbols, i, 0) == TableBefore(lens, symbols, i)
    ensures Row(lens, symbols, i, lens[i]) == TableBefore(lens, symbols, i + 1)
  {
  }

  lemma {:induction false} DoubledUpTo(x: nat, j: nat, k: nat)
    requires x <= Pow2(j)
    ensures Doubled(x, k) <= Pow2(j + k)
    decreases k
  {
    if k > 0 { DoubledUpTo(x, j, k - 1); }
  }

  function At(t: seq<int>, r: nat): int {
    if r < |t| then t[r] else 0
  }

  // ----------------------------------------------------------- building tables

  class HuffTable {
    const maxcode: array<int>
    const valptr: array<nat>
    const vals: array<Byte>
    const llvals: array<int>

    constructor ()
      ensures fresh(maxcode) && fresh(valptr) && fresh(vals) && fresh(llvals) && Shaped()
    {
      maxcode := new int[17];
      valptr := new nat[16];
      vals := new Byte[256];
      llvals := new int[1024];
    }

    ghost predicate Shaped() {
      && maxcode.Length == 17 && valptr.Length == 16 && vals.Length == 256 && llvals.Length == 1024
      && maxcode != llvals && maxcode as object != valptr && llvals as object != valptr
      && vals as object != maxcode && vals as object != valptr && vals as object != llvals
    }

    ghost predicate Lengths(lens: seq<nat>, n: nat)
      reads maxcode, valptr
      requires Shaped() && |lens| == 16 && n <= 16
    {
      forall i | 0 <= i < n :: maxcode[i] == First(lens, i) + lens[i] && valptr[i] == FirstIndex(lens, i)
    }

    /** The look-ahead table starts with `t` and is zero behind it. */
    ghost predicate Looks(t: seq<int>)
      reads llvals
    {
      |t| <= llvals.Length && forall r | 0 <= r < llvals.Length :: llvals[r] == At(t, r)
    }

    /** The tables of canonical decoding. */
    ghost predicate Limits(lens: seq<nat>)
      reads maxcode, valptr
    {
      Shaped() && |lens| == 16 && Lengths(lens, 16) && maxcode[16] == 0x20000
    }

    /** All tables are those of this code. */
    ghost predicate Built(lens: seq<nat>, symbols: seq<Byte>)
      reads maxcode, valptr, vals, llvals
    {
      && Limits(lens) && WellSized(lens, symbols) && PrefixValid(lens)
      && Copied(symbols, FirstIndex(lens, 16))
      && Looks(FullTable(lens, symbols))
    }

    /** `dec_makehuff`. */
    method Make(lens: seq<nat>, symbols: seq<Byte>)
      requires Shaped() && WellSized(lens, symbols) && PrefixValid(lens)
      modifies maxcode, valptr, vals, llvals
      ensures Built(lens, symbols)
      ensures |lens| == 16 && maxcode[0] == lens[0] && valptr[0] == 0 && maxcode[16] == 0x20000
      ensures forall i | 0 < i < 16 ::
                maxcode[i] == 2 * maxcode[i - 1] + lens[i] && valptr[i] == valptr[i - 1] + lens[i - 1]
      ensures forall k | 0 <= k < valptr[15] + lens[15] :: vals[k] == symbols[k]
    {
      hide First, FirstIndex, FullTable, Looks, PrefixValid;
      ClearLookAhead();
      AllLengths(lens, symbols);
      SetLimit(lens);
      TablesGrow(lens, symbols);
    }

    method SetLimit(lens: seq<nat>)
      requires Shaped() && |lens| == 16 && Lengths(lens, 16)
      modifies maxcode
      ensures Limits(lens)
    {
      maxcode[16] := 0x20000;
    }

    lemma TablesGrow(lens: seq<nat>, symbols: seq<Byte>)
      requires Limits(lens) && Copied(symbols, FirstIndex(lens, 16))
      ensures maxcode[0] == lens[0] && valptr[0] == 0
      ensures forall i | 0 < i < 16 ::
                maxcode[i] == 2 * maxcode[i - 1] + lens[i] && valptr[i] == valptr[i - 1] + lens[i - 1]
      ensures valptr[15] + lens[15] <= |symbols| && valptr[15] + lens[15] <= vals.Length
      ensures forall k | 0 <= k < valptr[15] + lens[15] :: vals[k] == symbols[k]
    {
      assert FirstIndex(lens, 16) == FirstIndex(lens, 15) + lens[15];
      forall i | 0 < i < 16
        ensures maxcode[i] == 2 * maxcode[i - 1] + lens[i] && valptr[i] == valptr[i - 1] + lens[i - 1]
      {
        assert First(lens, i) == 2 * (First(lens, i - 1) + lens[i - 1]);
      }
    }

    /** The loop over the lengths. */
    method AllLengths(lens: seq<nat>, symbols: seq<Byte>)
      requires Shaped() && WellSized(lens, symbols) && PrefixValid(lens) && Looks([])
      modifies maxcode, valptr, vals, llvals
      ensures Lengths(lens, 16) && Copied(symbols, FirstIndex(lens, 16)) && Looks(FullTable(lens, symbols))
    {
      var code: nat, k: nat := 0, 0;
      for i := 0 to 16
        invariant code == First(lens, i) && k == FirstIndex(lens, i)
        invariant Lengths(lens, i) && Copied(symbols, k) && Looks(TableBefore(lens, symbols, i))
      {
        code, k := OneLength(lens, symbols, i, code, k);
        code := 2 * code;
      }
    }

    ghost predicate Copied(symbols: seq<Byte>, k: nat)
      reads vals
    {
      k <= vals.Length && k <= |symbols| && forall x | 0 <= x < k :: vals[x] == symbols[x]
    }

    method ClearLookAhead()
      requires Shaped()
      modifies llvals
      ensures Looks([])
    {
      for i := 0 to 1024
        invariant forall r | 0 <= r < i :: llvals[r] == 0
      {
        llvals[i] := 0;
      }
    }

    /** All codes of length i + 1. */
    method OneLength(lens: seq<nat>, symbols: seq<Byte>, i: nat, code0: nat, k0: nat) returns (code: nat, k: nat)
      requires Shaped() && WellSized(lens, symbols) && PrefixValid(lens) && i < 16
      requires code0 == First(lens, i) && k0 == FirstIndex(lens, i) && Copied(symbols, k0)
      requires Lengths(lens, i) && Looks(TableBefore(lens, symbols, i))
      modifies maxcode, valptr, vals, llvals
      ensures code == First(lens, i) + lens[i] && k == FirstIndex(lens, i) + lens[i] && Copied(symbols, k)
      ensures Lengths(lens, i + 1) && Looks(TableBefore(lens, symbols, i + 1))
    {
      TableRow(lens, symbols, i);
      valptr[i] := k0;
      code, k := CodesOf(lens, symbols, i, code0, k0);
      EndLength(lens, i, code);
    }

    method EndLength(lens: seq<nat>, i: nat, code: nat)
      requires Shaped() && |lens| == 16 && i < 16 && code == First(lens, i) + lens[i]
      requires Lengths(lens, i) && valptr[i] == FirstIndex(lens, i)
      modifies maxcode
      ensures Lengths(lens, i + 1)
    {
      maxcode[i] := code;
    }

    /** The symbols and entries of those codes. */
    method CodesOf(lens: seq<nat>, symbols: seq<Byte>, i: nat, code0: nat, k0: nat) returns (code: nat, k: nat)
      requires Shaped() && WellSized(lens, symbols) && PrefixValid(lens) && i < 16
      requires code0 == First(lens, i) && k0 == FirstIndex(lens, i) && Copied(symbols, k0)
      requires Looks(Row(lens, symbols, i, 0))
      modifies vals, llvals
      ensures code == First(lens, i) + lens[i] && k == FirstIndex(lens, i) + lens[i] && Copied(symbols, k)
      ensures Looks(Row(lens, symbols, i, lens[i]))
    {
      code, k := code0, k0;
      for j := 0 to lens[i]
        invariant code == First(lens, i) + j && k == FirstIndex(lens, i) + j
        invariant Copied(symbols, k) && Looks(Row(lens, symbols, i, j))
      {
        OneCodeEntry(lens, symbols, i, j, code, k);
        code := code + 1;
        k := k + 1;
      }
    }

    method OneCodeEntry(lens: seq<nat>, symbols: seq<Byte>, i: nat, ghost j: nat, code: nat, k: nat)
      requires Shaped() && WellSized(lens, symbols) && PrefixValid(lens) && i < 16 && j < lens[i]
      requires code == First(lens, i) + j && k == FirstIndex(lens, i) + j
      requires Copied(symbols, k) && Looks(Row(lens, symbols, i, j))
      modifies vals, llvals
      ensures Copied(symbols, k + 1) && Looks(Row(lens, symbols, i, j + 1))
    {
      FirstIndexGrows(lens, i + 1, 16);
      CopySymbol(symbols, k);
      if i < DEC_BITS {
        EntryBlock(lens, symbols, i, j, code, vals[k], k);
      }
    }

    method EntryBlock(lens: seq<nat>, symbols: seq<Byte>, i: nat, ghost j: nat, code: nat, sym: Byte, ghost k: nat)
      requires Shaped() && WellSized(lens, symbols) && PrefixValid(lens) && i < DEC_BITS && j < lens[i]
      requires code == First(lens, i) + j && k == FirstIndex(lens, i) + j < |symbols| && sym == symbols[k]
      requires Looks(Table(lens, symbols, i, j))
      modifies llvals
      ensures Looks(Table(lens, symbols, i, j + 1))
    {
      hide First, FirstIndex, Table, Block, Doubled, Pow2, PrefixValid, Looks;
      BlockFits(lens, i, j, code);
      NextBlock(lens, symbols, i, j, k);
      FillBlock(i, code, sym, Table(lens, symbols, i, j));
    }

    method CopySymbol(symbols: seq<Byte>, k: nat)
      requires Copied(symbols, k) && k < vals.Length && k < |symbols|
      modifies vals
      ensures Copied(symbols, k + 1) && vals[k] == symbols[k]
    {
      vals[k] := symbols[k];
    }

    /** The block of one code: every way its ten bits can end. */
    method FillBlock(i: nat, code: nat, sym: Byte, ghost t: seq<int>)
      requires Shaped() && i < DEC_BITS && Looks(t)
      requires |t| == Doubled(code, DEC_BITS - 1 - i) && |t| + Pow2(DEC_BITS - 1 - i) <= 1024
      modifies llvals
      ensures Looks(t + Block(i, sym))
    {
      var c := Doubled(code, DEC_BITS - 1 - i);
      var v := sym % 16;
      var d := Pow2(DEC_BITS - 1 - i);
      ghost var n := d;
      ghost var b := Block(i, sym);
      while d > 0
        invariant d <= n
        invariant forall r | 0 <= r < 1024 :: llvals[r] == if c + d <= r < c + n then b[r - c] else At(t, r)
      {
        d := d - 1;
        var x;
        if v + i < DEC_BITS {
          x := Shr(d, DEC_BITS - 1 - v - i);
          if v != 0 && x < Pow2(v - 1) {
            x := x - Pow2(v) + 1;
          }
          DryBits(d, i, v);
          x := x * 0x1_0000 + sym / 16 * 0x100 + (DEC_BITS - (i + 1 + v)) + 128;
        } else {
          x := v * 0x1_0000 + sym / 16 * 0x100 + (DEC_BITS - (i + 1));
        }
        assert x == Entry(i, sym, d);
        llvals[c + d] := x;
      }
    }
  }

  /** A value of no bits is 0. */
  lemma DryBits(d: nat, i: nat, v: nat)
    requires i + v < DEC_BITS && d < Pow2(DEC_BITS - 1 - i)
    ensures v == 0 ==> Shr(d, DEC_BITS - 1 - v - i) == 0
  {
    ShrBelow(d, DEC_BITS - 1 - i, DEC_BITS - 1 - i);
  }
}
