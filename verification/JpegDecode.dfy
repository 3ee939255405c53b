/** DEC_REC and `dec_rec2`: one run and value from the bit stream, by look-ahead
    table when ten bits are enough and bit by bit when they are not. */
module JpegDecode {
  import opened Basics
  import opened JpegBits
  import opened JpegHuffman

  /** What canonical decoding gives for the code `(i, j)` at `pos`: the run and size
      of its symbol, the EXTENDed value of the bits after it, and the position
      behind them. */
  ghost predicate Canonical(lens: seq<nat>, symbols: seq<Byte>, data: seq<Byte>, pos: nat, i: nat, j: nat,
                            run: nat, value: int, end: int)
    requires WellSized(lens, symbols) && IsCode(lens, i, j)
  {
    var sym := Symbol(lens, symbols, i, j);
    var s := sym % 16;
    && run == sym / 16
    && value == Extend(Window(data, pos + i + 1, s), s)
    && end == pos + i + 1 + s
  }

  /** The mark left by a code that does not exist. */
  const BAD_HUFF := -1

  ghost predicate HasCode(lens: seq<nat>, data: seq<Byte>, pos: nat) {
    exists i, j :: IsCode(lens, i, j) && Starts(lens, data, pos, i, j)
  }

  /** The table entry for the ten bits at `pos`, when a code of at most ten bits
      starts there. */
  lemma EntryOfCode(lens: seq<nat>, symbols: seq<Byte>, data: seq<Byte>, pos: nat, i: nat, j: nat)
    requires WellSized(lens, symbols) && IsCode(lens, i, j) && i < DEC_BITS && Starts(lens, data, pos, i, j)
    ensures var r := Window(data, pos, DEC_BITS);
            && r < |FullTable(lens, symbols)|
            && FullTable(lens, symbols)[r] ==
                Entry(i, Symbol(lens, symbols, i, j), Window(data, pos + i + 1, DEC_BITS - 1 - i))
  {
    WindowShr(data, pos, DEC_BITS, DEC_BITS - 1 - i);
    WindowLow(data, pos, DEC_BITS, DEC_BITS - 1 - i);
    TableHit(lens, symbols, i, j, Window(data, pos, DEC_BITS));
  }

  lemma OwnerOfEntry(lens: seq<nat>, symbols: seq<Byte>, data: seq<Byte>, pos: nat) returns (i: nat, j: nat)
    requires WellSized(lens, symbols)
    requires Window(data, pos, DEC_BITS) < |FullTable(lens, symbols)|
    ensures i < DEC_BITS && IsCode(lens, i, j) && Starts(lens, data, pos, i, j)
  {
    i, j := TableOwner(lens, symbols, DEC_BITS - 1, lens[DEC_BITS - 1], Window(data, pos, DEC_BITS));
    WindowShr(data, pos, DEC_BITS, DEC_BITS - 1 - i);
  }

  /** An entry with the value in it holds the canonical result. */
  lemma KnownEntry(lens: seq<nat>, symbols: seq<Byte>, data: seq<Byte>, pos: nat, i: nat, j: nat)
    requires WellSized(lens, symbols) && IsCode(lens, i, j) && i < DEC_BITS
    requires i + Symbol(lens, symbols, i, j) % 16 < DEC_BITS
    ensures var e := Entry(i, Symbol(lens, symbols, i, j), Window(data, pos + i + 1, DEC_BITS - 1 - i));
            && e / 128 % 2 == 1 && e % 128 <= DEC_BITS
            && Canonical(lens, symbols, data, pos, i, j, e / 0x100 % 16, e / 0x1_0000, pos + DEC_BITS - e % 128)
  {
    var sym := Symbol(lens, symbols, i, j);
    var v, n := sym % 16, DEC_BITS - 1 - i;
    WindowShr(data, pos + i + 1, n, n - v);
    Unpack(Extend(Window(data, pos + i + 1, v), v), sym / 16, true, DEC_BITS - (i + 1 + v));
  }

  /** An entry without the value holds the run, the size and the code length. */
  lemma SizeEntry(lens: seq<nat>, symbols: seq<Byte>, data: seq<Byte>, pos: nat, i: nat, j: nat)
    requires WellSized(lens, symbols) && IsCode(lens, i, j) && i < DEC_BITS
    requires i + Symbol(lens, symbols, i, j) % 16 >= DEC_BITS
    ensures var sym := Symbol(lens, symbols, i, j);
            var e := Entry(i, sym, Window(data, pos + i + 1, DEC_BITS - 1 - i));
            && e / 128 % 2 == 0 && e % 128 == DEC_BITS - (i + 1)
            && e / 0x100 % 16 == sym / 16 && e / 0x1_0000 == sym % 16 >= 1 && e != 0
  {
    var sym := Symbol(lens, symbols, i, j);
    Unpack(sym % 16, sym / 16, false, DEC_BITS - (i + 1));
  }

  /** Past the table: with no code of at most ten bits, the ten bits lie at or above
      the end of every code of ten bits. */
  lemma BeyondTable(lens: seq<nat>, symbols: seq<Byte>, r: nat)
    requires WellSized(lens, symbols) && r >= |FullTable(lens, symbols)|
    ensures r >= First(lens, DEC_BITS - 1) + lens[DEC_BITS - 1]
  {
    assert Doubled(First(lens, DEC_BITS - 1) + lens[DEC_BITS - 1], 0) == First(lens, DEC_BITS - 1) + lens[DEC_BITS - 1];
  }

  /** The symbol of a code of `n` + 1 bits, once DECODE has stopped at that length. */
  method SymbolAt(hu: HuffTable, ghost lens: seq<nat>, ghost symbols: seq<Byte>, n: nat, c: nat, ghost j: nat)
    returns (sym: Byte)
    requires hu.Limits(lens) && WellSized(lens, symbols) && hu.Copied(symbols, FirstIndex(lens, 16))
    requires DEC_BITS <= n < 16 && IsCode(lens, n, j) && c == First(lens, n) + j
    ensures sym == Symbol(lens, symbols, n, j)
  {
    hide First, FirstIndex, Symbol, WellSized, HuffTable.Limits, HuffTable.Copied;
    IndexIs(hu, lens, symbols, n, j);
    sym := hu.vals[hu.valptr[n] + c - hu.maxcode[n - 1] * 2];
  }

  lemma IndexIs(hu: HuffTable, lens: seq<nat>, symbols: seq<Byte>, n: nat, j: nat)
    requires hu.Limits(lens) && WellSized(lens, symbols) && hu.Copied(symbols, FirstIndex(lens, 16))
    requires 0 < n < 16 && IsCode(lens, n, j)
    ensures n < hu.valptr.Length && n < hu.maxcode.Length
    ensures var x := hu.valptr[n] + (First(lens, n) + j) - hu.maxcode[n - 1] * 2;
            0 <= x < hu.vals.Length && hu.vals[x] == Symbol(lens, symbols, n, j)
  {
    SymbolIndex(lens, symbols, n, j);
    LimitsAt(hu, lens, n);
    CopiedAt(hu, symbols, FirstIndex(lens, 16), FirstIndex(lens, n) + j);
    hide First, FirstIndex, Symbol, WellSized, HuffTable.Limits, HuffTable.Lengths, HuffTable.Copied;
    IndexSum(hu.valptr[n], FirstIndex(lens, n), First(lens, n), First(lens, n - 1) + lens[n - 1], hu.maxcode[n - 1], j);
  }

  lemma IndexSum(p: int, index: int, first: int, end: int, limit: int, j: int)
    requires p == index && first == end * 2 && limit == end
    ensures p + (first + j) - limit * 2 == index + j
  {
  }

  lemma CopiedAt(hu: HuffTable, symbols: seq<Byte>, k: nat, x: nat)
    requires hu.Copied(symbols, k) && x < k
    ensures x < hu.vals.Length && x < |symbols| && hu.vals[x] == symbols[x]
  {
  }

  lemma LimitsAt(hu: HuffTable, lens: seq<nat>, n: nat)
    requires hu.Limits(lens) && 0 < n < 16
    ensures hu.valptr.Length == 16 && hu.maxcode.Length == 17 && |lens| == 16
    ensures hu.valptr[n] == FirstIndex(lens, n) && hu.maxcode[n - 1] == First(lens, n - 1) + lens[n - 1]
  {
  }

  lemma SymbolIndex(lens: seq<nat>, symbols: seq<Byte>, n: nat, j: nat)
    requires WellSized(lens, symbols) && 0 < n < 16 && IsCode(lens, n, j)
    ensures First(lens, n) == (First(lens, n - 1) + lens[n - 1]) * 2
    ensures FirstIndex(lens, n) + j < FirstIndex(lens, 16) <= |symbols|
    ensures Symbol(lens, symbols, n, j) == symbols[FirstIndex(lens, n) + j]
  {
    FirstIndexGrows(lens, n + 1, 16);
  }

  /** `dec_rec2` after ten bits that are in no table entry: reads on, bit by bit,
      until the code drops below the end of its length's codes.  It stops with 17
      bits exactly when no code starts here. */
  method LongCode(r: BitReader, hu: HuffTable, ghost lens: seq<nat>, c0: nat, le0: nat, bi0: nat, ghost pos: nat)
    returns (n: nat, c: nat, le: nat, bi: nat)
    requires hu.Limits(lens) && r.Holds(le0, bi0)
    requires r.Position(le0) == pos + DEC_BITS && c0 == Window(r.data, pos, DEC_BITS)
    requires c0 >= First(lens, DEC_BITS - 1) + lens[DEC_BITS - 1]
    modifies r`p, r`bits, r`marker, r`bytes, r`pads
    ensures r.Holds(le, bi) && r.Position(le) == pos + n + 1
    ensures r.marker == old(r.marker) || (old(r.marker) == 0 && r.marker > 0)
    ensures DEC_BITS <= n <= 16 && c == Window(r.data, pos, n + 1)
    ensures Window(r.data, pos, n) >= First(lens, n - 1) + lens[n - 1]
    ensures n < 16 ==> c < First(lens, n) + lens[n]
  {
    hide Window, First;
    n := DEC_BITS;
    le, bi, c := AppendBit(r, c0, le0, bi0, pos, n);
    while c >= hu.maxcode[n]
      invariant DEC_BITS <= n <= 16 && r.Holds(le, bi) && r.Position(le) == pos + n + 1
      invariant c == Window(r.data, pos, n + 1)
      invariant Window(r.data, pos, n) >= First(lens, n - 1) + lens[n - 1]
      invariant r.marker == old(r.marker) || (old(r.marker) == 0 && r.marker > 0)
      decreases 16 - n
    {
      SeventeenBits(r.data, pos, n + 1);
      n := n + 1;
      le, bi, c := AppendBit(r, c, le, bi, pos, n);
    }
  }

  /** `c = (c << 1) | GETBITS(in, 1)`. */
  method AppendBit(r: BitReader, c: nat, le: nat, bi: nat, ghost pos: nat, ghost n: nat)
    returns (le': nat, bi': nat, c': nat)
    requires r.Holds(le, bi) && r.Position(le) == pos + n && c == Window(r.data, pos, n)
    modifies r`p, r`bits, r`marker, r`bytes, r`pads
    ensures r.Holds(le', bi') && r.Position(le') == pos + n + 1 && c' == Window(r.data, pos, n + 1)
    ensures r.marker == old(r.marker) || (old(r.marker) == 0 && r.marker > 0)
  {
    var bit;
    le', bi', bit := r.GetBits(le, bi, 1, pos + n);
    NextBit(r.data, pos, n);
    hide Window;
    c' := 2 * c + bit;
  }

  lemma NextBit(data: seq<Byte>, pos: nat, n: nat)
    ensures Window(data, pos, n + 1) == 2 * Window(data, pos, n) + Window(data, pos + n, 1)
  {
    assert Window(data, pos + n, 0) == 0;
  }

  lemma SeventeenBits(data: seq<Byte>, pos: nat, n: nat)
    requires n <= 17
    ensures Window(data, pos, n) < 0x20000
  {
    WindowBelow(data, pos, n);
    Pow2Monotone(n, 17);
    Pow2Small();
    Pow2Add(8, 8);
    Pow2Add(16, 1);
  }

  lemma NoCode(lens: seq<nat>, data: seq<Byte>, pos: nat)
    requires |lens| == 16 && Window(data, pos, 16) >= First(lens, 15) + lens[15]
    ensures !HasCode(lens, data, pos)
  {
    forall i, j | IsCode(lens, i, j) ensures !Starts(lens, data, pos, i, j) {
      if Starts(lens, data, pos, i, j) {
        CodeIsBelow(lens, data, pos, i, j);
      }
    }
  }

  lemma CodeIsBelow(lens: seq<nat>, data: seq<Byte>, pos: nat, i: nat, j: nat)
    requires |lens| == 16 && IsCode(lens, i, j) && Starts(lens, data, pos, i, j)
    ensures Window(data, pos, 16) < First(lens, 15) + lens[15]
  {
    if i < 15 {
      LaterFirst(lens, i, 15);
      WindowShr(data, pos, 16, 15 - i);
      if Window(data, pos, 16) >= Doubled(First(lens, i) + lens[i], 15 - i) {
        ShrAtLeast(Window(data, pos, 16), First(lens, i) + lens[i], 15 - i);
      }
    }
  }

  /** Where DECODE stops, there is a code. */
  lemma StoppedAtCode(lens: seq<nat>, data: seq<Byte>, pos: nat, n: nat) returns (j: nat)
    requires |lens| == 16 && DEC_BITS <= n < 16
    requires Window(data, pos, n) >= First(lens, n - 1) + lens[n - 1]
    requires Window(data, pos, n + 1) < First(lens, n) + lens[n]
    ensures IsCode(lens, n, j) && Starts(lens, data, pos, n, j)
  {
    assert Window(data, pos, n + 1) >= 2 * Window(data, pos, n);
    assert First(lens, n) == 2 * (First(lens, n - 1) + lens[n - 1]);
    j := Window(data, pos, n + 1) - First(lens, n);
  }

  /** A decoding step that read code `(i, j)` at `pos` and the value behind it. */
  ghost predicate Found(r: BitReader, lens: seq<nat>, symbols: seq<Byte>, pos: nat, i: nat, j: nat,
                        le: nat, bi: nat, run: nat, value: int)
    reads r
    requires WellSized(lens, symbols)
  {
    && r.Holds(le, bi) && r.marker != BAD_HUFF
    && IsCode(lens, i, j) && Starts(lens, r.data, pos, i, j)
    && Canonical(lens, symbols, r.data, pos, i, j, run, value, r.Position(le))
  }

  lemma FoundBySymbol(r: BitReader, lens: seq<nat>, symbols: seq<Byte>, pos: nat, i: nat, j: nat,
                      sym: Byte, le: nat, bi: nat, value: int)
    requires WellSized(lens, symbols) && IsCode(lens, i, j) && sym == Symbol(lens, symbols, i, j)
    requires r.Holds(le, bi) && r.marker != BAD_HUFF && Starts(lens, r.data, pos, i, j)
    requires value == Extend(Window(r.data, pos + i + 1, sym % 16), sym % 16)
    requires r.Position(le) == pos + i + 1 + sym % 16
    ensures Found(r, lens, symbols, pos, i, j, le, bi, sym / 16, value)
  {
  }

  /** RECEIVE and EXTEND: the value bits behind a code. */
  method Receive(r: BitReader, size: nat, le0: nat, bi0: nat, ghost at: nat) returns (value: int, le: nat, bi: nat)
    requires r.Holds(le0, bi0) && size < 16 && r.Position(le0) == at
    modifies r`p, r`bits, r`marker, r`bytes, r`pads
    ensures r.Holds(le, bi) && r.Position(le) == at + size
    ensures value == Extend(Window(r.data, at, size), size)
    ensures r.marker == old(r.marker) || (old(r.marker) == 0 && r.marker > 0)
  {
    le, bi := le0, bi0;
    if size == 0 {
      return 0, le, bi;
    }
    var c;
    le, bi, c := r.GetBits(le, bi, size, at);
    value := if c < Pow2(size - 1) then c - Pow2(size) + 1 else c;
  }

  function LookUp(lens: seq<nat>, symbols: seq<Byte>, r: nat): int
    requires WellSized(lens, symbols)
  {
    At(FullTable(lens, symbols), r)
  }

  // The fields of an entry.

  predicate Known(e: int) { e / 128 % 2 == 1 }

  function Back(e: int): nat { e % 128 }

  function Run(e: int): nat { e / 0x100 % 16 }

  function Value(e: int): int { e / 0x1_0000 }

  /** What an entry that belongs to code `(i, j)` says about the stream: with the
      value known, the canonical result; otherwise the run, the size and how many
      of the ten bits lie behind the code. */
  ghost predicate Says(lens: seq<nat>, symbols: seq<Byte>, data: seq<Byte>, pos: nat, i: nat, j: nat, e: int)
    requires WellSized(lens, symbols)
  {
    && e != 0 && i < DEC_BITS && IsCode(lens, i, j) && Starts(lens, data, pos, i, j) && Back(e) <= DEC_BITS
    && if Known(e) then Canonical(lens, symbols, data, pos, i, j, Run(e), Value(e), pos + DEC_BITS - Back(e))
       else
         && Back(e) == DEC_BITS - (i + 1)
         && Run(e) == Symbol(lens, symbols, i, j) / 16 && Value(e) == Symbol(lens, symbols, i, j) % 16
  }

  lemma EntrySays(lens: seq<nat>, symbols: seq<Byte>, data: seq<Byte>, pos: nat, i: nat, j: nat)
    requires WellSized(lens, symbols) && IsCode(lens, i, j) && i < DEC_BITS && Starts(lens, data, pos, i, j)
    ensures Says(lens, symbols, data, pos, i, j, LookUp(lens, symbols, Window(data, pos, DEC_BITS)))
  {
    EntryOfCode(lens, symbols, data, pos, i, j);
    if i + Symbol(lens, symbols, i, j) % 16 < DEC_BITS {
      KnownEntry(lens, symbols, data, pos, i, j);
    } else {
      SizeEntry(lens, symbols, data, pos, i, j);
    }
  }

  lemma ReadEntry(lens: seq<nat>, symbols: seq<Byte>, data: seq<Byte>, pos: nat, e: int) returns (i: nat, j: nat)
    requires WellSized(lens, symbols) && e == LookUp(lens, symbols, Window(data, pos, DEC_BITS))
    ensures e == 0 ==> Window(data, pos, DEC_BITS) >= First(lens, DEC_BITS - 1) + lens[DEC_BITS - 1]
    ensures e != 0 ==> Says(lens, symbols, data, pos, i, j, e)
  {
    var r := Window(data, pos, DEC_BITS);
    i, j := 0, 0;
    if r < |FullTable(lens, symbols)| {
      i, j := OwnerOfEntry(lens, symbols, data, pos);
      EntrySays(lens, symbols, data, pos, i, j);
    } else {
      BeyondTable(lens, symbols, r);
    }
  }

  /** `dec_rec2` with an entry that holds the run and the size: gives back the bits
      behind the code and receives the value. */
  method SizedCode(r: BitReader, ghost lens: seq<nat>, ghost symbols: seq<Byte>, e: int, le0: nat, bi0: nat,
                   ghost pos: nat, ghost i: nat, ghost j: nat)
    returns (run: nat, value: int, le: nat, bi: nat)
    requires WellSized(lens, symbols) && r.Holds(le0, bi0) && r.marker != BAD_HUFF
    requires Says(lens, symbols, r.data, pos, i, j, e) && !Known(e)
    requires r.Position(le0) == pos + DEC_BITS && le0 + DEC_BITS <= 32 && le0 + DEC_BITS <= r.Loaded()
    modifies r
    ensures Found(r, lens, symbols, pos, i, j, le, bi, run, value)
  {
    UngetBits(r, le0, bi0, Back(e));
    run := Run(e);
    value, le, bi := Receive(r, Value(e), le0 + Back(e), bi0, pos + i + 1);
  }

  /** `dec_rec2` with no entry.  A code that does not exist leaves the pending count
      where it was when the source last stored it. */
  method UnlistedCode(r: BitReader, hu: HuffTable, ghost lens: seq<nat>, ghost symbols: seq<Byte>, c: nat,
                      le0: nat, bi0: nat, ghost pos: nat)
    returns (run: nat, value: int, le: nat, bi: nat, ghost found: bool, ghost i: nat, ghost j: nat)
    requires hu.Limits(lens) && WellSized(lens, symbols) && hu.Copied(symbols, FirstIndex(lens, 16))
    requires r.Holds(le0, bi0) && r.marker != BAD_HUFF && r.Position(le0) == pos + DEC_BITS
    requires c == Window(r.data, pos, DEC_BITS) >= First(lens, DEC_BITS - 1) + lens[DEC_BITS - 1]
    modifies r
    ensures found ==> Found(r, lens, symbols, pos, i, j, le, bi, run, value)
    ensures !found ==> !HasCode(lens, r.data, pos) && r.marker == BAD_HUFF && value == 0
  {
    hide Window, First, Canonical, Starts, IsCode, HasCode, Symbol;
    var n, k;
    n, k, le, bi := LongCode(r, hu, lens, c, le0, bi0, pos);
    i, j := n, 0;
    found := false;
    if n >= 16 {
      NoCode(lens, r.data, pos);
      r.marker := BAD_HUFF;
      return c, 0, le0, r.bits, false, i, j;
    }
    j := StoppedAtCode(lens, r.data, pos, n);
    found := true;
    var sym := SymbolAt(hu, lens, symbols, n, k, j);
    run, value, le, bi := LongValue(r, lens, symbols, sym, le, bi, pos, n, j);
  }

  method LongValue(r: BitReader, ghost lens: seq<nat>, ghost symbols: seq<Byte>, sym: Byte, le0: nat, bi0: nat,
                   ghost pos: nat, ghost n: nat, ghost j: nat)
    returns (run: nat, value: int, le: nat, bi: nat)
    requires WellSized(lens, symbols) && r.Holds(le0, bi0) && r.marker != BAD_HUFF && r.Position(le0) == pos + n + 1
    requires IsCode(lens, n, j) && Starts(lens, r.data, pos, n, j) && sym == Symbol(lens, symbols, n, j)
    modifies r
    ensures Found(r, lens, symbols, pos, n, j, le, bi, run, value)
  {
    run := sym / 16;
    value, le, bi := Receive(r, sym % 16, le0, bi0, pos + n + 1);
    FoundBySymbol(r, lens, symbols, pos, n, j, sym, le, bi, value);
  }

  /** An entry that holds the value: the bits behind it are given back. */
  lemma ValueInTable(r: BitReader, lens: seq<nat>, symbols: seq<Byte>, e: int, le: nat, bi: nat, pos: nat,
                     i: nat, j: nat)
    requires WellSized(lens, symbols) && r.Holds(le, bi) && r.marker != BAD_HUFF
    requires Says(lens, symbols, r.data, pos, i, j, e) && Known(e)
    requires r.Position(le) == pos + DEC_BITS && le + DEC_BITS <= 32 && le + DEC_BITS <= r.Loaded()
    ensures Found(r, lens, symbols, pos, i, j, le + Back(e), bi, Run(e), Value(e))
  {
    UngetBits(r, le, bi, Back(e));
  }

  /** DEC_REC: the run and value at the reader's position, by whichever of the three
      paths the table chooses.  It succeeds exactly when a code starts there, and
      then delivers what canonical decoding of that code gives. */
  method DecRec(r: BitReader, hu: HuffTable, ghost lens: seq<nat>, ghost symbols: seq<Byte>, le0: nat, bi0: nat,
                ghost pos: nat)
    returns (run: nat, value: int, le: nat, bi: nat, ghost found: bool, ghost i: nat, ghost j: nat)
    requires hu.Built(lens, symbols) && r.Holds(le0, bi0) && r.marker != BAD_HUFF && r.Position(le0) == pos
    modifies r
    ensures found ==> Found(r, lens, symbols, pos, i, j, le, bi, run, value)
    ensures found ==>
              && i < 16 && j < lens[i] && hu.valptr[i] + j < |symbols|
              && Window(r.data, pos, i + 1) == hu.maxcode[i] - lens[i] + j
              && var sym: nat := symbols[hu.valptr[i] + j];
              && var s, at := sym % 16, pos + i + 1;
              && run == sym / 16 && r.Position(le) == at + s && (s == 0 ==> value == 0)
              && (s > 0 ==>
                    && Pow2(s - 1) <= (if value < 0 then -value else value) < Pow2(s)
                    && (value > 0 <==> Window(r.data, at, 1) == 1)
                    && (value > 0 ==> value == Window(r.data, at, s))
                    && (value < 0 ==> value == Window(r.data, at, s) - Pow2(s) + 1))
    ensures !found ==>
              forall k | 0 <= k < 16 :: !(hu.maxcode[k] - lens[k] <= Window(r.data, pos, k + 1) < hu.maxcode[k])
    ensures !found ==> !HasCode(lens, r.data, pos) && r.marker == BAD_HUFF && value == 0
  {
    hide Window, First, FirstIndex, FullTable, Canonical, Starts, IsCode, HasCode, Symbol, Found, Says;
    hide BitReader.Holds, BitReader.Position, BitReader.Loaded, HuffTable.Looks, HuffTable.Copied;
    var c;
    le, bi, c := r.GetBits(le0, bi0, DEC_BITS, pos);
    var e := FetchEntry(hu, lens, symbols, r.data, pos, c);
    i, j := ReadEntry(lens, symbols, r.data, pos, e);
    found := true;
    assert Known(e) ==> e != 0;
    hide Known, Back, Run, Value;
    if Known(e) {
      ValueInTable(r, lens, symbols, e, le, bi, pos, i, j);
      run, value, le := Run(e), Value(e), le + Back(e);
    } else if e != 0 {
      run, value, le, bi := SizedCode(r, lens, symbols, e, le, bi, pos, i, j);
    } else {
      run, value, le, bi, found, i, j := UnlistedCode(r, hu, lens, symbols, c, le, bi, pos);
    }
    if found {
      FoundInNumerals(r, hu, lens, symbols, pos, i, j, le, bi, run, value);
    } else {
      NoneInNumerals(hu, lens, symbols, r.data, pos);
    }
  }

  /** What was found, in the terms of the tables and the bits. */
  lemma FoundInNumerals(r: BitReader, hu: HuffTable, lens: seq<nat>, symbols: seq<Byte>, pos: nat, i: nat, j: nat,
                        le: nat, bi: nat, run: nat, value: int)
    requires hu.Built(lens, symbols) && Found(r, lens, symbols, pos, i, j, le, bi, run, value)
    ensures
            && i < 16 && j < lens[i] && hu.valptr[i] + j < |symbols|
            && Window(r.data, pos, i + 1) == hu.maxcode[i] - lens[i] + j
            && var sym: nat := symbols[hu.valptr[i] + j];
            && var s, at := sym % 16, pos + i + 1;
            && run == sym / 16 && r.Position(le) == at + s && (s == 0 ==> value == 0)
            && (s > 0 ==>
                  && Pow2(s - 1) <= (if value < 0 then -value else value) < Pow2(s)
                  && (value > 0 <==> Window(r.data, at, 1) == 1)
                  && (value > 0 ==> value == Window(r.data, at, s))
                  && (value < 0 ==> value == Window(r.data, at, s) - Pow2(s) + 1))
  {
    hide Window, Pow2, Extend, FullTable, FirstIndex, First, Symbol, WellSized, PrefixValid, BitReader.Holds,
         HuffTable.Built;
    TablesOfCode(hu, lens, symbols, i, j);
    ValueInNumerals(r.data, pos + i + 1, Symbol(lens, symbols, i, j) % 16);
  }

  lemma TablesOfCode(hu: HuffTable, lens: seq<nat>, symbols: seq<Byte>, i: nat, j: nat)
    requires hu.Built(lens, symbols) && IsCode(lens, i, j)
    ensures WellSized(lens, symbols) && hu.valptr.Length == 16 && hu.maxcode.Length == 17
    ensures hu.maxcode[i] - lens[i] == First(lens, i)
    ensures hu.valptr[i] + j < |symbols| && symbols[hu.valptr[i] + j] == Symbol(lens, symbols, i, j)
  {
    hide First, FirstIndex, FullTable, HuffTable.Looks, PrefixValid, HuffTable.Copied;
    SymbolIs(lens, symbols, i, j);
  }

  lemma SymbolIs(lens: seq<nat>, symbols: seq<Byte>, i: nat, j: nat)
    requires WellSized(lens, symbols) && IsCode(lens, i, j)
    ensures FirstIndex(lens, i) + j < |symbols| && symbols[FirstIndex(lens, i) + j] == Symbol(lens, symbols, i, j)
  {
    FirstIndexGrows(lens, i + 1, 16);
  }

  lemma ValueInNumerals(data: seq<Byte>, at: nat, s: nat)
    ensures var value := Extend(Window(data, at, s), s);
            && (s == 0 ==> value == 0)
            && (s > 0 ==>
                  && Pow2(s - 1) <= (if value < 0 then -value else value) < Pow2(s)
                  && (value > 0 <==> Window(data, at, 1) == 1)
                  && (value > 0 ==> value == Window(data, at, s))
                  && (value < 0 ==> value == Window(data, at, s) - Pow2(s) + 1))
  {
    if s > 0 {
      WindowBelow(data, at, s);
      ValueOfBits(Window(data, at, s), s);
      FirstBit(data, at, s);
    }
  }

  /** The first of `s` bits is their highest. */
  lemma FirstBit(data: seq<Byte>, at: nat, s: nat)
    requires s > 0
    ensures Window(data, at, 1) == 1 <==> Window(data, at, s) >= Pow2(s - 1)
  {
    WindowBelow(data, at, s);
    WindowBelow(data, at, 1);
    WindowShr(data, at, s, s - 1);
    DoubledIsProduct(1, s - 1);
    if Window(data, at, s) >= Pow2(s - 1) {
      ShrAtLeast(Window(data, at, s), 1, s - 1);
    } else {
      ShrBelow(Window(data, at, s), s - 1, s - 1);
    }
  }

  lemma NoneInNumerals(hu: HuffTable, lens: seq<nat>, symbols: seq<Byte>, data: seq<Byte>, pos: nat)
    requires hu.Built(lens, symbols) && !HasCode(lens, data, pos)
    ensures forall k | 0 <= k < 16 :: !(hu.maxcode[k] - lens[k] <= Window(data, pos, k + 1) < hu.maxcode[k])
  {
    hide Window, FullTable, FirstIndex, First;
    forall k | 0 <= k < 16
      ensures !(hu.maxcode[k] - lens[k] <= Window(data, pos, k + 1) < hu.maxcode[k])
    {
      if hu.maxcode[k] - lens[k] <= Window(data, pos, k + 1) {
        var j := Window(data, pos, k + 1) - First(lens, k);
        assert IsCode(lens, k, j) ==> !Starts(lens, data, pos, k, j);
      }
    }
  }

  /** The code found is the only one there, so the result is the canonical one for
      every code that starts at the position. */
  lemma FoundIsTheCode(r: BitReader, lens: seq<nat>, symbols: seq<Byte>, pos: nat, i: nat, j: nat,
                       le: nat, bi: nat, run: nat, value: int, i': nat, j': nat)
    requires WellSized(lens, symbols) && Found(r, lens, symbols, pos, i, j, le, bi, run, value)
    requires IsCode(lens, i', j') && Starts(lens, r.data, pos, i', j')
    ensures Canonical(lens, symbols, r.data, pos, i', j', run, value, r.Position(le))
  {
    OneCode(lens, r.data, pos, i, j, i', j');
  }

  method FetchEntry(hu: HuffTable, ghost lens: seq<nat>, ghost symbols: seq<Byte>, ghost data: seq<Byte>,
                    ghost pos: nat, c: nat)
    returns (e: int)
    requires hu.Shaped() && WellSized(lens, symbols) && hu.Looks(FullTable(lens, symbols))
    requires c == Window(data, pos, DEC_BITS)
    ensures e == LookUp(lens, symbols, c)
  {
    TenBits(data, pos, DEC_BITS);
    e := hu.llvals[c];
  }

  lemma TenBits(data: seq<Byte>, pos: nat, n: nat)
    requires n == 10
    ensures Window(data, pos, n) < 1024
  {
    WindowBelow(data, pos, n);
    Pow2Small();
    Pow2Add(8, 2);
  }
}
