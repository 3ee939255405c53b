/** The bit reservoir of seabios/src/jpeg.c: `fillbits` and the GETBITS and
    UNGETBITS macros over a byte-stuffed entropy-coded segment.

    The meaning of a reader is a position in one fixed stream of bits: the bytes
    of the segment with their stuffing removed (ITU-T T.81, section B.1.1.5), up to
    the first marker, and zero bits from there on. */
module JpegBits {
  import opened Basics

  // ------------------------------------------------------------ the bit stream

  /** The caller hands over a segment that does end in a marker. */
  predicate Terminated(input: seq<Byte>, p: nat)
    decreases |input| - p
  {
    && p < |input|
    && if input[p] != 0xFF then Terminated(input, p + 1)
       else p + 1 < |input| && (input[p + 1] != 0 || Terminated(input, p + 2))
  }

  /** The data bytes from `p` to the next marker. */
  function Unstuffed(input: seq<Byte>, p: nat): seq<Byte>
    requires Terminated(input, p)
    decreases |input| - p
  {
    if input[p] != 0xFF then [input[p]] + Unstuffed(input, p + 1)
    else if input[p + 1] == 0 then [0xFF] + Unstuffed(input, p + 2)
    else []
  }

  /** What an encoder writes for data bytes: a zero byte behind each 0xFF. */
  function Stuffed(data: seq<Byte>): seq<Byte>
    decreases data
  {
    if data == [] then [] else (if data[0] == 0xFF then [0xFF, 0] else [data[0]]) + Stuffed(data[1..])
  }

  /** Removing the stuffing undoes it, up to the marker. */
  lemma {:induction false} UnstuffedStuffed(data: seq<Byte>, m: Byte, rest: seq<Byte>, input: seq<Byte>, p: nat)
    requires m != 0 && p <= |input| && input[p..] == Stuffed(data) + ([0xFF, m] + rest)
    ensures Terminated(input, p) && Unstuffed(input, p) == data
    decreases data
  {
    var tail := [0xFF, m] + rest;
    if data == [] {
      assert input[p..] == tail && input[p] == tail[0] && input[p + 1] == tail[1];
    } else {
      var head: seq<Byte> := if data[0] == 0xFF then [0xFF, 0] else [data[0]];
      assert input[p..] == head + (Stuffed(data[1..]) + tail);
      assert input[p] == input[p..][0] == data[0];
      if data[0] == 0xFF { assert input[p + 1] == input[p..][1] == 0; }
      assert input[p + |head|..] == input[p..][|head|..] == Stuffed(data[1..]) + tail;
      UnstuffedStuffed(data[1..], m, rest, input, p + |head|);
    }
  }

  function BitAt(data: seq<Byte>, i: nat): Bit {
    if i / 8 < |data| then Shr(data[i / 8], 7 - i % 8) % 2 else 0
  }

  /** The number spelled by the `n` bits from position `pos`, first bit highest. */
  function Window(data: seq<Byte>, pos: nat, n: nat): nat
    decreases pos, n
  {
    if n == 0 then 0 else 2 * Window(data, pos, n - 1) + BitAt(data, pos + n - 1)
  }

  /** The `n` low bits of a number: `x & ((1 << n) - 1)`. */
  function LowBits(x: nat, n: nat): (r: nat)
    ensures r < Pow2(n)
    decreases x, n
  {
    if n == 0 then 0 else 2 * LowBits(x / 2, n - 1) + x % 2
  }

  lemma {:induction false} WindowBelow(data: seq<Byte>, pos: nat, n: nat)
    ensures Window(data, pos, n) < Pow2(n)
    decreases n
  {
    if n > 0 { WindowBelow(data, pos, n - 1); }
  }

  lemma {:induction false} WindowShr(data: seq<Byte>, pos: nat, n: nat, k: nat)
    requires k <= n
    ensures Shr(Window(data, pos, n), k) == Window(data, pos, n - k)
    decreases k
  {
    if k > 0 { WindowShr(data, pos, n, k - 1); }
  }

  lemma LowBitsPush(w: nat, b: Bit, n: nat)
    requires n > 0
    ensures LowBits(2 * w + b, n) == 2 * LowBits(w, n - 1) + b
  {
    assert (2 * w + b) / 2 == w && (2 * w + b) % 2 == b;
  }

  lemma LowBitsStep(x: nat, n: nat)
    requires n > 0
    ensures LowBits(x, n) == 2 * LowBits(x / 2, n - 1) + x % 2
  {
  }

  lemma {:induction false} WindowLow(data: seq<Byte>, pos: nat, n: nat, k: nat)
    requires k <= n
    ensures LowBits(Window(data, pos, n), k) == Window(data, pos + n - k, k)
    decreases k
  {
    if k > 0 {
      WindowLow(data, pos, n - 1, k - 1);
      LowBitsPush(Window(data, pos, n - 1), BitAt(data, pos + n - 1), k);
    }
  }

  lemma HalfOf(x: nat, b: Bit)
    ensures (2 * x + b) / 2 == x && (2 * x + b) % 2 == b
  {
  }

  lemma {:induction false} LowOfLow(x: nat, a: nat, b: nat)
    requires b <= a
    ensures LowBits(LowBits(x, a), b) == LowBits(x, b)
    decreases b
  {
    if b > 0 {
      LowOfLow(x / 2, a - 1, b - 1);
      LowBitsStep(x, a);
      LowBitsStep(x, b);
      LowBitsStep(LowBits(x, a), b);
      hide LowBits;
      HalfOf(LowBits(x / 2, a - 1), x % 2);
    }
  }

  lemma {:induction false} ShrOfLow(x: nat, a: nat, k: nat)
    requires k <= a
    ensures Shr(LowBits(x, a), k) == LowBits(Shr(x, k), a - k)
    decreases k
  {
    if k > 0 {
      ShrOfLow(x, a, k - 1);
      LowBitsStep(Shr(x, k - 1), a - k + 1);
    }
  }

  lemma {:induction false} LowOfShifted(x: nat, k: nat, b: nat, n: nat)
    requires k <= n && b < Pow2(k)
    ensures LowBits(Doubled(x, k) + b, n) == Doubled(LowBits(x, n - k), k) + b
    decreases k
  {
    if k > 0 {
      assert (Doubled(x, k) + b) / 2 == Doubled(x, k - 1) + b / 2 && (Doubled(x, k) + b) % 2 == b % 2;
      LowOfShifted(x, k - 1, b / 2, n - 1);
      LowBitsStep(Doubled(x, k) + b, n);
    }
  }

  /** Shifting bits into a word loses only what has been shifted out. */
  lemma ShiftIn(x: nat, k: nat, b: nat, n: nat)
    requires k <= n && b < Pow2(k)
    ensures LowBits(Doubled(LowBits(x, n), k) + b, n) == LowBits(Doubled(x, k) + b, n)
  {
    LowOfShifted(LowBits(x, n), k, b, n);
    LowOfLow(x, n, n - k);
    LowOfShifted(x, k, b, n);
  }

  lemma {:induction false} LowOfZero(n: nat)
    ensures LowBits(0, n) == 0
  {
    if n > 0 { LowOfZero(n - 1); }
  }

  lemma {:induction false} LowPlusHigh(x: nat, n: nat)
    ensures x == Doubled(Shr(x, n), n) + LowBits(x, n)
    decreases n
  {
    if n > 0 {
      LowPlusHigh(x / 2, n - 1);
      LowBitsStep(x, n);
      ShrFirst(x, n - 1);
    }
  }

  lemma ByteEnds(b: Byte, n: nat)
    requires n == 8
    ensures Shr(b, n) == 0 && b < Pow2(n)
  {
    Pow2Small();
    ShrBelow(b, n, n);
  }

  lemma WindowStep(data: seq<Byte>, n: nat)
    requires n > 0
    ensures Window(data, 0, n) == 2 * Window(data, 0, n - 1) + BitAt(data, n - 1)
  {
  }

  lemma DoubledStep(x: nat, k: nat)
    requires k > 0
    ensures Doubled(x, k) == 2 * Doubled(x, k - 1)
  {
  }

  /** Bit `j` of byte `k`, the first bit highest. */
  lemma BitInByte(data: seq<Byte>, k: nat, j: nat)
    requires k < |data| && j < 8
    ensures BitAt(data, 8 * k + j) == Shr(data[k], 7 - j) % 2 && Shr(data[k], 8 - j) == Shr(data[k], 7 - j) / 2
  {
    assert (8 * k + j) / 8 == k && (8 * k + j) % 8 == j;
  }

  lemma {:induction false} WindowInByte(data: seq<Byte>, k: nat, j: nat)
    requires k < |data| && j <= 8
    ensures Window(data, 0, 8 * k + j) == Doubled(Window(data, 0, 8 * k), j) + Shr(data[k], 8 - j)
    decreases j
  {
    if j == 0 {
      ByteEnds(data[k], 8);
    } else {
      WindowInByte(data, k, j - 1);
      BitInByte(data, k, j - 1);
      hide BitAt, Shr, Window, Doubled;
      WindowStep(data, 8 * k + j);
      DoubledStep(Window(data, 0, 8 * k), j);
    }
  }

  lemma ShrNone(x: nat, k: nat)
    requires k == 0
    ensures Shr(x, k) == x
  {
  }

  /** Eight more bits of the stream are one more byte of the data. */
  lemma WindowNextByte(data: seq<Byte>, j: nat, n: nat, k: nat)
    requires k == 8 && j < |data| && n == 8 * j
    ensures Window(data, 0, n + k) == Doubled(Window(data, 0, n), k) + data[j] && data[j] < Pow2(k)
  {
    hide Window, Doubled, Shr, Pow2;
    WindowInByte(data, j, k);
    ShrNone(data[j], 8 - k);
    ByteEnds(data[j], k);
  }

  /** Past the end of the data the stream is zero bits. */
  lemma {:induction false} WindowPadding(data: seq<Byte>, pos: nat, n: nat)
    requires pos >= 8 * |data|
    ensures Window(data, 0, pos + n) == Doubled(Window(data, 0, pos), n)
    decreases n
  {
    if n > 0 {
      WindowPadding(data, pos, n - 1);
      assert (pos + n - 1) / 8 >= |data|;
    }
  }

  // ------------------------------------------------------------- the 32-bit word

  /** The word holds the last 32 of the first `n` bits of the stream. */
  predicate Shows(data: seq<Byte>, n: nat, w: nat) {
    w == LowBits(Window(data, 0, n), 32)
  }

  /** `w << k | b` on a 32-bit word. */
  function Shift(w: nat, k: nat, b: nat): nat {
    LowBits(Doubled(w, k) + b, 32)
  }

  lemma ShiftedWord(x: nat, w: nat, k: nat, b: nat, y: nat, width: nat)
    requires k <= width && b < Pow2(k) && w == LowBits(x, width) && y == Doubled(x, k) + b
    ensures LowBits(Doubled(w, k) + b, width) == LowBits(y, width)
  {
    ShiftIn(x, k, b, width);
  }

  lemma ShowsMore(data: seq<Byte>, n: nat, w: nat, k: nat, b: nat)
    requires Shows(data, n, w) && k <= 32 && b < Pow2(k)
    requires Window(data, 0, n + k) == Doubled(Window(data, 0, n), k) + b
    ensures Shows(data, n + k, Shift(w, k, b))
  {
    ShiftedWord(Window(data, 0, n), w, k, b, Window(data, 0, n + k), 32);
  }

  lemma ShowsPadding(data: seq<Byte>, n: nat, w: nat, k: nat)
    requires k == 16 && n >= 8 * |data| && Shows(data, n, w)
    ensures Shows(data, n + 16, Shift(w, k, 0))
  {
    WindowPadding(data, n, k);
    ShowsMore(data, n, w, k, 0);
  }

  lemma ShowsBits(data: seq<Byte>, n: nat, w: nat, le: nat, m: nat)
    requires Shows(data, n, w) && m <= le <= 32 && le <= n
    ensures LowBits(Shr(w, le - m), m) == Window(data, n - le, m)
  {
    var x, k := Window(data, 0, n), le - m;
    ShrOfLow(x, 32, k);
    LowOfLow(Shr(x, k), 32 - k, m);
    WindowShr(data, 0, n, k);
    WindowLow(data, 0, n - k, m);
  }

  lemma ShowsNothing(data: seq<Byte>)
    ensures Shows(data, 0, 0)
  {
    LowOfZero(32);
  }

  lemma NextData(input: seq<Byte>, p: nat, data: seq<Byte>, k: nat)
    requires Terminated(input, p) && k <= |data| && Unstuffed(input, p) == data[k..]
    ensures if input[p] == 0xFF && input[p + 1] != 0 then k == |data|
            else
              var q := if input[p] == 0xFF then p + 2 else p + 1;
              && k < |data| && data[k] == input[p] && Terminated(input, q) && Unstuffed(input, q) == data[k + 1..]
  {
    if !(input[p] == 0xFF && input[p + 1] != 0) {
      var q := if input[p] == 0xFF then p + 2 else p + 1;
      assert Unstuffed(input, p) == [input[p]] + Unstuffed(input, q);
      assert data[k..][0] == data[k] && data[k..][1..] == data[k + 1..];
    }
  }

  // ---------------------------------------------------------------- the reader

  /** `struct in`.  The pending bits and their count travel as the pair `le`, `bi`
      that the source keeps in locals between LEBI_GET and LEBI_PUT. */
  class BitReader {
    const input: seq<Byte>
    /** The unstuffed bytes from the starting point to the next marker. */
    ghost const data: seq<Byte>
    var p: nat
    var bits: nat
    var marker: int
    /** How many data bytes and how many 16-bit paddings have been shifted in. */
    ghost var bytes: nat
    ghost var pads: nat

    /** `setinput`. */
    constructor (input: seq<Byte>, start: nat)
      requires Terminated(input, start)
      ensures this.input == input && data == Unstuffed(input, start) && marker == 0
      ensures Holds(0, bits) && Position(0) == 0
    {
      this.input, data := input, Unstuffed(input, start);
      p, bits, marker, bytes, pads := start, 0, 0, 0, 0;
      new;
      ShowsNothing(data);
    }

    ghost function Loaded(): nat
      reads `bytes, `pads
    {
      8 * bytes + 16 * pads
    }

    /** What is left of the input is what is left of the data; none once a marker has
        been seen, and no padding before that. */
    ghost predicate InStep()
      reads `p, `marker, `bytes, `pads
    {
      && bytes <= |data|
      && if marker == 0 then pads == 0 && Terminated(input, p) && Unstuffed(input, p) == data[bytes..]
         else bytes == |data|
    }

    /** The word `bi`, of which `le` bits are pending, holds the last 32 bits loaded. */
    ghost predicate Holds(le: nat, bi: nat)
      reads `p, `marker, `bytes, `pads
    {
      InStep() && le <= 32 && le <= Loaded() && Shows(data, Loaded(), bi)
    }

    /** The next bit to be delivered. */
    ghost function Position(le: nat): int
      reads `bytes, `pads
    {
      Loaded() - le
    }

    /** Loads whole bytes, unstuffing them, until at least 25 bits are pending or a
        marker stops it; behind a marker it loads zeros, if there is room for them. */
    method FillBits(le: nat, bi: nat) returns (le': nat)
      requires Holds(le, bi) && (le <= 16 || bi == bits)
      modifies `p, `bits, `marker, `bytes, `pads
      ensures Holds(le', bits) && Position(le') == old(Position(le)) && 16 <= le'
      ensures marker == old(marker) || (old(marker) == 0 && marker > 0)
      ensures marker == 0 ==> 24 < le'
    {
      if marker != 0 {
        le' := le;
        if le <= 16 {
          Pad(bi);
          le' := le + 16;
        }
        return;
      }
      le' := le;
      bits := bi;
      while le' <= 24 && marker == 0
        invariant Holds(le', bits) && Position(le') == old(Position(le))
        invariant le' >= 16 || marker == 0
        invariant marker >= 0
        decreases 32 - le', marker == 0
      {
        le' := LoadByte(le');
      }
    }

    /** One step of the byte loop: a data byte, or the marker that ends the data. */
    method LoadByte(le: nat) returns (le': nat)
      requires Holds(le, bits) && le <= 24 && marker == 0
      modifies `p, `bits, `marker, `bytes, `pads
      ensures Holds(le', bits) && Position(le') == old(Position(le))
      ensures if marker == 0 then le' == le + 8 else le' >= 16
      ensures marker >= 0
    {
      NextData(input, p, data, bytes);
      var b: nat := input[p];
      p := p + 1;
      if b == 0xFF {
        var m := input[p];
        p := p + 1;
        if m != 0 {
          le' := EndData(le, m);
          return;
        }
      }
      le' := DataByte(le, b);
    }

    method DataByte(le: nat, b: nat) returns (le': nat)
      requires marker == 0 && pads == 0 && le <= 24 && le <= Loaded() && Shows(data, Loaded(), bits)
      requires bytes < |data| && b == data[bytes] && Terminated(input, p) && Unstuffed(input, p) == data[bytes + 1..]
      modifies `bits, `bytes
      ensures bytes == old(bytes) + 1 && le' == le + 8 && Holds(le', bits)
    {
      hide Window, LowBits, Doubled;
      WindowNextByte(data, bytes, Loaded(), 8);
      ShowsMore(data, Loaded(), bits, 8, b);
      bits := Shift(bits, 8, b);
      bytes := bytes + 1;
      le' := le + 8;
    }

    method EndData(le: nat, m: nat) returns (le': nat)
      requires m > 0 && bytes == |data| && le <= 24 && le <= Loaded() && Shows(data, Loaded(), bits)
      modifies `bits, `marker, `pads
      ensures marker == m && le' >= 16 && Holds(le', bits) && Position(le') == old(Position(le))
    {
      marker := m;
      le' := le;
      if le <= 16 {
        Pad(bits);
        le' := le + 16;
      }
    }

    /** `dec_readmarker`: the marker that ends the data, if no more than 24 bits are left
        before it; what is pending is then dropped. */
    method ReadMarker(left: nat) returns (m: int, left': nat)
      requires Holds(left, bits)
      modifies `p, `bits, `marker, `bytes, `pads
      ensures marker == 0
      ensures m == 0 ==> old(marker) == 0 && Holds(left', bits) && Position(left') == old(Position(left)) && 24 < left'
      ensures m != 0 ==> left' == 0 && bytes == |data| && (m > 0 || m == old(marker))
    {
      left' := FillBits(left, bits);
      m := marker;
      if m == 0 {
        return;
      }
      left' := 0;
      marker := 0;
    }

    method Pad(w: nat)
      requires bytes == |data| && Shows(data, Loaded(), w)
      modifies `bits, `pads
      ensures pads == old(pads) + 1 && Shows(data, Loaded(), bits)
    {
      ShowsPadding(data, Loaded(), w, 16);
      bits := Shift(w, 16, 0);
      pads := pads + 1;
    }

    /** GETBITS: delivers the next `n` bits of the stream. */
    method GetBits(le: nat, bi: nat, n: nat, ghost at: nat) returns (le': nat, bi': nat, v: nat)
      requires Holds(le, bi) && 1 <= n <= 16 && Position(le) == at
      modifies `p, `bits, `marker, `bytes, `pads
      ensures Holds(le', bi') && Position(le') == at + n
      ensures v == Window(data, at, n)
      ensures marker == old(marker) || (old(marker) == 0 && marker > 0)
      ensures le' + n <= 32 && le' + n <= Loaded()
    {
      le', bi' := le, bi;
      if le' < n {
        le' := FillBits(le', bi');
        bi' := bits;
      }
      v := LowBits(Shr(bi', le' - n), n);
      ShowsBits(data, Loaded(), bi', le', n);
      assert Loaded() - le' == at;
      le' := le' - n;
    }
  }

  /** UNGETBITS only moves the pending count back: the bits are still in the word. */
  lemma UngetBits(r: BitReader, le: nat, bi: nat, n: nat)
    requires r.Holds(le, bi) && le + n <= 32 && le + n <= r.Loaded()
    ensures r.Holds(le + n, bi) && r.Position(le + n) == r.Position(le) - n
  {
  }
}
