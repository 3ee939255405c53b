/** The decoder of coreboot/payloads/bayou/lzmadecode.c: `LzmaDecodeProperties`
    and `LzmaDecode`, proved against the packet format and its meaning. */
module LzmaDecoder {
  import opened Basics
  import opened LzmaRange
  import opened LzmaFormat
  import opened LzmaTrees
  import opened LzmaStream

  method DecodeProperties(data: seq<Byte>) returns (ok: bool, props: Props)
    ensures ok <==> |data| >= 5 && data[0] < 225
    ensures ok ==> Legal(props) && data[0] == (props.pb * 5 + props.lp) * 9 + props.lc
  {
    props := Props(0, 0, 0);
    if |data| < 5 {
      return false, props;
    }
    var prop0: int := data[0];
    if prop0 >= 9 * 5 * 5 {
      return false, props;
    }
    var pb, lp := 0, 0;
    while prop0 >= 9 * 5
      invariant 0 <= prop0 && prop0 + 45 * pb == data[0]
    {
      pb, prop0 := pb + 1, prop0 - 9 * 5;
    }
    while prop0 >= 9
      invariant 0 <= prop0 && prop0 + 9 * lp + 45 * pb == data[0]
      invariant prop0 + 9 * lp < 45
    {
      lp, prop0 := lp + 1, prop0 - 9;
    }
    return true, Props(prop0, lp, pb);
  }

  // --------------------------------------------------------- lengths, distances

  /** One flag of a packet, after the decisions `ds`. */
  method Flag(dec: RangeDecoder, index: nat, ghost c: Coder, ghost ds: seq<Decision>) returns (ok: bool, bit: Bit)
    requires index < dec.probs.Length && Decoded(dec.input, c, ds, dec.State(), true)
    modifies dec, dec.probs
    ensures dec.input == old(dec.input)
    ensures Decoded(dec.input, c, ds + [Adaptive(index, bit)], dec.State(), ok)
    ensures !ok ==> bit == 0
  {
    ghost var m := dec.State();
    ok, bit := dec.DecodeBit(index);
    DecodedThen(dec.input, c, ds, m, [Adaptive(index, bit)], dec.State(), ok);
  }

  /** One tree, after the decisions `ds`. */
  method TreeAfter(dec: RangeDecoder, base: nat, levels: nat, ghost c: Coder, ghost ds: seq<Decision>)
    returns (ok: bool, v: nat, ghost w: nat)
    requires base + Pow2(levels) <= dec.probs.Length && Decoded(dec.input, c, ds, dec.State(), true)
    modifies dec, dec.probs
    ensures dec.input == old(dec.input)
    ensures w < Pow2(levels) && (ok ==> v == w)
    ensures Decoded(dec.input, c, ds + Path(Plain(base), Pow2(levels) + w), dec.State(), ok)
  {
    ghost var m := dec.State();
    ok, v, w := DecodeTree(dec, base, levels);
    DecodedThen(dec.input, c, ds, m, Path(Plain(base), Pow2(levels) + w), dec.State(), ok);
  }

  method DecodeLength(dec: RangeDecoder, base: nat, posState: nat) returns (ok: bool, l: nat, ghost w: nat)
    requires posState < 16 && base + 514 <= dec.probs.Length
    modifies dec, dec.probs
    ensures dec.input == old(dec.input)
    ensures w < 272 && (ok ==> l == w)
    ensures Decoded(dec.input, old(dec.State()), LenCode(base, posState, w), dec.State(), ok)
  {
    hide Decoded, Path, LenCode, Pow2;
    ghost var c, ds := dec.State(), [];
    var bit;
    l, w := 0, 0;
    assert Pow2(3) == 8 && Pow2(8) == 256 by { Pow2Small(); }
    ok, bit := Flag(dec, base, c, ds);
    ds := ds + [Adaptive(base, bit)];
    if !ok {
      ShortLenCode(base, posState, 0);
      StuckEarly(dec.input, c, ds, Path(Plain(base + LEN_LOW + 8 * posState), 8), dec.State());
      return;
    }
    if bit == 0 {
      ok, l, w := TreeAfter(dec, base + LEN_LOW + 8 * posState, 3, c, ds);
      ShortLenCode(base, posState, w);
      return;
    }
    ok, l, w := SecondChoice(dec, base, posState, c, ds);
  }

  /** The second flag of a length, and what it chooses. */
  method SecondChoice(dec: RangeDecoder, base: nat, posState: nat, ghost c: Coder, ghost flags: seq<Decision>)
    returns (ok: bool, l: nat, ghost w: nat)
    requires posState < 16 && base + 514 <= dec.probs.Length
    requires flags == [] + [Adaptive(base, 1)] && Decoded(dec.input, c, flags, dec.State(), true)
    modifies dec, dec.probs
    ensures dec.input == old(dec.input)
    ensures w < 272 && (ok ==> l == w)
    ensures Decoded(dec.input, c, LenCode(base, posState, w), dec.State(), ok)
  {
    hide Decoded, Path, LenCode, Pow2;
    var bit;
    ok, bit := Flag(dec, base + LEN_CHOICE2, c, flags);
    ghost var ds := flags + [Adaptive(base + LEN_CHOICE2, bit)];
    if !ok {
      l, w := 0, 8;
      LongLenCode(base, posState, 0, 0);
      StuckEarly(dec.input, c, ds, Path(Plain(base + LEN_MID + 8 * posState), 8), dec.State());
      return;
    }
    ok, l, w := LongLength(dec, base, posState, bit, c, ds);
  }

  method LongLength(dec: RangeDecoder, base: nat, posState: nat, bit: Bit, ghost c: Coder, ghost ds: seq<Decision>)
    returns (ok: bool, l: nat, ghost w: nat)
    requires posState < 16 && base + 514 <= dec.probs.Length
    requires ds == [] + [Adaptive(base, 1)] + [Adaptive(base + LEN_CHOICE2, bit)]
    requires Decoded(dec.input, c, ds, dec.State(), true)
    modifies dec, dec.probs
    ensures dec.input == old(dec.input)
    ensures w < 272 && (ok ==> l == w)
    ensures Decoded(dec.input, c, LenCode(base, posState, w), dec.State(), ok)
  {
    hide Decoded, LenCode;
    if bit == 0 {
      ok, l, w := MidLength(dec, base, posState, c, ds);
    } else {
      ok, l, w := HighLength(dec, base, posState, c, ds);
    }
  }

  method MidLength(dec: RangeDecoder, base: nat, posState: nat, ghost c: Coder, ghost ds: seq<Decision>)
    returns (ok: bool, l: nat, ghost w: nat)
    requires posState < 16 && base + 514 <= dec.probs.Length
    requires ds == [] + [Adaptive(base, 1)] + [Adaptive(base + LEN_CHOICE2, 0)]
    requires Decoded(dec.input, c, ds, dec.State(), true)
    modifies dec, dec.probs
    ensures dec.input == old(dec.input)
    ensures w < 272 && (ok ==> l == w)
    ensures Decoded(dec.input, c, LenCode(base, posState, w), dec.State(), ok)
  {
    hide Decoded, Path, LenCode, Pow2;
    assert Pow2(3) == 8 by { Pow2Small(); }
    var v;
    ghost var x;
    ok, v, x := TreeAfter(dec, base + LEN_MID + 8 * posState, 3, c, ds);
    l, w := v + 8, x + 8;
    LongLenCode(base, posState, 0, x);
  }

  method HighLength(dec: RangeDecoder, base: nat, posState: nat, ghost c: Coder, ghost ds: seq<Decision>)
    returns (ok: bool, l: nat, ghost w: nat)
    requires posState < 16 && base + 514 <= dec.probs.Length
    requires ds == [] + [Adaptive(base, 1)] + [Adaptive(base + LEN_CHOICE2, 1)]
    requires Decoded(dec.input, c, ds, dec.State(), true)
    modifies dec, dec.probs
    ensures dec.input == old(dec.input)
    ensures w < 272 && (ok ==> l == w)
    ensures Decoded(dec.input, c, LenCode(base, posState, w), dec.State(), ok)
  {
    hide Decoded, Path, LenCode, Pow2;
    assert Pow2(8) == 256 by { Pow2Small(); }
    var v;
    ghost var x;
    ok, v, x := TreeAfter(dec, base + LEN_HIGH, 8, c, ds);
    l, w := v + 16, x + 16;
    LongLenCode(base, posState, 1, x);
  }

  lemma ShortLenCode(base: nat, posState: nat, x: nat)
    requires x < 8
    ensures LenCode(base, posState, x) == [] + [Adaptive(base, 0)] + Path(Plain(base + LEN_LOW + 8 * posState), 8 + x)
  {
  }

  lemma LongLenCode(base: nat, posState: nat, bit: Bit, x: nat)
    requires x < if bit == 0 then 8 else 256
    ensures var flags := [] + [Adaptive(base, 1)] + [Adaptive(base + LEN_CHOICE2, bit)];
            if bit == 0 then LenCode(base, posState, x + 8) == flags + Path(Plain(base + LEN_MID + 8 * posState), 8 + x)
            else LenCode(base, posState, x + 16) == flags + Path(Plain(base + LEN_HIGH), 256 + x)
  {
  }

  /** The bits below the top two of a distance. */
  method DecodeFooter(dec: RangeDecoder, top: nat, n: nat) returns (ok: bool, low: nat, ghost w: nat)
    requires 2 <= top <= 3 && 1 <= n <= 30 && dec.probs.Length >= LITERAL
    modifies dec, dec.probs
    ensures dec.input == old(dec.input)
    ensures w < Pow2(n) && (ok ==> low == w)
    ensures Decoded(dec.input, old(dec.State()), FooterCode(top, n, w), dec.State(), ok)
  {
    if n < 6 {
      SpecBaseFits(top, n);
      SpecBaseInRange(top, n);
      ok, low, w := DecodeReverse(dec, SPEC_POS + Doubled(top, n) - (2 * n + top) - 1, n);
    } else {
      ok, low, w := DecodeLongFooter(dec, n);
    }
  }

  method DecodeLongFooter(dec: RangeDecoder, n: nat) returns (ok: bool, low: nat, ghost w: nat)
    requires 6 <= n <= 30 && dec.probs.Length >= LITERAL
    modifies dec, dec.probs
    ensures dec.input == old(dec.input)
    ensures w < Pow2(n) && (ok ==> low == w)
    ensures Decoded(dec.input, old(dec.State()),
                    DirectCode(n - 4, w / 16) + ReversePath(ALIGN, 4, w % 16), dec.State(), ok)
  {
    ghost var c := dec.State();
    ghost var x, y;
    var high;
    Pow2Small();
    Pow2Add(n - 4, 4);
    low := 0;
    ok, high, x := DecodeDirectBits(dec, n - 4);
    w := 16 * x;
    assert w / 16 == x && w % 16 == 0;
    if !ok {
      StuckEarly(dec.input, c, DirectCode(n - 4, x), ReversePath(ALIGN, 4, 0), dec.State());
      return;
    }
    ghost var m := dec.State();
    ok, low, y := DecodeReverse(dec, ALIGN, 4);
    DecodedThen(dec.input, c, DirectCode(n - 4, x), m, ReversePath(ALIGN, 4, y), dec.State(), ok);
    low := 16 * high + low;
    w := 16 * x + y;
    assert w / 16 == x && w % 16 == y;
  }

  lemma JoinDistance(top: nat, n: nat, low: nat) returns (d: nat)
    requires 2 <= top <= 3 && 1 <= n <= 30 && low < Pow2(n)
    ensures d == Doubled(top, n) + low && 4 <= d < WORD
    ensures Slot(d) == 2 * n + top
    ensures DistFooter(d) == FooterCode(top, n, low)
  {
    d := Doubled(top, n) + low;
    DistanceShapeUnique(top, n, low);
    assert d >= 4 by {
      DoubledAtLeast(top, n - 1);
      assert Doubled(top, n) == 2 * Doubled(top, n - 1);
    }
    assert d < WORD by {
      DoubledRow(top, 1, n);
      Pow2Monotone(1 + n, 31);
      Pow2Of31();
      DoubledNext(top, n);
      TopFits(top, n);
    }
  }

  lemma TopFits(top: nat, n: nat)
    requires top <= 3
    ensures Doubled(top + 1, n) <= 4 * Pow2(n)
    decreases n
  {
    if n > 0 { TopFits(top, n - 1); }
  }

  /** The distance a slot and the bits below it stand for. */
  lemma FromSlot(lenState: nat, slot: nat, low: nat) returns (d: Word)
    requires 4 <= slot < 64 && low < Pow2(slot / 2 - 1)
    ensures d == Doubled(2 + slot % 2, slot / 2 - 1) + low
    ensures DistCode(lenState, d) ==
            Path(Plain(POS_SLOT + 64 * lenState), 64 + slot) + FooterCode(2 + slot % 2, slot / 2 - 1, low)
  {
    d := JoinDistance(2 + slot % 2, slot / 2 - 1, low);
    assert Slot(d) == slot;
  }

  lemma SmallDistCode(lenState: nat, d: nat)
    requires d < 4
    ensures DistCode(lenState, d) == Path(Plain(POS_SLOT + 64 * lenState), 64 + d)
  {
  }

  lemma StuckInSlot(input: seq<Byte>, c: Coder, lenState: nat, slot: nat, c': Coder) returns (w: Word)
    requires slot < 64
    requires Decoded(input, c, Path(Plain(POS_SLOT + 64 * lenState), 64 + slot), c', false)
    ensures Decoded(input, c, DistCode(lenState, w), c', false)
  {
    if slot < 4 {
      w := slot;
      SmallDistCode(lenState, w);
    } else {
      w := FromSlot(lenState, slot, 0);
      StuckEarly(input, c, Path(Plain(POS_SLOT + 64 * lenState), 64 + slot),
                 FooterCode(2 + slot % 2, slot / 2 - 1, 0), c');
    }
  }

  /** A distance less one; a value of 2^32 - 1 is the end mark. */
  method DecodeDistance(dec: RangeDecoder, lenState: nat) returns (ok: bool, d: Word, ghost w: Word)
    requires lenState < 4 && dec.probs.Length >= LITERAL
    modifies dec, dec.probs
    ensures dec.input == old(dec.input)
    ensures ok ==> d == w
    ensures Decoded(dec.input, old(dec.State()), DistCode(lenState, w), dec.State(), ok)
  {
    hide Decoded, Path, DistCode, Pow2;
    ghost var c := dec.State();
    var slot;
    ghost var x;
    d, w := 0, 0;
    assert Pow2(6) == 64 by { Pow2Small(); }
    ok, slot, x := DecodeTree(dec, POS_SLOT + 64 * lenState, 6);
    if !ok {
      w := StuckInSlot(dec.input, c, lenState, x, dec.State());
      return;
    }
    if slot < 4 {
      SmallDistCode(lenState, slot);
      return true, slot, slot;
    }
    ok, d, w := DistanceRest(dec, lenState, slot, c);
  }

  method DistanceRest(dec: RangeDecoder, lenState: nat, slot: nat, ghost c: Coder)
    returns (ok: bool, d: Word, ghost w: Word)
    requires 4 <= slot < 64 && dec.probs.Length >= LITERAL
    requires Decoded(dec.input, c, Path(Plain(POS_SLOT + 64 * lenState), 64 + slot), dec.State(), true)
    modifies dec, dec.probs
    ensures dec.input == old(dec.input)
    ensures ok ==> d == w
    ensures Decoded(dec.input, c, DistCode(lenState, w), dec.State(), ok)
  {
    hide Decoded, Path, DistCode, FooterCode, Doubled, Pow2;
    ghost var m := dec.State();
    var numDirectBits := slot / 2 - 1;
    var rep0 := 2 + slot % 2;
    var low;
    ghost var y;
    ok, low, y := DecodeFooter(dec, rep0, numDirectBits);
    w := FromSlot(lenState, slot, y);
    DecodedThen(dec.input, c, Path(Plain(POS_SLOT + 64 * lenState), 64 + slot), m,
                FooterCode(2 + slot % 2, slot / 2 - 1, y), dec.State(), ok);
    d := if ok then Doubled(rep0, numDirectBits) + low else 0;
  }

  // ------------------------------------------------------------------- packets

  // The flag lists as the branches build them up.

  function TwoFlags(s: State, posState: nat): seq<Decision> {
    [] + [Adaptive(IS_MATCH + 16 * s + posState, 1)] + [Adaptive(IS_REP + s, 1)]
  }

  lemma FirstFlags(s: State, posState: nat)
    ensures Flags(s, posState, Literal(0)) == [] + [Adaptive(IS_MATCH + 16 * s + posState, 0)]
    ensures Flags(s, posState, Match(2, 1)) ==
            [] + [Adaptive(IS_MATCH + 16 * s + posState, 1)] + [Adaptive(IS_REP + s, 0)]
  {
  }

  lemma NearFlags(s: State, posState: nat, bit: Bit)
    ensures Flags(s, posState, if bit == 0 then ShortRep else Rep(0, 2)) ==
            TwoFlags(s, posState) + [Adaptive(IS_REP_G0 + s, 0)] + [Adaptive(IS_REP0_LONG + 16 * s + posState, bit)]
  {
  }

  lemma SecondFlags(s: State, posState: nat)
    ensures Flags(s, posState, Rep(1, 2)) ==
            TwoFlags(s, posState) + [Adaptive(IS_REP_G0 + s, 1)] + [Adaptive(IS_REP_G1 + s, 0)]
  {
  }

  lemma OlderFlags(s: State, posState: nat, bit: Bit)
    ensures Flags(s, posState, Rep(if bit == 0 then 2 else 3, 2)) ==
            TwoFlags(s, posState) + [Adaptive(IS_REP_G0 + s, 1)] + [Adaptive(IS_REP_G1 + s, 1)] +
                [Adaptive(IS_REP_G2 + s, bit)]
  {
  }

  /** The queue as each kind of packet leaves it: its distance comes to the front. */
  lemma QueueRotations(r0: int, r1: int, r2: int, r3: int, len: Len)
    ensures NextReps([r0, r1, r2, r3], ShortRep) == [r0, r1, r2, r3]
    ensures NextReps([r0, r1, r2, r3], Rep(0, len)) == [r0, r1, r2, r3]
    ensures NextReps([r0, r1, r2, r3], Rep(1, len)) == [r1, r0, r2, r3]
    ensures NextReps([r0, r1, r2, r3], Rep(2, len)) == [r2, r0, r1, r3]
    ensures NextReps([r0, r1, r2, r3], Rep(3, len)) == [r3, r0, r1, r2]
    ensures forall d: Dist :: NextReps([r0, r1, r2, r3], Match(len, d)) == [d, r0, r1, r2]
    ensures forall b: Byte :: NextReps([r0, r1, r2, r3], Literal(b)) == [r0, r1, r2, r3]
  {
  }

  datatype Status = Continue | EndMark | InputExhausted | BadDistance

  class Decompressor {
    const props: Props
    const dec: RangeDecoder
    const outStream: array<Byte>
    var state: int
    var rep0: int
    var rep1: int
    var rep2: int
    var rep3: int
    var nowPos: nat
    var previousByte: Byte

    constructor (props: Props, outStream: array<Byte>)
      requires Legal(props)
      ensures this.props == props && this.outStream == outStream
      ensures fresh(dec) && fresh(dec.probs) && dec.probs.Length == NumProbs(props)
      ensures Ready() && View() == START
    {
      this.props, this.outStream := props, outStream;
      dec := new RangeDecoder(NumProbs(props));
      state, rep0, rep1, rep2, rep3 := 0, 1, 1, 1, 1;
      nowPos, previousByte := 0, 0;
    }

    ghost function View(): RawContext
      reads this, outStream
      requires nowPos <= outStream.Length && 0 <= state < 12
    {
      Context(state, [rep0, rep1, rep2, rep3], outStream[..nowPos])
    }

    /** Holds at every packet boundary. */
    ghost predicate Ready()
      reads this, dec, outStream
    {
      && Legal(props) && dec.probs.Length == NumProbs(props) && dec.probs as object != outStream
      && nowPos <= outStream.Length && 0 <= state < 12
      && Sane(View()) && previousByte == LastByte(outStream[..nowPos])
    }

    // The fields a packet may change, as against those of the range decoder.

    method LiteralPacket(ghost c: Coder, ghost ctx: Context, ghost posState: nat) returns (ok: bool, ghost p: Packet)
      requires Ready() && nowPos < outStream.Length && ctx == View() && posState == PosState(props, ctx)
      requires Decoded(dec.input, c, Flags(state, posState, Literal(0)), dec.State(), true)
      modifies this, outStream, dec, dec.probs
      ensures dec.input == old(dec.input)
      ensures p.Literal? && Decoded(dec.input, c, Code(props, ctx, p), dec.State(), ok)
      ensures nowPos <= outStream.Length && (ok ==> Applied(ctx, p))
    {
      ghost var m := dec.State();
      LiteralTreeFits(props, ctx);
      var base := LITERAL + 768 * LiteralContext(props, nowPos, previousByte);
      var guide := if state >= 7 then Some(outStream[nowPos - rep0]) else None;
      assert LiteralModel(base, guide) == LiteralTree(props, ctx);
      ghost var w;
      var b;
      ok, b, w := DecodeLiteral(dec, base, guide);
      p := Literal(w);
      ghost var leaf: nat := w;
      LiteralCode(ctx, posState, w);
      DecodedThen(dec.input, c, Flags(ctx.state, posState, Literal(0)), m, Path(LiteralTree(props, ctx), 256 + leaf),
          dec.State(), ok);
      if ok {
        EmitLiteral(b, ctx);
      }
    }

    lemma LiteralCode(ctx: Context, posState: nat, b: Byte)
      requires Legal(props) && posState == PosState(props, ctx)
      ensures Code(props, ctx, Literal(b)) ==
              Flags(ctx.state, posState, Literal(0)) + Path(LiteralTree(props, ctx), 256 + b)
    {
    }

    method EmitLiteral(b: Byte, ghost ctx: Context)
      requires Ready() && nowPos < outStream.Length && ctx == View()
      modifies `state, `nowPos, `previousByte, outStream
      ensures Applied(ctx, Literal(b))
    {
      previousByte := b;
      outStream[nowPos] := previousByte;
      nowPos := nowPos + 1;
      if state < 4 { state := 0; } else if state < 10 { state := state - 3; } else { state := state - 6; }
      assert outStream[..nowPos] == ctx.out + [b];
    }

    /** The flags of one packet, with the queue and state updates its branches make
        on the way.  `p` has the kind that was read, its length still open. */
    method PacketFlags(posState: nat) returns (ok: bool, p: Packet)
      requires Ready() && posState < 16
      modifies `state, `rep0, `rep1, `rep2, `rep3, dec, dec.probs
      ensures dec.input == old(dec.input)
      ensures Decoded(dec.input, old(dec.State()), Flags(old(state), posState, p), dec.State(), ok)
      ensures ok ==> Rotated(old(state), old([rep0, rep1, rep2, rep3]), p)
    {
      ghost var c := dec.State();
      var bit;
      p := Literal(0);
      var isMatch := IS_MATCH + 16 * state + posState;
      ok, bit := Flag(dec, isMatch, c, []);
      FirstFlags(state, posState);
      if !ok || bit == 0 {
        return;
      }
      ok, p := MatchFlags(posState, c);
    }

    /** The queue and the state as the branch that read the kind of `p` leaves them. */
    ghost predicate Rotated(s: int, reps: seq<int>, p: Packet)
      reads this
      requires |reps| == 4
    {
      match p
      case Literal(_) => state == s && [rep0, rep1, rep2, rep3] == reps
      case ShortRep => state == s && [rep0, rep1, rep2, rep3] == reps
      case Match(_, _) => state == (if s < 7 then 0 else 3) && [rep1, rep2, rep3] == reps[..3]
      case Rep(_, _) => state == (if s < 7 then 8 else 11) && [rep0, rep1, rep2, rep3] == NextReps(reps, p)
    }

    method MatchFlags(posState: nat, ghost c: Coder) returns (ok: bool, p: Packet)
      requires Ready() && posState < 16
      requires Decoded(dec.input, c, [] + [Adaptive(IS_MATCH + 16 * state + posState, 1)], dec.State(), true)
      modifies `state, `rep0, `rep1, `rep2, `rep3, dec, dec.probs
      ensures dec.input == old(dec.input)
      ensures !p.Literal? && Decoded(dec.input, c, Flags(old(state), posState, p), dec.State(), ok)
      ensures ok ==> Rotated(old(state), old([rep0, rep1, rep2, rep3]), p)
    {
      hide Decoded, Flags;
      var bit;
      ghost var s: State := state;
      p := Match(2, 1);
      ok, bit := Flag(dec, IS_REP + state, c, [] + [Adaptive(IS_MATCH + 16 * s + posState, 1)]);
      FirstFlags(s, posState);
      if !ok {
        return;
      }
      if bit == 0 {
        rep3, rep2, rep1 := rep2, rep1, rep0;
        state := if state < 7 then 0 else 3;
        return;
      }
      ok, p := RepeatFlags(posState, c, TwoFlags(s, posState));
      if ok && p.Rep? {
        state := if state < 7 then 8 else 11;
      }
    }

    method RepeatFlags(posState: nat, ghost c: Coder, ghost ds: seq<Decision>) returns (ok: bool, p: Packet)
      requires Ready() && posState < 16
      requires ds == TwoFlags(state, posState)
      requires Decoded(dec.input, c, ds, dec.State(), true)
      modifies `rep0, `rep1, `rep2, `rep3, dec, dec.probs
      ensures dec.input == old(dec.input)
      ensures p.ShortRep? || p.Rep?
      ensures Decoded(dec.input, c, Flags(state, posState, p), dec.State(), ok)
      ensures ok ==> [rep0, rep1, rep2, rep3] == NextReps(old([rep0, rep1, rep2, rep3]), p)
    {
      hide Decoded, Flags, TwoFlags, NextReps;
      QueueRotations(rep0, rep1, rep2, rep3, 2);
      ghost var s: State := state;
      var bit;
      p := ShortRep;
      ok, bit := Flag(dec, IS_REP_G0 + state, c, ds);
      ghost var es := ds + [Adaptive(IS_REP_G0 + s, bit)];
      NearFlags(s, posState, 0);
      if !ok {
        StuckEarly(dec.input, c, es, [Adaptive(IS_REP0_LONG + 16 * s + posState, 0)], dec.State());
        return;
      }
      if bit == 0 {
        var rep0Long := IS_REP0_LONG + 16 * state + posState;
        ok, bit := Flag(dec, rep0Long, c, es);
        p := if bit == 0 then ShortRep else Rep(0, 2);
        NearFlags(s, posState, bit);
      } else {
        ok, p := OlderDistance(posState, c, s, es);
      }
    }

    method OlderDistance(ghost posState: nat, ghost c: Coder, ghost s: State, ghost ds: seq<Decision>)
      returns (ok: bool, p: Packet)
      requires Ready() && s == state && posState < 16
      requires ds == TwoFlags(s, posState) + [Adaptive(IS_REP_G0 + s, 1)]
      requires Decoded(dec.input, c, ds, dec.State(), true)
      modifies `rep0, `rep1, `rep2, `rep3, dec, dec.probs
      ensures dec.input == old(dec.input)
      ensures p.Rep? && Decoded(dec.input, c, Flags(s, posState, p), dec.State(), ok)
      ensures ok ==> [rep0, rep1, rep2, rep3] == NextReps(old([rep0, rep1, rep2, rep3]), p)
    {
      hide Decoded, Flags, TwoFlags, NextReps;
      QueueRotations(rep0, rep1, rep2, rep3, 2);
      var bit;
      var distance;
      p := Rep(1, 2);
      ok, bit := Flag(dec, IS_REP_G1 + state, c, ds);
      ghost var es := ds + [Adaptive(IS_REP_G1 + s, bit)];
      SecondFlags(s, posState);
      if !ok {
        return;
      }
      if bit == 0 {
        distance := rep1;
      } else {
        ok, bit := Flag(dec, IS_REP_G2 + state, c, es);
        p := Rep(if bit == 0 then 2 else 3, 2);
        OlderFlags(s, posState, bit);
        if !ok {
          return;
        }
        if bit == 0 {
          distance := rep2;
        } else {
          distance := rep3;
          rep3 := rep2;
        }
        rep2 := rep1;
      }
      rep1 := rep0;
      rep0 := distance;
    }

    /** The copy loop: byte by byte, so that it may read what it has just written,
        and cut at the end of the output. */
    method CopyMatch(len: nat)
      requires 1 <= rep0 <= nowPos < outStream.Length && len >= 1
      modifies `nowPos, `previousByte, outStream
      ensures nowPos <= outStream.Length && previousByte == LastByte(outStream[..nowPos])
      ensures outStream[..nowPos] == Cut(Copy(old(outStream[..nowPos]), rep0, len), outStream.Length)
    {
      ghost var out := outStream[..nowPos];
      ghost var done := 0;
      var left := len;
      while true
        invariant 1 <= left && done + left == len && nowPos < outStream.Length
        invariant outStream[..nowPos] == Copy(out, rep0, done)
        decreases left
      {
        CopyNext(out, rep0, done);
        CopyByte();
        left, done := left - 1, done + 1;
        if left == 0 || nowPos >= outStream.Length {
          break;
        }
      }
      CopyCut(out, rep0, done, len, outStream.Length);
    }

    method CopyByte()
      requires nowPos < outStream.Length && 1 <= rep0 <= nowPos
      modifies `nowPos, `previousByte, outStream
      ensures nowPos == old(nowPos) + 1 && previousByte == LastByte(outStream[..nowPos])
      ensures outStream[..nowPos] == old(outStream[..nowPos] + [outStream[..nowPos][nowPos - rep0]])
    {
      previousByte := outStream[nowPos - rep0];
      outStream[nowPos] := previousByte;
      nowPos := nowPos + 1;
    }

    /** The fields stand as packet `p` leaves them; once the output is full only the
        output still matters. */
    ghost predicate Applied(ctx: Context, p: Packet)
      reads this, dec, outStream
    {
      && nowPos <= outStream.Length && !IsEnd(p) && Valid(ctx, p)
      && outStream[..nowPos] == Cut(After(ctx, p).out, outStream.Length)
      && (nowPos < outStream.Length ==> Ready() && View() == After(ctx, p))
    }

    /** What one turn of the main loop may leave behind. */
    ghost predicate Turned(ctx: Context, p: Packet, status: Status)
      reads this, dec, outStream
    {
      && nowPos <= outStream.Length
      && (status == Continue ==> Applied(ctx, p))
      && (status == EndMark ==> IsEnd(p) && outStream[..nowPos] == ctx.out)
      && (status == BadDistance ==> !IsEnd(p) && !Valid(ctx, p))
    }

    ghost predicate Wired()
      reads this, dec
    {
      Legal(props) && dec.probs.Length == NumProbs(props) && dec.probs as object != outStream
    }

    /** The tail both kinds of match share: the distance check and the copy. */
    method CopyIfInside(len: nat, ghost ctx: Context, ghost p: Packet) returns (status: Status)
      requires Wired() && nowPos < outStream.Length && ctx.out == outStream[..nowPos]
      requires (p.Match? || p.Rep?) && !IsEnd(p) && len == Length(p)
      requires [rep0, rep1, rep2, rep3] == NextReps(ctx.reps, p) && state == NextState(ctx.state, p)
      modifies `nowPos, `previousByte, outStream
      ensures Turned(ctx, p, status) && (status == Continue || status == BadDistance)
    {
      assert rep0 == NextReps(ctx.reps, p)[0] == DistanceOf(ctx, p);
      if rep0 > nowPos {
        return BadDistance;
      }
      CopyMatch(len);
      return Continue;
    }

    method ShortRepeat(ghost ctx: Context) returns (status: Status)
      requires Ready() && nowPos < outStream.Length && ctx == View()
      modifies `state, `nowPos, `previousByte, outStream
      ensures Turned(ctx, ShortRep, status) && (status == Continue || status == BadDistance)
    {
      assert rep0 == ctx.reps[0];
      if nowPos == 0 {
        return BadDistance;
      }
      state := if state < 7 then 9 else 11;
      CopyByte();
      CopyNext(ctx.out, rep0, 0);
      assert outStream[..nowPos] == Copy(ctx.out, rep0, 1);
      return Continue;
    }

    /** Length and distance of a match at a new distance. */
    method MatchNumbers(posState: nat) returns (ok: bool, len: nat, d: Word, ghost x: nat, ghost y: Word)
      requires Wired() && posState < 16
      modifies dec, dec.probs
      ensures dec.input == old(dec.input)
      ensures x < 272 && (ok ==> len == x && d == y)
      ensures Decoded(dec.input, old(dec.State()),
                      LenCode(LEN_CODER, posState, x) + DistCode(LenState(x + 2), y), dec.State(), ok)
    {
      ghost var c := dec.State();
      d, y := 0, 0;
      ok, len, x := DecodeLength(dec, LEN_CODER, posState);
      if !ok {
        StuckEarly(dec.input, c, LenCode(LEN_CODER, posState, x), DistCode(LenState(x + 2), 0), dec.State());
        return;
      }
      ghost var m := dec.State();
      ok, d, y := DecodeDistance(dec, if len < 4 then len else 3);
      DecodedThen(dec.input, c, LenCode(LEN_CODER, posState, x), m, DistCode(LenState(x + 2), y), dec.State(), ok);
    }

    /** A match at a new distance, after its flags. */
    method NewMatch(posState: nat, ghost c: Coder, ghost ctx: Context) returns (status: Status, ghost p: Packet)
      requires Wired() && nowPos < outStream.Length && ctx.out == outStream[..nowPos]
      requires posState < 16 && posState == PosState(props, ctx)
      requires [rep1, rep2, rep3] == ctx.reps[..3] && state == if ctx.state < 7 then 0 else 3
      requires Decoded(dec.input, c, Flags(ctx.state, posState, Match(2, 1)), dec.State(), true)
      modifies this, outStream, dec, dec.probs
      ensures dec.input == old(dec.input)
      ensures Decoded(dec.input, c, Code(props, ctx, p), dec.State(), status != InputExhausted)
      ensures Turned(ctx, p, status)
    {
      hide Decoded, LenCode, DistCode, Path;
      ghost var m := dec.State();
      ghost var x, y;
      var ok, len, d;
      ok, len, d, x, y := MatchNumbers(posState);
      ghost var dist: int := y;
      p := Match(x + 2, dist + 1);
      MatchCode(ctx, posState, p);
      DecodedThen(dec.input, c, Flags(ctx.state, posState, Match(2, 1)), m, Body(props, ctx, p), dec.State(), ok);
      if !ok {
        return InputExhausted, p;
      }
      status := FinishMatch(len, d, ctx, p);
    }

    method FinishMatch(len: nat, d: int, ghost ctx: Context, ghost p: Packet) returns (status: Status)
      requires Wired() && nowPos < outStream.Length && ctx.out == outStream[..nowPos]
      requires [rep1, rep2, rep3] == ctx.reps[..3] && state == if ctx.state < 7 then 0 else 3
      requires len < 272 && 0 <= d < WORD && p == Match(len + 2, d + 1)
      modifies this, outStream
      ensures Turned(ctx, p, status) && status != InputExhausted
    {
      state := state + 7;
      rep0 := if d == WORD - 1 then 0 else d + 1;  // a 32-bit increment
      if rep0 == 0 {
        return EndMark;
      }
      NewestFirst(ctx.reps, p, rep1, rep2, rep3);
      status := CopyIfInside(len + 2, ctx, p);
    }

    lemma MatchCode(ctx: Context, posState: nat, p: Packet)
      requires Legal(props) && p.Match? && posState == PosState(props, ctx)
      ensures Body(props, ctx, p) == LenCode(LEN_CODER, posState, p.len - 2) + DistCode(LenState(p.len), p.dist - 1)
      ensures Code(props, ctx, p) == Flags(ctx.state, posState, Match(2, 1)) + Body(props, ctx, p)
    {
      hide Flags, LenCode, DistCode;
      SameFlags(ctx.state, posState, p, Match(2, 1));
    }

    /** A match at a remembered distance, after its flags. */
    method OldMatch(posState: nat, ghost i: Which, ghost c: Coder, ghost ctx: Context)
      returns (status: Status, ghost p: Packet)
      requires Wired() && nowPos < outStream.Length && ctx.out == outStream[..nowPos]
      requires posState < 16 && posState == PosState(props, ctx)
      requires [rep0, rep1, rep2, rep3] == NextReps(ctx.reps, Rep(i, 2)) && state == if ctx.state < 7 then 8 else 11
      requires Decoded(dec.input, c, Flags(ctx.state, posState, Rep(i, 2)), dec.State(), true)
      modifies `nowPos, `previousByte, outStream, dec, dec.probs
      ensures dec.input == old(dec.input)
      ensures Decoded(dec.input, c, Code(props, ctx, p), dec.State(), status != InputExhausted)
      ensures Turned(ctx, p, status)
    {
      hide Decoded, Code, Flags, LenCode;
      ghost var m, flags := dec.State(), Flags(ctx.state, posState, Rep(i, 2));
      var ok, len;
      ghost var x;
      ok, len, x := DecodeLength(dec, REP_LEN_CODER, posState);
      p := Rep(i, x + 2);
      RepCode(ctx, posState, i, x);
      DecodedThen(dec.input, c, flags, m, LenCode(REP_LEN_CODER, posState, x), dec.State(), ok);
      if !ok {
        return InputExhausted, p;
      }
      status := CopyIfInside(len + 2, ctx, p);
    }

    lemma RepCode(ctx: Context, posState: nat, i: Which, x: nat)
      requires Legal(props) && posState == PosState(props, ctx) && x < 272
      ensures Code(props, ctx, Rep(i, x + 2)) ==
              Flags(ctx.state, posState, Rep(i, 2)) + LenCode(REP_LEN_CODER, posState, x)
    {
      SameFlags(ctx.state, posState, Rep(i, x + 2), Rep(i, 2));
    }

    /** One turn of the main loop, and the packet it read. */
    method Iterate() returns (status: Status, ghost p: Packet)
      requires Ready() && nowPos < outStream.Length
      modifies this, outStream, dec, dec.probs
      ensures dec.input == old(dec.input)
      ensures Decoded(dec.input, old(dec.State()), Code(props, old(View()), p), dec.State(), status != InputExhausted)
      ensures Turned(old(View()), p, status)
    {
      ghost var c, ctx: Context := dec.State(), View();
      var ok, kind;
      PosStateSmall(props, nowPos);
      RemIsMod(nowPos, Pow2(props.pb));
      var posState := nowPos % Pow2(props.pb);
      ok, kind := PacketFlags(posState);
      if !ok {
        p := kind;
        StuckEarly(dec.input, c, Flags(ctx.state, posState, p), Body(props, ctx, p), dec.State());
        return InputExhausted, p;
      }
      status, p := PacketBody(posState, kind, c, ctx);
    }

    method PacketBody(posState: nat, kind: Packet, ghost c: Coder, ghost ctx: Context)
      returns (status: Status, ghost p: Packet)
      requires Wired() && nowPos < outStream.Length && ctx.out == outStream[..nowPos] &&
               previousByte == LastByte(ctx.out)
      requires posState < 16 && posState == PosState(props, ctx) && 0 <= state < 12
      requires Decoded(dec.input, c, Flags(ctx.state, posState, kind), dec.State(), true)
      requires Rotated(ctx.state, ctx.reps, kind)
      modifies this, outStream, dec, dec.probs
      ensures dec.input == old(dec.input)
      ensures Decoded(dec.input, c, Code(props, ctx, p), dec.State(), status != InputExhausted)
      ensures Turned(ctx, p, status)
    {
      match kind {
        case Literal(_) =>
          SameFlags(ctx.state, posState, kind, Literal(0));
          var ok;
          ok, p := LiteralPacket(c, ctx, posState);
          status := if ok then Continue else InputExhausted;
        case ShortRep =>
          p := ShortRep;
          assert Code(props, ctx, p) == Flags(ctx.state, posState, p);
          status := ShortRepeat(ctx);
        case Match(_, _) =>
          SameFlags(ctx.state, posState, kind, Match(2, 1));
          status, p := NewMatch(posState, c, ctx);
        case Rep(i, _) =>
          SameFlags(ctx.state, posState, kind, Rep(i, 2));
          status, p := OldMatch(posState, i, c, ctx);
      }
    }

    lemma SameFlags(s: State, posState: nat, p: Packet, q: Packet)
      requires (p.Literal? && q.Literal?) || (p.Match? && q.Match?) || (p.Rep? && q.Rep? && p.which == q.which)
      ensures Flags(s, posState, p) == Flags(s, posState, q)
    {
    }
  }

  /** `LzmaDecode`: succeeds exactly when the stream has a complete reading, and
      then the output is what that reading means, cut at the size asked for. */
  method LzmaDecode(props: Props, inStream: seq<Byte>, outStream: array<Byte>)
    returns (ok: bool, inProcessed: nat, outProcessed: nat)
    requires Legal(props)
    modifies outStream
    ensures ok <==> exists ps :: Accepted(inStream, props, outStream.Length, ps)
    ensures forall ps | Accepted(inStream, props, outStream.Length, ps) ::
              && outProcessed <= outStream.Length
              && outStream[..outProcessed] == Output(inStream, props, outStream.Length, ps)
              && inProcessed == Consumed(inStream, props, outStream.Length, ps)
    ensures forall ps: seq<Packet> | Accepted(inStream, props, outStream.Length, ps) ::
              || outProcessed == outStream.Length
              || (ps != [] && ps[|ps| - 1].Match? && ps[|ps| - 1].dist == 0x1_0000_0000)
    ensures !ok ==> inProcessed == 0 && outProcessed == 0
  {
    inProcessed, outProcessed := 0, 0;
    forall ps: seq<Packet> | Accepted(inStream, props, outStream.Length, ps)
      ensures || |Output(inStream, props, outStream.Length, ps)| == outStream.Length
              || (ps != [] && ps[|ps| - 1].Match? && ps[|ps| - 1].dist == 0x1_0000_0000)
    {
      FullOrEnded(inStream, props, outStream.Length, ps);
    }
    var d := new Decompressor(props, outStream);
    ok := d.dec.Start(inStream);
    if !ok {
      NoStart(inStream, props, outStream.Length);
      return;
    }
    ghost var ps: seq<Packet> := [];
    ghost var g := Progress(d.dec.State(), START, false);
    var going := true;
    while going && d.nowPos < outStream.Length
      invariant fresh(d) && fresh(d.dec) && fresh(d.dec.probs) && InStep(d, outStream, inStream, props, ps, g)
      invariant going <==> !g.ended
      decreases going, outStream.Length - d.nowPos
    {
      ok, going, ps, g := Turn(d, outStream, inStream, props, ps, g);
      if !ok {
        return false, 0, 0;
      }
    }
    ok, inProcessed, outProcessed := Finish(d, outStream, inStream, props, ps, g);
  }

  /** A complete reading fills the output, or its last packet is the end mark. */
  lemma FullOrEnded(input: seq<Byte>, props: Props, size: nat, ps: seq<Packet>)
    requires Legal(props) && Accepted(input, props, size, ps)
    ensures || |Output(input, props, size, ps)| == size
            || (ps != [] && ps[|ps| - 1].Match? && ps[|ps| - 1].dist == 0x1_0000_0000)
  {
  }

  /** The decompressor stands where the stream has spelled the packets `ps`. */
  ghost predicate InStep(d: Decompressor, outStream: array<Byte>, inStream: seq<Byte>, props: Props, ps: seq<Packet>,
                         g: Progress)
    reads d, d.dec, d.dec.probs, outStream
    requires Legal(props)
  {
    && d.outStream == outStream && d.props == props && d.dec.input == inStream && d.nowPos <= outStream.Length
    && Reach(inStream, props, outStream.Length, ps) == Some(g) && g.coder == d.dec.State()
    && outStream[..d.nowPos] == Cut(g.ctx.out, outStream.Length)
    && (d.nowPos < outStream.Length && !g.ended ==> d.Ready() && d.View() == g.ctx)
  }

  /** One packet: the stream spells it, ends with it, or spells no complete list. */
  method Turn(d: Decompressor, outStream: array<Byte>, ghost inStream: seq<Byte>, props: Props, ghost ps: seq<Packet>,
              ghost g: Progress)
    returns (ok: bool, going: bool, ghost ps': seq<Packet>, ghost g': Progress)
    requires Legal(props) && InStep(d, outStream, inStream, props, ps, g) && !g.ended && d.nowPos < outStream.Length
    modifies d, outStream, d.dec, d.dec.probs
    ensures !ok ==> forall qs :: !Accepted(inStream, props, outStream.Length, qs)
    ensures ok ==> InStep(d, outStream, inStream, props, ps', g') && (going <==> !g'.ended)
    ensures ok && going ==> d.nowPos > old(d.nowPos)
  {
    var status;
    ghost var p;
    ghost var size := outStream.Length;
    status, p := d.Iterate();
    ps', g' := ps, g;
    ok, going := true, status == Continue;
    if status == InputExhausted || status == BadDistance {
      DeadEndForAll(inStream, props, size, ps, p, d.dec.State(), status == BadDistance);
      ok := false;
    } else {
      DecodedIsFeed(inStream, g.coder, Code(props, g.ctx, p), d.dec.State());
      g' := ReachOneMore(inStream, props, size, ps, g, p, d.dec.State());
      ps' := ps + [p];
    }
  }

  /** The last normalisation, and what is reported. */
  method Finish(d: Decompressor, outStream: array<Byte>, ghost inStream: seq<Byte>, ghost props: Props,
                ghost ps: seq<Packet>, ghost g: Progress)
    returns (ok: bool, inProcessed: nat, outProcessed: nat)
    requires Legal(props) && InStep(d, outStream, inStream, props, ps, g) && (g.ended || d.nowPos >= outStream.Length)
    modifies d.dec
    ensures ok <==> exists qs :: Accepted(inStream, props, outStream.Length, qs)
    ensures forall qs | Accepted(inStream, props, outStream.Length, qs) ::
              && outProcessed <= outStream.Length
              && outStream[..outProcessed] == Output(inStream, props, outStream.Length, qs)
              && inProcessed == Consumed(inStream, props, outStream.Length, qs)
    ensures !ok ==> inProcessed == 0 && outProcessed == 0
  {
    inProcessed, outProcessed := 0, 0;
    ghost var size := outStream.Length;
    ok := d.dec.Refill();
    FinalAnswer(inStream, props, size, ps);
    assert ok <==> Accepted(inStream, props, size, ps);
    if ok {
      inProcessed, outProcessed := d.dec.pos, d.nowPos;
      assert inProcessed == Consumed(inStream, props, size, ps);
    }
  }

  lemma ReachOneMore(input: seq<Byte>, props: Props, size: nat, ps: seq<Packet>, g: Progress, p: Packet, c: Coder)
    returns (r: Progress)
    requires Legal(props) && Reach(input, props, size, ps) == Some(g) && !Finished(g, size)
    requires Feed(input, g.coder, Code(props, g.ctx, p)) == Some(c) && (IsEnd(p) || Valid(g.ctx, p))
    ensures Reach(input, props, size, ps + [p]) == Some(r)
    ensures r == if IsEnd(p) then Progress(c, g.ctx, true) else Progress(c, After(g.ctx, p), false)
  {
    assert (ps + [p])[..|ps|] == ps;
    r := Advance(input, props, size, g, p).value;
  }

  lemma NoStart(input: seq<Byte>, props: Props, size: nat)
    requires Legal(props) && |input| < 5
    ensures forall ps :: !Accepted(input, props, size, ps)
  {
    forall ps ensures !Accepted(input, props, size, ps) {
      if Reach(input, props, size, ps).Some? {
        ReachPrefix(input, props, size, ps, 0);
      }
    }
  }

  lemma DeadEndForAll(input: seq<Byte>, props: Props, size: nat, ps: seq<Packet>, p: Packet, c: Coder, ok: bool)
    requires Legal(props) && Reach(input, props, size, ps).Some?
    requires var g := Reach(input, props, size, ps).value;
             && !Finished(g, size)
             && Decoded(input, g.coder, Code(props, g.ctx, p), c, ok)
             && (ok ==> !IsEnd(p) && !Valid(g.ctx, p))
    ensures forall qs :: !Accepted(input, props, size, qs)
  {
    forall qs ensures !Accepted(input, props, size, qs) {
      DeadEnd(input, props, size, ps, p, c, ok, qs);
    }
  }

  /** A finished list is the only candidate reading. */
  lemma FinalAnswer(input: seq<Byte>, props: Props, size: nat, ps: seq<Packet>)
    requires Legal(props) && Reach(input, props, size, ps).Some?
    requires Finished(Reach(input, props, size, ps).value, size)
    ensures forall qs | Accepted(input, props, size, qs) :: qs == ps
  {
    forall qs | Accepted(input, props, size, qs) ensures qs == ps {
      FinishedIsLast(input, props, size, qs, ps);
      FinishedIsLast(input, props, size, ps, qs);
      ReachAgrees(input, props, size, ps, qs, |ps|);
      assert ps[..|ps|] == ps && qs[..|ps|] == qs;
    }
  }

  lemma NewestFirst(reps: seq<int>, p: Packet, r1: int, r2: int, r3: int)
    requires |reps| == 4 && p.Match? && [r1, r2, r3] == reps[..3]
    ensures NextReps(reps, p) == [p.dist, r1, r2, r3]
  {
    assert reps[..3] == [reps[0], reps[1], reps[2]];
  }

  lemma CopyNext(out: seq<Byte>, d: int, n: nat)
    requires 1 <= d <= |out|
    ensures var s := Copy(out, d, n); Copy(out, d, n + 1) == s + [s[|s| - d]]
  {
  }

  lemma CopyCut(out: seq<Byte>, d: int, m: nat, n: nat, outSize: nat)
    requires 1 <= d <= |out| && m <= n && |out| + m <= outSize && (m == n || |out| + m == outSize)
    ensures Cut(Copy(out, d, n), outSize) == Copy(out, d, m)
  {
    CopyPrefix(out, d, m, n);
  }

  lemma {:induction false} CopyPrefix(out: seq<Byte>, d: int, m: nat, n: nat)
    requires 1 <= d <= |out| && m <= n
    ensures Copy(out, d, n)[..|out| + m] == Copy(out, d, m)
    decreases n
  {
    if m < n {
      CopyPrefix(out, d, m, n - 1);
      assert Copy(out, d, n)[..|out| + m] == Copy(out, d, n - 1)[..|out| + m];
    }
  }
}
