/** The LZMA packet format and its meaning, independent of any decoder.

    `Code` spells a packet as the list of decisions that carry it, in the
    direction from value to bits; `After` says what a packet does to the
    output, the distance queue and the 12-valued state.  The probability
    layout is the one lzmadecode.c lays out in its scratch array. */
module LzmaFormat {
  import opened Basics
  import opened LzmaRange

  // ------------------------------------------------------- probability layout

  const IS_MATCH := 0
  const IS_REP := 192
  const IS_REP_G0 := 204
  const IS_REP_G1 := 216
  const IS_REP_G2 := 228
  const IS_REP0_LONG := 240
  const POS_SLOT := 432
  const SPEC_POS := 688
  const ALIGN := 802
  const LEN_CODER := 818
  const REP_LEN_CODER := 1332
  const LITERAL := 1846

  const LEN_CHOICE2 := 1
  const LEN_LOW := 2
  const LEN_MID := 130
  const LEN_HIGH := 258

  datatype Props = Props(lc: nat, lp: nat, pb: nat)

  predicate Legal(p: Props) {
    p.lc < 9 && p.lp < 5 && p.pb < 5
  }

  function NumProbs(p: Props): nat {
    LITERAL + 768 * Pow2(p.lc + p.lp)
  }

  // ------------------------------------------------------------------ packets

  type Len = n: int | 2 <= n <= 273 witness 2
  type Dist = n: int | 1 <= n <= WORD witness 1
  type Which = n: int | 0 <= n < 4

  datatype Packet =
    | Literal(b: Byte)
    | Match(len: Len, dist: Dist)
    | ShortRep
    | Rep(which: Which, len: Len)

  /** The distance 2^32 is never copied from: it ends the stream. */
  predicate IsEnd(p: Packet) {
    p.Match? && p.dist == WORD
  }

  type State = s: int | 0 <= s < 12

  datatype RawContext = Context(state: State, reps: seq<int>, out: seq<Byte>)

  /** What every packet boundary keeps: four distances that stay inside the output
      (or are still 1), and a non-literal state only once there is output. */
  predicate Sane(c: RawContext) {
    && |c.reps| == 4
    && (forall i | 0 <= i < 4 :: 1 <= c.reps[i] && (c.reps[i] == 1 || c.reps[i] <= |c.out|))
    && (c.state >= 7 ==> c.out != [])
  }

  type Context = c: RawContext | Sane(c) witness Context(0, [1, 1, 1, 1], [])

  const START: Context := Context(0, [1, 1, 1, 1], [])

  function DistanceOf(ctx: Context, p: Packet): int
    requires !p.Literal?
  {
    match p
    case Match(_, d) => d
    case ShortRep => ctx.reps[0]
    case Rep(i, _) => ctx.reps[i]
  }

  /** A packet a decoder may apply: it reaches back no further than the output. */
  predicate Valid(ctx: Context, p: Packet) {
    p.Literal? || DistanceOf(ctx, p) <= |ctx.out|
  }

  /** Append `n` bytes, each copied from `d` bytes back, one at a time. */
  function Copy(out: seq<Byte>, d: int, n: nat): (r: seq<Byte>)
    requires 1 <= d <= |out|
    ensures |r| == |out| + n && r[..|out|] == out
    decreases n
  {
    if n == 0 then out else
    var s := Copy(out, d, n - 1);
    s + [s[|s| - d]]
  }

  lemma {:induction false} CopyRepeats(out: seq<Byte>, d: int, n: nat, j: nat)
    requires 1 <= d <= |out| <= j < |out| + n
    ensures Copy(out, d, n)[j] == Copy(out, d, n)[j - d]
    decreases n
  {
    var s := Copy(out, d, n - 1);
    assert Copy(out, d, n) == s + [s[|s| - d]];
    if j < |s| {
      CopyRepeats(out, d, n - 1, j);
    }
  }

  lemma {:induction false} CopyRepeatsOften(out: seq<Byte>, d: int, n: nat, i: nat)
    requires 1 <= d <= |out| && i < n
    ensures Copy(out, d, n)[|out| + i] == out[|out| - d + Rem(i, d)]
    decreases i
  {
    var r := Copy(out, d, n);
    CopyRepeats(out, d, n, |out| + i);
    if i < d {
      assert r[|out| + i - d] == r[..|out|][|out| + i - d];
    } else {
      CopyRepeatsOften(out, d, n, i - d);
    }
  }

  /** A copy that overlaps its own source is the periodic extension of the last
      `d` bytes: byte i of it is byte i mod d of them. */
  lemma CopyIsPeriodic(out: seq<Byte>, d: int, n: nat, i: nat, k: nat)
    requires 1 <= d <= |out| && i < n && k == i % d
    ensures Copy(out, d, n)[|out| + i] == out[|out| - d..][k]
  {
    RemIsMod(i, d);
    CopyRepeatsOften(out, d, n, i);
  }

  function NextState(s: State, p: Packet): State {
    match p
    case Literal(_) => if s < 4 then 0 else if s < 10 then s - 3 else s - 6
    case Match(_, _) => if s < 7 then 7 else 10
    case ShortRep => if s < 7 then 9 else 11
    case Rep(_, _) => if s < 7 then 8 else 11
  }

  /** The distance queue: a new distance pushes the oldest out, a repeated one
      moves to the front. */
  function NextReps(reps: seq<int>, p: Packet): seq<int>
    requires |reps| == 4
  {
    match p
    case Literal(_) => reps
    case Match(_, d) => [d] + reps[..3]
    case ShortRep => reps
    case Rep(i, _) => [reps[i]] + reps[..i] + reps[i + 1..]
  }

  function Length(p: Packet): (n: nat)
    ensures n >= 1
  {
    match p
    case Literal(_) => 1
    case Match(n, _) => n
    case ShortRep => 1
    case Rep(_, n) => n
  }

  function After(ctx: Context, p: Packet): (r: Context)
    requires Valid(ctx, p)
    ensures |r.out| == |ctx.out| + Length(p)
    ensures r.state >= 7 <==> !p.Literal?
  {
    Context(NextState(ctx.state, p), NextReps(ctx.reps, p),
            if p.Literal? then ctx.out + [p.b] else Copy(ctx.out, DistanceOf(ctx, p), Length(p)))
  }

  // ------------------------------------------------------------ decision trees

  /** A binary tree of probabilities, its nodes numbered from 1 with the children
      of n at 2n and 2n+1.  A guided tree has two further copies of itself, used
      as long as the walk follows the guide byte: which copy depends on the bit
      the guide takes next. */
  datatype Tree =
    | Plain(base: int)
    | Guided(base: int, guide: Byte)

  function NextOnPath(node: nat, leaf: nat): Option<Bit> {
    if leaf <= node then None
    else if leaf / 2 == node then Some(leaf % 2)
    else NextOnPath(node, leaf / 2)
  }

  function Index(t: Tree, node: nat): (i: nat)
    requires t.base + node >= 0
  {
    match t
    case Plain(base) => base + node
    case Guided(base, guide) =>
      match NextOnPath(node, 256 + guide)
      case None => base + node
      case Some(bit) => base + 0x100 + 0x100 * bit + node
  }

  /** The decisions on the way from the root to a node. */
  function Path(t: Tree, node: nat): seq<Decision>
    requires node >= 1 && t.base >= -1
  {
    if node == 1 then [] else Path(t, node / 2) + [Adaptive(Index(t, node / 2), node % 2)]
  }

  lemma {:induction false} PathExtends(t: Tree, node: nat, k: nat) returns (rest: seq<Decision>)
    requires node >= 1 && t.base >= -1
    ensures Doubled(node, k) >= 1
    ensures Path(t, Doubled(node, k)) == Path(t, node) + rest
    ensures k >= 1 ==> rest != [] && rest[0] == Adaptive(Index(t, node), 0)
    decreases k
  {
    if k == 0 {
      rest := [];
    } else {
      rest := PathExtends(t, node, k - 1);
      rest := rest + [Adaptive(Index(t, Doubled(node, k - 1)), 0)];
    }
  }

  lemma {:induction false} PathsDiverge(t: Tree, n: nat, a: nat, b: nat)
    requires t.base >= -1
    requires Pow2(n) <= a < 2 * Pow2(n) && Pow2(n) <= b < 2 * Pow2(n) && a != b
    ensures Diverge(Path(t, a), Path(t, b))
    decreases n
  {
    if n == 0 {
      assert false;
    } else if a / 2 == b / 2 {
      var p := Path(t, a / 2);
      assert Path(t, a)[..|p|] == p == Path(t, b)[..|p|];
      DivergeIntro(Path(t, a), Path(t, b), |p|);
    } else {
      PathsDiverge(t, n - 1, a / 2, b / 2);
      DivergeExtend(Path(t, a / 2), Path(t, b / 2),
                    [Adaptive(Index(t, a / 2), a % 2)], [Adaptive(Index(t, b / 2), b % 2)]);
    }
  }

  // --------------------------------------------------------- lengths, distances

  function LenCode(base: nat, posState: nat, l: nat): seq<Decision>
    requires l < 272
  {
    if l < 8 then
      [Adaptive(base, 0)] + Path(Plain(base + LEN_LOW + 8 * posState), 8 + l)
    else if l < 16 then
      [Adaptive(base, 1), Adaptive(base + LEN_CHOICE2, 0)] + Path(Plain(base + LEN_MID + 8 * posState), l)
    else
      [Adaptive(base, 1), Adaptive(base + LEN_CHOICE2, 1)] + Path(Plain(base + LEN_HIGH), 256 + (l - 16))
  }

  /** The node reached from `m` by walking the `n` low bits of `v`, lowest first. */
  function ReverseNode(m: nat, n: nat, v: nat): nat
    decreases n
  {
    if n == 0 then m else ReverseNode(2 * m + v % 2, n - 1, v / 2)
  }

  lemma {:induction false} ReverseNodeRange(m: nat, n: nat, v: nat)
    ensures Doubled(m, n) <= ReverseNode(m, n, v) < Doubled(m + 1, n)
    decreases n
  {
    if n > 0 {
      var k := 2 * m + v % 2;
      ReverseNodeRange(k, n - 1, v / 2);
      DoubledFirst(m, n - 1);
      DoubledFirst(m + 1, n - 1);
      DoubledNext(2 * m, n - 1);
      DoubledNext(2 * m + 1, n - 1);
      assert 2 * (m + 1) == 2 * m + 2;
    }
  }

  lemma {:induction false} DoubledOne(n: nat)
    ensures Doubled(1, n) == Pow2(n) && Doubled(2, n) == 2 * Pow2(n)
  {
    if n > 0 { DoubledOne(n - 1); }
  }

  lemma HalfOfSum(v: nat, h: nat)
    ensures (v + 2 * h) % 2 == v % 2 && (v + 2 * h) / 2 == v / 2 + h
  {
  }

  lemma {:induction false} ReverseNodeGrows(m: nat, n: nat, v: nat, b: Bit)
    requires v < Pow2(n)
    ensures ReverseNode(m, n + 1, if b == 0 then v else v + Pow2(n)) == 2 * ReverseNode(m, n, v) + b
    decreases n
  {
    var w := if b == 0 then v else v + Pow2(n);
    assert ReverseNode(m, n + 1, w) == ReverseNode(2 * m + w % 2, n, w / 2);
    if n == 0 {
      assert w == b;
    } else {
      ReverseNodeGrows(2 * m + v % 2, n - 1, v / 2, b);
      HalfOfSum(v, Pow2(n - 1));
    }
  }

  lemma {:induction false} ReverseNodeInjective(m: nat, m': nat, n: nat, v: nat, w: nat)
    requires v < Pow2(n) && w < Pow2(n)
    requires ReverseNode(m, n, v) == ReverseNode(m', n, w)
    ensures m == m' && v == w
    decreases n
  {
    if n != 0 {
      ReverseNodeInjective(2 * m + v % 2, 2 * m' + w % 2, n - 1, v / 2, w / 2);
    }
  }

  function ReversePath(base: int, n: nat, v: nat): seq<Decision>
    requires base >= -1
  {
    ReverseNodeRange(1, n, v);
    DoubledOne(n);
    Path(Plain(base), ReverseNode(1, n, v))
  }

  lemma ReversePathsDiverge(base: int, n: nat, v: nat, w: nat)
    requires base >= -1 && v < Pow2(n) && w < Pow2(n) && v != w
    ensures Diverge(ReversePath(base, n, v), ReversePath(base, n, w))
  {
    ReverseNodeRange(1, n, v);
    ReverseNodeRange(1, n, w);
    DoubledOne(n);
    if ReverseNode(1, n, v) == ReverseNode(1, n, w) {
      ReverseNodeInjective(1, 1, n, v, w);
    }
    PathsDiverge(Plain(base), n, ReverseNode(1, n, v), ReverseNode(1, n, w));
  }

  function DirectCode(n: nat, v: nat): seq<Decision> {
    if n == 0 then [] else DirectCode(n - 1, v / 2) + [Direct(v % 2)]
  }

  lemma {:induction false} DirectCodesDiverge(n: nat, v: nat, w: nat)
    requires v < Pow2(n) && w < Pow2(n) && v != w
    ensures Diverge(DirectCode(n, v), DirectCode(n, w))
  {
    if n == 0 {
      assert false;
    } else if v / 2 == w / 2 {
      var p := DirectCode(n - 1, v / 2);
      assert DirectCode(n, v)[..|p|] == p == DirectCode(n, w)[..|p|];
      DivergeIntro(DirectCode(n, v), DirectCode(n, w), |p|);
    } else {
      DirectCodesDiverge(n - 1, v / 2, w / 2);
      DivergeExtend(DirectCode(n - 1, v / 2), DirectCode(n - 1, w / 2), [Direct(v % 2)], [Direct(w % 2)]);
    }
  }

  /** The top two bits of a distance, and how many bits follow them. */
  function TopTwo(d: nat): nat {
    if d < 4 then d else TopTwo(d / 2)
  }

  function FooterBits(d: nat): nat {
    if d < 4 then 0 else 1 + FooterBits(d / 2)
  }

  lemma {:induction false} DistanceShape(d: nat)
    ensures d >= 4 ==> TopTwo(d) == 2 || TopTwo(d) == 3
    ensures d >= 4 ==> FooterBits(d) >= 1
    ensures Doubled(TopTwo(d), FooterBits(d)) <= d < Doubled(TopTwo(d), FooterBits(d)) + Pow2(FooterBits(d))
  {
    if d >= 4 { DistanceShape(d / 2); }
  }

  lemma {:induction false} FooterBitsBound(d: nat, n: nat)
    requires d < 4 * Pow2(n)
    ensures FooterBits(d) <= n
    decreases n
  {
    if n > 0 && d >= 4 {
      FooterBitsBound(d / 2, n - 1);
    }
  }

  lemma {:induction false} DistanceShapeUnique(top: nat, n: nat, low: nat)
    requires 2 <= top <= 3 && low < Pow2(n)
    ensures TopTwo(Doubled(top, n) + low) == top && FooterBits(Doubled(top, n) + low) == n
    decreases n
  {
    if n > 0 {
      DistanceShapeUnique(top, n - 1, low / 2);
      DoubledAtLeast(top, n - 1);
      assert (Doubled(top, n) + low) / 2 == Doubled(top, n - 1) + low / 2;
    }
  }

  lemma {:induction false} DoubledAtLeast(x: nat, n: nat)
    ensures x <= Doubled(x, n)
    decreases n
  {
    if n > 0 { DoubledAtLeast(x, n - 1); }
  }

  lemma Pow2Of31()
    ensures Pow2(31) == 0x8000_0000
  {
    Pow2Small();
    Pow2Add(8, 8);
    Pow2Add(16, 8);
    Pow2Add(24, 7);
  }

  /** Distances below 4 are their own slot; a larger one has the slot made of its
      number of bits and its second-highest bit. */
  function Slot(d: nat): nat {
    2 * FooterBits(d) + TopTwo(d)
  }

  lemma SlotBound(d: nat)
    requires d < WORD
    ensures Slot(d) < 64
  {
    DistanceShape(d);
    Pow2Of31();
    FooterBitsBound(d, 30);
  }

  function SpecBase(top: nat, n: nat): int {
    SPEC_POS + Doubled(top, n) - (2 * n + top) - 1
  }

  lemma {:induction false} SpecBaseInRange(top: nat, n: nat)
    requires 2 <= top <= 3 && n >= 1
    ensures SpecBase(top, n) >= SPEC_POS - 1
  {
    if n == 1 {
      assert Doubled(top, 1) == 2 * top;
    } else {
      SpecBaseInRange(top, n - 1);
    }
  }

  /** The bits of a distance below its top two: coded from the lowest up by their
      own tree in a short distance, and in a long one as equiprobable bits from
      the highest down followed by four coded bits from the lowest up. */
  function FooterCode(top: nat, n: nat, low: nat): seq<Decision>
    requires 2 <= top <= 3 && n >= 1
  {
    if n < 6 then
      SpecBaseInRange(top, n);
      ReversePath(SpecBase(top, n), n, low)
    else
      DirectCode(n - 4, low / 16) + ReversePath(ALIGN, 4, low % 16)
  }

  function DistFooter(d: nat): seq<Decision> {
    DistanceShape(d);
    if d < 4 then [] else FooterCode(TopTwo(d), FooterBits(d), d - Doubled(TopTwo(d), FooterBits(d)))
  }

  /** A distance less one, in the context of its length. */
  function DistCode(lenState: nat, d: nat): seq<Decision> {
    Path(Plain(POS_SLOT + 64 * lenState), 64 + Slot(d)) + DistFooter(d)
  }

  // ------------------------------------------------------------------- packets

  function LastByte(out: seq<Byte>): Byte {
    if out == [] then 0 else out[|out| - 1]
  }

  /** The literal contexts: `lp` low bits of the position, `lc` high bits of the
      byte before. */
  function LiteralContext(props: Props, pos: nat, prev: Byte): (i: nat)
    requires Legal(props)
    ensures i < Pow2(props.lc + props.lp)
  {
    var a, b := Rem(pos, Pow2(props.lp)), Shr(prev, 8 - props.lc);
    assert b < Pow2(props.lc) by {
      assert prev < Pow2(8) by { Pow2Small(); }
      ShrBelow(prev, 8, 8 - props.lc);
    }
    DoubledPlus(a, props.lp, b, props.lc);
    Doubled(a, props.lc) + b
  }

  function LiteralTree(props: Props, ctx: Context): (t: Tree)
    requires Legal(props)
    ensures t.base >= LITERAL
  {
    var base := LITERAL + 768 * LiteralContext(props, |ctx.out|, LastByte(ctx.out));
    if ctx.state >= 7 then Guided(base, ctx.out[|ctx.out| - ctx.reps[0]]) else Plain(base)
  }

  function LenState(len: Len): nat {
    if len - 2 < 4 then len - 2 else 3
  }

  function PosState(props: Props, ctx: Context): (r: nat) {
    Rem(|ctx.out|, Pow2(props.pb))
  }

  /** The flags that introduce a packet, up to its length. */
  function Flags(s: State, posState: nat, p: Packet): seq<Decision> {
    [Adaptive(IS_MATCH + 16 * s + posState, if p.Literal? then 0 else 1)]
    + (if p.Literal? then [] else [Adaptive(IS_REP + s, if p.Match? then 0 else 1)])
    + match p
      case Literal(_) => []
      case Match(_, _) => []
      case ShortRep => [Adaptive(IS_REP_G0 + s, 0), Adaptive(IS_REP0_LONG + 16 * s + posState, 0)]
      case Rep(i, _) =>
        if i == 0 then [Adaptive(IS_REP_G0 + s, 0), Adaptive(IS_REP0_LONG + 16 * s + posState, 1)]
        else if i == 1 then [Adaptive(IS_REP_G0 + s, 1), Adaptive(IS_REP_G1 + s, 0)]
        else [Adaptive(IS_REP_G0 + s, 1), Adaptive(IS_REP_G1 + s, 1), Adaptive(IS_REP_G2 + s, i - 2)]
  }

  function Body(props: Props, ctx: Context, p: Packet): seq<Decision>
    requires Legal(props)
  {
    match p
    case Literal(b) => Path(LiteralTree(props, ctx), 256 + b)
    case Match(len, dist) =>
      LenCode(LEN_CODER, PosState(props, ctx), len - 2) + DistCode(LenState(len), dist - 1)
    case ShortRep => []
    case Rep(i, len) => LenCode(REP_LEN_CODER, PosState(props, ctx), len - 2)
  }

  function Code(props: Props, ctx: Context, p: Packet): seq<Decision>
    requires Legal(props)
  {
    Flags(ctx.state, PosState(props, ctx), p) + Body(props, ctx, p)
  }

  // -------------------------------------------------------------- index bounds

  /** Every probability the list asks for has an index below `n`. */
  predicate Below(ds: seq<Decision>, n: int) {
    if ds == [] then true else
    var d := ds[|ds| - 1];
    (d.Adaptive? ==> d.index < n) && Below(ds[..|ds| - 1], n)
  }

  lemma {:induction false} BelowEach(ds: seq<Decision>, n: int)
    requires Below(ds, n)
    ensures forall d | d in ds :: d.Adaptive? ==> d.index < n
  {
    if ds != [] {
      BelowEach(ds[..|ds| - 1], n);
      assert ds == ds[..|ds| - 1] + [ds[|ds| - 1]];
    }
  }

  lemma {:induction false} BelowAppend(a: seq<Decision>, b: seq<Decision>, m: int, n: int)
    requires Below(a, m) && Below(b, m) && m <= n
    ensures Below(a + b, n)
    decreases |b|
  {
    if b == [] {
      assert a + b == a;
      BelowMore(a, m, n);
    } else {
      assert (a + b)[..|a + b| - 1] == a + b[..|b| - 1];
      BelowAppend(a, b[..|b| - 1], m, n);
    }
  }

  lemma {:induction false} BelowMore(a: seq<Decision>, m: int, n: int)
    requires Below(a, m) && m <= n
    ensures Below(a, n)
  {
    if a != [] { BelowMore(a[..|a| - 1], m, n); }
  }

  lemma BelowOne(a: seq<Decision>, d: Decision, n: int)
    requires Below(a, n) && (d.Adaptive? ==> d.index < n)
    ensures Below(a + [d], n)
  {
    assert (a + [d])[..|a|] == a;
  }

  lemma {:induction false} PlainPathBelow(base: int, node: nat, n: int)
    requires node >= 1 && base >= -1 && base + node <= n
    ensures Below(Path(Plain(base), node), n)
  {
    if node > 1 {
      PlainPathBelow(base, node / 2, n);
      BelowOne(Path(Plain(base), node / 2), Adaptive(base + node / 2, node % 2), n);
    }
  }

  lemma {:induction false} GuidedPathBelow(base: nat, guide: Byte, node: nat)
    requires 1 <= node < 512
    ensures Below(Path(Guided(base, guide), node), base + 768)
  {
    if node > 1 {
      var t := Guided(base, guide);
      GuidedPathBelow(base, guide, node / 2);
      BelowOne(Path(t, node / 2), Adaptive(Index(t, node / 2), node % 2), base + 768);
    }
  }

  lemma LiteralTreeFits(props: Props, ctx: Context)
    requires Legal(props)
    ensures LiteralTree(props, ctx).base + 768 <= NumProbs(props)
  {
    var i := LiteralContext(props, |ctx.out|, LastByte(ctx.out));
    assert i + 1 <= Pow2(props.lc + props.lp);
  }

  lemma ReversePathBelow(base: int, k: nat, v: nat, n: int)
    requires base >= -1 && base + 2 * Pow2(k) <= n
    ensures Below(ReversePath(base, k, v), n)
  {
    ReverseNodeRange(1, k, v);
    DoubledOne(k);
    PlainPathBelow(base, ReverseNode(1, k, v), n);
  }

  lemma {:induction false} DirectCodeBelow(k: nat, v: nat, n: int)
    ensures Below(DirectCode(k, v), n)
  {
    if k > 0 {
      DirectCodeBelow(k - 1, v / 2, n);
      BelowOne(DirectCode(k - 1, v / 2), Direct(v % 2), n);
    }
  }

  lemma SpecBaseFits(top: nat, n: nat)
    requires 2 <= top <= 3 && 1 <= n < 6
    ensures SpecBase(top, n) + Pow2(n) <= ALIGN && Pow2(n) <= 32
  {
    Pow2Small();
    assert Doubled(top, 1) == 2 * top;
    assert Doubled(top, 2) == 4 * top;
    assert Doubled(top, 3) == 8 * top;
    assert Doubled(top, 4) == 16 * top;
    assert Doubled(top, 5) == 32 * top;
    assert n == 1 || n == 2 || n == 3 || n == 4 || n == 5;
  }

  lemma FooterBelow(top: nat, n: nat, low: nat)
    requires 2 <= top <= 3 && n >= 1
    ensures Below(FooterCode(top, n, low), LEN_CODER + 30)
  {
    if n < 6 {
      SpecBaseFits(top, n);
      SpecBaseInRange(top, n);
      ReversePathBelow(SpecBase(top, n), n, low, LEN_CODER + 30);
    } else {
      DirectCodeBelow(n - 4, low / 16, LEN_CODER + 30);
      assert Pow2(4) == 16 by { Pow2Small(); }
      ReversePathBelow(ALIGN, 4, low % 16, LEN_CODER + 30);
      BelowAppend(DirectCode(n - 4, low / 16), ReversePath(ALIGN, 4, low % 16), LEN_CODER + 30, LEN_CODER + 30);
    }
  }

  lemma DistFooterBelow(d: nat)
    ensures Below(DistFooter(d), LEN_CODER + 30)
  {
    DistanceShape(d);
    if d >= 4 {
      FooterBelow(TopTwo(d), FooterBits(d), d - Doubled(TopTwo(d), FooterBits(d)));
    }
  }

  lemma LenCodeBelow(base: nat, posState: nat, l: nat)
    requires l < 272 && posState < 16
    ensures Below(LenCode(base, posState, l), base + 514)
  {
    var n := base + 514;
    assert Below([], n);
    BelowOne([], Adaptive(base, 0), n);
    BelowOne([], Adaptive(base, 1), n);
    assert [] + [Adaptive(base, 0)] == [Adaptive(base, 0)];
    if l < 8 {
      PlainPathBelow(base + LEN_LOW + 8 * posState, 8 + l, n);
      BelowAppend([Adaptive(base, 0)], Path(Plain(base + LEN_LOW + 8 * posState), 8 + l), n, n);
    } else {
      LongLenBelow(base, posState, l);
    }
  }

  lemma LongLenBelow(base: nat, posState: nat, l: nat)
    requires 8 <= l < 272 && posState < 16
    ensures Below(LenCode(base, posState, l), base + 514)
  {
    var n, bit: Bit := base + 514, if l < 16 then 0 else 1;
    var flags := [Adaptive(base, 1), Adaptive(base + LEN_CHOICE2, bit)];
    assert [] + [Adaptive(base, 1)] + [Adaptive(base + LEN_CHOICE2, bit)] == flags;
    assert Below([], n);
    BelowOne([], Adaptive(base, 1), n);
    BelowOne([] + [Adaptive(base, 1)], Adaptive(base + LEN_CHOICE2, bit), n);
    if l < 16 {
      PlainPathBelow(base + LEN_MID + 8 * posState, l, n);
      BelowAppend(flags, Path(Plain(base + LEN_MID + 8 * posState), l), n, n);
    } else {
      HighPathBelow(base, 256 + (l - 16));
      BelowAppend(flags, Path(Plain(base + LEN_HIGH), 256 + (l - 16)), n, n);
    }
  }

  lemma HighPathBelow(base: nat, node: nat)
    requires 1 <= node < 512
    ensures Below(Path(Plain(base + LEN_HIGH), node), base + 514)
  {
    if node > 1 {
      PlainPathBelow(base + LEN_HIGH, node / 2, base + 514);
      BelowOne(Path(Plain(base + LEN_HIGH), node / 2), Adaptive(base + LEN_HIGH + node / 2, node % 2), base + 514);
    }
  }

  lemma PosStateSmall(props: Props, pos: nat)
    requires Legal(props)
    ensures Rem(pos, Pow2(props.pb)) < 16
  {
    Pow2Small();
    Pow2Monotone(props.pb, 4);
  }

  lemma LiteralFits(props: Props, ctx: Context, b: Byte)
    requires Legal(props)
    ensures Below(Path(LiteralTree(props, ctx), 256 + b), NumProbs(props))
  {
    LiteralTreeFits(props, ctx);
    TreeFits(LiteralTree(props, ctx), 256 + b, NumProbs(props));
  }

  lemma TreeFits(t: Tree, node: nat, n: int)
    requires 1 <= node < 512 && 0 <= t.base && t.base + 768 <= n
    ensures Below(Path(t, node), n)
  {
    match t
    case Plain(base) => PlainPathBelow(base, node, n);
    case Guided(base, guide) =>
      GuidedPathBelow(base, guide, node);
      BelowMore(Path(t, node), base + 768, n);
  }

  lemma DistFits(len: Len, dist: Dist)
    ensures Below(DistCode(LenState(len), dist - 1), LITERAL)
  {
    SlotBound(dist - 1);
    var a, b := Path(Plain(POS_SLOT + 64 * LenState(len)), 64 + Slot(dist - 1)), DistFooter(dist - 1);
    PlainPathBelow(POS_SLOT + 64 * LenState(len), 64 + Slot(dist - 1), LITERAL);
    DistFooterBelow(dist - 1);
    BelowMore(b, LEN_CODER + 30, LITERAL);
    BelowAppend(a, b, LITERAL, LITERAL);
  }

  lemma {:induction false} BelowFromEach(ds: seq<Decision>, n: int)
    requires forall d | d in ds :: d.Adaptive? ==> d.index < n
    ensures Below(ds, n)
  {
    if ds != [] { BelowFromEach(ds[..|ds| - 1], n); }
  }

  lemma FlagsFit(s: State, posState: nat, p: Packet)
    requires posState < 16
    ensures Below(Flags(s, posState, p), LITERAL)
  {
    BelowFromEach(Flags(s, posState, p), LITERAL);
  }

  lemma MatchFits(posState: nat, len: Len, dist: Dist)
    requires posState < 16
    ensures Below(LenCode(LEN_CODER, posState, len - 2) + DistCode(LenState(len), dist - 1), LITERAL)
  {
    var a, b := LenCode(LEN_CODER, posState, len - 2), DistCode(LenState(len), dist - 1);
    LenCodeBelow(LEN_CODER, posState, len - 2);
    BelowMore(a, LEN_CODER + 514, LITERAL);
    DistFits(len, dist);
    BelowAppend(a, b, LITERAL, LITERAL);
  }

  lemma CopyBodyFits(props: Props, ctx: Context, p: Packet)
    requires Legal(props) && !p.Literal?
    ensures Below(Body(props, ctx, p), LITERAL)
  {
    var posState := PosState(props, ctx);
    PosStateSmall(props, |ctx.out|);
    if p.Match? {
      MatchFits(posState, p.len, p.dist);
    } else if p.Rep? {
      LenCodeBelow(REP_LEN_CODER, posState, p.len - 2);
    }
  }

  lemma BodyFits(props: Props, ctx: Context, p: Packet)
    requires Legal(props)
    ensures Below(Body(props, ctx, p), NumProbs(props))
  {
    if p.Literal? {
      LiteralFits(props, ctx, p.b);
    } else {
      CopyBodyFits(props, ctx, p);
      BelowMore(Body(props, ctx, p), LITERAL, NumProbs(props));
    }
  }

  /** Every probability a packet can ask for lies inside the scratch array. */
  lemma CodeFits(props: Props, ctx: Context, p: Packet)
    requires Legal(props)
    ensures Below(Code(props, ctx, p), NumProbs(props))
  {
    PosStateSmall(props, |ctx.out|);
    FlagsFit(ctx.state, PosState(props, ctx), p);
    BodyFits(props, ctx, p);
    BelowMore(Flags(ctx.state, PosState(props, ctx), p), LITERAL, NumProbs(props));
    BelowAppend(Flags(ctx.state, PosState(props, ctx), p), Body(props, ctx, p), NumProbs(props), NumProbs(props));
  }
}
