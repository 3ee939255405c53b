/** The bit-tree loops of lzmadecode.c: each reads one value and has asked
    exactly the decisions the format gives that value.  The ghost result `w` is
    the value read or, when the input ran dry inside it, some value whose
    decisions the input was following. */
module LzmaTrees {
  import opened Basics
  import opened LzmaRange
  import opened LzmaFormat

  // ------------------------------------------------------------ one step down

  lemma StuckInPath(input: seq<Byte>, c: Coder, t: Tree, node: nat, m: Coder, c': Coder, k: nat)
    requires node >= 1 && t.base >= -1 && k >= 1
    requires Decoded(input, c, Path(t, node), m, true)
    requires Decoded(input, m, [Adaptive(Index(t, node), 0)], c', false)
    ensures Doubled(node, k) >= 1
    ensures Decoded(input, c, Path(t, Doubled(node, k)), c', false)
  {
    var rest := PathExtends(t, node, k);
    StuckInside(input, c, Path(t, node), m, Adaptive(Index(t, node), 0), c', Path(t, Doubled(node, k)));
  }

  lemma Descend(input: seq<Byte>, c: Coder, t: Tree, node: nat, m: Coder, bit: Bit, c': Coder)
    requires node >= 1 && t.base >= -1
    requires Decoded(input, c, Path(t, node), m, true)
    requires Decoded(input, m, [Adaptive(Index(t, node), bit)], c', true)
    ensures Decoded(input, c, Path(t, 2 * node + bit), c', true)
  {
    DecodedThen(input, c, Path(t, node), m, [Adaptive(Index(t, node), bit)], c', true);
    assert (2 * node + bit) / 2 == node && (2 * node + bit) % 2 == bit;
  }

  /** Reads the bit that leads from `node` to one of its children, `left` levels
      above the leaves. */
  method Branch(dec: RangeDecoder, index: nat, ghost c: Coder, ghost t: Tree, ghost node: nat, ghost left: nat)
    returns (ok: bool, bit: Bit)
    requires node >= 1 && t.base >= -1 && left >= 1
    requires index == Index(t, node) < dec.probs.Length
    requires Decoded(dec.input, c, Path(t, node), dec.State(), true)
    modifies dec, dec.probs
    ensures dec.input == old(dec.input)
    ensures Doubled(node, left) >= 1
    ensures Decoded(dec.input, c, Path(t, if ok then 2 * node + bit else Doubled(node, left)), dec.State(), ok)
  {
    ghost var m := dec.State();
    ok, bit := dec.DecodeBit(index);
    if ok {
      Descend(dec.input, c, t, node, m, bit, dec.State());
      ghost var rest := PathExtends(t, node, left);
    } else {
      StuckInPath(dec.input, c, t, node, m, dec.State(), left);
    }
  }

  // --------------------------------------------------------------- plain trees

  /** One bit of a plain tree of `levels` levels, from row `j` with `left` still to go. */
  method TreeBit(dec: RangeDecoder, base: nat, node: nat, ghost c: Coder, ghost levels: nat, ghost j: nat,
                 ghost left: nat)
    returns (ok: bool, bit: Bit, ghost w: nat)
    requires 1 <= left && j + left == levels && Pow2(j) <= node < 2 * Pow2(j)
    requires base + Pow2(levels) <= dec.probs.Length
    requires Decoded(dec.input, c, Path(Plain(base), node), dec.State(), true)
    modifies dec, dec.probs
    ensures dec.input == old(dec.input)
    ensures w < Pow2(levels) && Pow2(j + 1) <= 2 * node + bit < 2 * Pow2(j + 1)
    ensures Decoded(dec.input, c, Path(Plain(base), if ok then 2 * node + bit else Pow2(levels) + w), dec.State(), ok)
  {
    hide Decoded, Path, Doubled, Pow2;
    RowInside(j, left);
    DoubledRow(node, j, left);
    ok, bit := Branch(dec, base + node, c, Plain(base), node, left);
    w := Doubled(node, left) - Pow2(levels);
  }

  lemma RowInside(j: nat, left: nat)
    requires left >= 1
    ensures Pow2(j + 1) == 2 * Pow2(j) && Pow2(j + 1) <= Pow2(j + left)
  {
    Pow2Monotone(j + 1, j + left);
  }

  method DecodeTree(dec: RangeDecoder, base: nat, levels: nat) returns (ok: bool, v: nat, ghost w: nat)
    requires base + Pow2(levels) <= dec.probs.Length
    modifies dec, dec.probs
    ensures dec.input == old(dec.input)
    ensures w < Pow2(levels) && (ok ==> v == w)
    ensures Decoded(dec.input, old(dec.State()), Path(Plain(base), Pow2(levels) + w), dec.State(), ok)
  {
    hide Decoded, Path, Pow2;
    ghost var c := dec.State();
    NothingRead(dec.input, c, Plain(base), base, 0);
    var res: nat, i: nat := 1, levels;
    ghost var j := 0;
    ok, v, w := true, 0, 0;
    while i != 0
      invariant i + j == levels && dec.input == old(dec.input)
      invariant Pow2(j) <= res < 2 * Pow2(j)
      invariant ok && Decoded(dec.input, c, Path(Plain(base), res), dec.State(), true)
    {
      var bit;
      ok, bit, w := TreeBit(dec, base, res, c, levels, j, i);
      if !ok {
        return;
      }
      res, i, j := 2 * res + bit, i - 1, j + 1;
    }
    v := res - Pow2(levels);
    w := v;
  }

  /** Before the first bit every kind of path is empty. */
  lemma NothingRead(input: seq<Byte>, c: Coder, t: Tree, base: int, n: nat)
    requires n == 0 && base >= -1 && t.base >= -1
    ensures Decoded(input, c, Path(t, n + 1), c, true) && Decoded(input, c, ReversePath(base, n, 0), c, true)
    ensures Decoded(input, c, DirectCode(n, 0), c, true)
    ensures Pow2(n) == 1 && Pow2(n + 1) == 2 && ReverseNode(1, n, 0) == 1
  {
  }

  lemma {:induction false} ReverseNodePad(m: nat, j: nat, v: nat, k: nat)
    requires v < Pow2(j)
    ensures ReverseNode(m, j + k, v) == Doubled(ReverseNode(m, j, v), k)
    decreases k
  {
    if k > 0 {
      ReverseNodePad(m, j, v, k - 1);
      Pow2Monotone(j, j + k - 1);
      ReverseNodeGrows(m, j + k - 1, v, 0);
    }
  }

  /** One bit of a value coded lowest bit first, with `j` bits read and `n` to go. */
  method ReverseBit(dec: RangeDecoder, index: nat, ghost c: Coder, ghost base: int, ghost levels: nat, ghost j: nat,
                    ghost v: nat, ghost n: nat)
    returns (ok: bool, bit: Bit)
    requires base >= -1 && n >= 1 && j + n == levels && v < Pow2(j)
    requires index == base + ReverseNode(1, j, v) < dec.probs.Length
    requires Decoded(dec.input, c, ReversePath(base, j, v), dec.State(), true)
    modifies dec, dec.probs
    ensures dec.input == old(dec.input)
    ensures ok ==> Decoded(dec.input, c, ReversePath(base, j + 1, if bit == 0 then v else v + Pow2(j)), dec.State(),
            true)
    ensures !ok ==> Decoded(dec.input, c, ReversePath(base, levels, v), dec.State(), false)
    ensures ReverseNode(1, j + 1, if bit == 0 then v else v + Pow2(j)) == 2 * ReverseNode(1, j, v) + bit
  {
    hide ReverseNode, Doubled, Pow2, Decoded, Path;
    ReverseNodeRange(1, j, v);
    DoubledOne(j);
    ok, bit := Branch(dec, index, c, Plain(base), ReverseNode(1, j, v), n);
    ReverseNodePad(1, j, v, n);
    ReverseNodeGrows(1, j, v, bit);
  }

  method DecodeReverse(dec: RangeDecoder, base: int, levels: nat) returns (ok: bool, v: nat, ghost w: nat)
    requires -1 <= base && base + Pow2(levels) <= dec.probs.Length
    modifies dec, dec.probs
    ensures dec.input == old(dec.input)
    ensures w < Pow2(levels) && (ok ==> v == w)
    ensures Decoded(dec.input, old(dec.State()), ReversePath(base, levels, w), dec.State(), ok)
  {
    hide Decoded, ReversePath, ReverseNode, Pow2;
    ghost var c := dec.State();
    NothingRead(dec.input, c, Plain(0), base, 0);
    var i: nat, mi: nat, n: nat := 1, 1, levels;
    ghost var j := 0;
    v, w, ok := 0, 0, true;
    while n != 0
      invariant n + j == levels && dec.input == old(dec.input)
      invariant i == Pow2(j) && v < i
      invariant mi == ReverseNode(1, j, v)
      invariant ok && Decoded(dec.input, c, ReversePath(base, j, v), dec.State(), true)
    {
      ReverseInside(levels, j, n, v);
      var bit;
      ok, bit := ReverseBit(dec, base + mi, c, base, levels, j, v, n);
      w := v;
      if !ok {
        return;
      }
      mi := 2 * mi + bit;
      v := if bit == 0 then v else v + i;
      i, n, j := 2 * i, n - 1, j + 1;
    }
    w := v;
  }

  /** The node reached is inside the tree. */
  lemma ReverseInside(levels: nat, j: nat, n: nat, v: nat)
    requires 1 <= n && j + n == levels && v < Pow2(j)
    ensures 1 <= ReverseNode(1, j, v) < Pow2(levels)
    ensures Pow2(j) <= Pow2(levels) && Pow2(j + 1) == 2 * Pow2(j)
  {
    ReverseNodeRange(1, j, v);
    DoubledOne(j);
    Pow2Monotone(j + 1, levels);
  }

  // --------------------------------------------------------------- direct bits

  lemma {:induction false} DirectCodePad(n: nat, v: nat, k: nat) returns (rest: seq<Decision>)
    ensures DirectCode(n + k, Doubled(v, k)) == DirectCode(n, v) + rest
    ensures k >= 1 ==> rest != [] && rest[0] == Direct(0)
    decreases k
  {
    if k == 0 {
      rest := [];
    } else {
      rest := DirectCodePad(n, v, k - 1);
      rest := rest + [Direct(0)];
    }
  }

  method Halve(dec: RangeDecoder, ghost c: Coder, ghost n: nat, ghost v: nat, ghost left: nat)
    returns (ok: bool, bit: Bit)
    requires left >= 1
    requires Decoded(dec.input, c, DirectCode(n, v), dec.State(), true)
    modifies dec
    ensures dec.input == old(dec.input)
    ensures ok ==> Decoded(dec.input, c, DirectCode(n + 1, 2 * v + bit), dec.State(), true)
    ensures !ok ==> Decoded(dec.input, c, DirectCode(n + left, Doubled(v, left)), dec.State(), false)
  {
    hide Decoded, Doubled, RangeDecoder.State;
    ghost var m := dec.State();
    ok, bit := dec.DecodeDirect();
    if ok {
      DecodedThen(dec.input, c, DirectCode(n, v), m, [Direct(bit)], dec.State(), true);
    } else {
      ghost var rest := DirectCodePad(n, v, left);
      StuckInside(dec.input, c, DirectCode(n, v), m, Direct(0), dec.State(), DirectCode(n + left, Doubled(v, left)));
    }
  }

  method DecodeDirectBits(dec: RangeDecoder, levels: nat) returns (ok: bool, v: nat, ghost w: nat)
    modifies dec
    ensures dec.input == old(dec.input)
    ensures w < Pow2(levels) && (ok ==> v == w)
    ensures Decoded(dec.input, old(dec.State()), DirectCode(levels, w), dec.State(), ok)
  {
    hide Decoded, DirectCode, Pow2, Doubled;
    ghost var c := dec.State();
    NothingRead(dec.input, c, Plain(0), 0, 0);
    var n: nat := levels;
    ghost var j := 0;
    v, ok := 0, true;
    while n != 0
      invariant n + j == levels && dec.input == old(dec.input)
      invariant v < Pow2(j)
      invariant Decoded(dec.input, c, DirectCode(j, v), dec.State(), true)
    {
      var bit;
      ok, bit := Halve(dec, c, j, v, n);
      if !ok {
        DoubledBelow(v, j, n);
        w := Doubled(v, n);
        return;
      }
      Pow2Next(j);
      v, n, j := 2 * v + bit, n - 1, j + 1;
    }
    w := v;
  }

  lemma Pow2Next(n: nat)
    ensures Pow2(n + 1) == 2 * Pow2(n)
  {
  }

  // ------------------------------------------------------------------- literals

  lemma {:induction false} ShrOnPath(x: nat, k: nat)
    requires Shr(x, k + 1) >= 1
    ensures NextOnPath(Shr(x, k + 1), x) == Some(Shr(x, k) % 2)
    decreases k
  {
    ShrFirst(x, k);
    if k > 0 {
      ShrFirst(x, k - 1);
      ShrShrinks(x / 2, k - 1);
      ShrOnPath(x / 2, k - 1);
    }
  }

  lemma {:induction false} OnlyOneWayDown(node: nat, leaf: nat, b: Bit)
    requires node >= 1
    ensures NextOnPath(2 * node + b, leaf).Some? ==> NextOnPath(node, leaf) == Some(b)
    decreases leaf
  {
    if leaf > 2 * node + b && leaf / 2 != 2 * node + b {
      OnlyOneWayDown(node, leaf / 2, b);
    }
  }

  /** Where the walk down the guide's own path stands with `n` levels to go: what
      is left of the guide is what the shifted match byte shows below bit 8. */
  ghost predicate OnGuide(leaf: nat, n: nat, symbol: nat, matchByte: nat)
    requires n <= 8
  {
    Doubled(leaf, 8 - n) == 256 * symbol + matchByte % 0x100
  }

  lemma GuideArithmetic(leaf: nat, n: nat, symbol: nat, matchByte: nat)
    requires 1 <= n <= 8 && OnGuide(leaf, n, symbol, matchByte)
    ensures OnGuide(leaf, n - 1, 2 * symbol + matchByte * 2 / 0x100 % 2, matchByte * 2)
  {
    var q, low := matchByte / 0x100, matchByte % 0x100;
    assert matchByte * 2 == 0x100 * (2 * q) + 2 * low;
    assert Doubled(leaf, 9 - n) == 2 * Doubled(leaf, 8 - n);
    assert matchByte * 2 / 0x100 == 2 * q + low / 128;
    assert matchByte * 2 % 0x100 == 2 * low - 0x100 * (low / 128);
  }

  lemma {:induction false} OnGuideIsAncestor(leaf: nat, n: nat, symbol: nat, matchByte: nat)
    requires n <= 8 && OnGuide(leaf, n, symbol, matchByte)
    ensures symbol == Shr(leaf, n)
    decreases n
  {
    if n == 0 {
      Times256(leaf);
    } else {
      GuideArithmetic(leaf, n, symbol, matchByte);
      OnGuideIsAncestor(leaf, n - 1, 2 * symbol + matchByte * 2 / 0x100 % 2, matchByte * 2);
    }
  }

  lemma Times256(x: nat)
    ensures Doubled(x, 8) == 256 * x
  {
    assert Doubled(x, 1) == 2 * x;
    assert Doubled(x, 2) == 4 * x;
    assert Doubled(x, 3) == 8 * x;
    assert Doubled(x, 4) == 16 * x;
    assert Doubled(x, 5) == 32 * x;
    assert Doubled(x, 6) == 64 * x;
    assert Doubled(x, 7) == 128 * x;
  }

  /** The bit the source takes from bit 8 of the shifted match byte is the next bit
      on the way to the guide's leaf. */
  lemma GuideStep(leaf: nat, n: nat, symbol: nat, matchByte: nat)
    requires 1 <= n <= 8 && symbol >= 1 && OnGuide(leaf, n, symbol, matchByte)
    ensures NextOnPath(symbol, leaf) == Some(matchByte * 2 / 0x100 % 2)
    ensures OnGuide(leaf, n - 1, 2 * symbol + matchByte * 2 / 0x100 % 2, matchByte * 2)
  {
    GuideArithmetic(leaf, n, symbol, matchByte);
    OnGuideIsAncestor(leaf, n, symbol, matchByte);
    OnGuideIsAncestor(leaf, n - 1, 2 * symbol + matchByte * 2 / 0x100 % 2, matchByte * 2);
    ShrOnPath(leaf, n - 1);
  }

  lemma StuckLiteral(symbol: nat, n: nat) returns (w: Byte)
    requires n <= 8 && Pow2(8 - n) <= symbol < 2 * Pow2(8 - n)
    ensures Doubled(symbol, n) == 256 + w
  {
    DoubledRow(symbol, 8 - n, n);
    Pow2Small();
    w := Doubled(symbol, n) - 256;
  }

  function LiteralModel(base: nat, guide: Option<Byte>): Tree {
    if guide.Some? then Guided(base, guide.value) else Plain(base)
  }

  /** One bit of a literal, `n` levels above the leaf. */
  method LiteralBit(dec: RangeDecoder, index: nat, ghost c: Coder, ghost t: Tree, ghost symbol: nat, ghost n: nat)
    returns (ok: bool, bit: Bit, ghost w: Byte)
    requires t.base >= 0 && symbol < 0x100 && InRow(symbol, n)
    requires index == Index(t, symbol) < dec.probs.Length
    requires Decoded(dec.input, c, Path(t, symbol), dec.State(), true)
    modifies dec, dec.probs
    ensures dec.input == old(dec.input)
    ensures n >= 1 && InRow(2 * symbol + bit, n - 1)
    ensures Decoded(dec.input, c, Path(t, if ok then 2 * symbol + bit else 256 + w), dec.State(), ok)
  {
    RowEnds(symbol, n);
    ok, bit := Branch(dec, index, c, t, symbol, n);
    w := StuckLiteral(symbol, n);
  }

  /** A node of a literal tree, `n` levels above the leaves. */
  predicate InRow(symbol: nat, n: nat) {
    n <= 8 && Pow2(8 - n) <= symbol < 2 * Pow2(8 - n)
  }

  lemma RowEnds(symbol: nat, n: nat)
    requires InRow(symbol, n)
    ensures symbol < 0x100 <==> n >= 1
    ensures symbol < 512
  {
    Pow2Small();
    if n >= 1 { Pow2Monotone(8 - n, 7); }
  }

  lemma TopRow(n: nat)
    requires n == 8
    ensures InRow(1, n)
  {
    assert Pow2(0) == 1;
  }

  lemma OnGuideAtTop(guide: Byte, n: nat)
    requires n == 8
    ensures OnGuide(256 + guide, n, 1, guide)
  {
  }

  method NextGuideBit(matchByte: nat, ghost leaf: nat, ghost n: nat, ghost symbol: nat) returns (shifted: nat, bit: nat)
    requires 1 <= n <= 8 && symbol >= 1 && OnGuide(leaf, n, symbol, matchByte)
    ensures bit < 2 && NextOnPath(symbol, leaf) == Some(bit) && OnGuide(leaf, n - 1, 2 * symbol + bit, shifted)
  {
    GuideStep(leaf, n, symbol, matchByte);
    shifted := matchByte * 2;
    bit := shifted / 0x100 % 2;
  }

  /** One bit of a literal that its match byte still guides. */
  method GuidedBit(dec: RangeDecoder, base: nat, guide: Byte, symbol: nat, matchByte: nat, ghost c: Coder, ghost n: nat)
    returns (ok: bool, next: nat, shifted: nat, same: bool, ghost w: Byte)
    requires base + 768 <= dec.probs.Length && symbol < 0x100 && InRow(symbol, n) && n >= 1
    requires OnGuide(256 + guide, n, symbol, matchByte)
    requires Decoded(dec.input, c, Path(Guided(base, guide), symbol), dec.State(), true)
    modifies dec, dec.probs
    ensures dec.input == old(dec.input)
    ensures InRow(next, n - 1)
    ensures Decoded(dec.input, c, Path(Guided(base, guide), if ok then next else 256 + w), dec.State(), ok)
    ensures if same then OnGuide(256 + guide, n - 1, next, shifted) else NextOnPath(next, 256 + guide).None?
  {
    hide Decoded, Path, OnGuide;
    var guideBit, bit;
    shifted, guideBit := NextGuideBit(matchByte, 256 + guide, n, symbol);
    ok, bit, w := LiteralBit(dec, base + 0x100 + 0x100 * guideBit + symbol, c, Guided(base, guide), symbol, n);
    OnlyOneWayDown(symbol, 256 + guide, bit);
    next, same := 2 * symbol + bit, bit == guideBit;
  }

  /** The match-guided part of a literal: it follows the match byte until the bits
      read first differ from it. */
  method FollowGuide(dec: RangeDecoder, base: nat, guide: Byte, ghost c: Coder)
    returns (ok: bool, symbol: nat, ghost n: nat, ghost w: Byte)
    requires base + 768 <= dec.probs.Length
    requires c == dec.State()
    modifies dec, dec.probs
    ensures dec.input == old(dec.input)
    ensures InRow(symbol, n)
    ensures Decoded(dec.input, c, Path(Guided(base, guide), if ok then symbol else 256 + w), dec.State(), ok)
    ensures ok && symbol < 0x100 ==> NextOnPath(symbol, 256 + guide).None?
  {
    hide Decoded, Path, NextOnPath, Pow2, Doubled;
    ghost var t := Guided(base, guide);
    var matchByte: nat := guide;
    symbol, n, w, ok := 1, 8, 0, true;
    TopRow(8);
    OnGuideAtTop(guide, 8);
    NothingRead(dec.input, c, t, 0, 0);
    while symbol < 0x100
      invariant InRow(symbol, n) && dec.input == old(dec.input)
      invariant OnGuide(256 + guide, n, symbol, matchByte)
      invariant ok && Decoded(dec.input, c, Path(t, symbol), dec.State(), true)
      decreases n
    {
      assert n >= 1 by { RowEnds(symbol, n); }
      var same;
      ok, symbol, matchByte, same, w := GuidedBit(dec, base, guide, symbol, matchByte, c, n);
      n := n - 1;
      if !ok {
        return;
      }
      if !same {
        break;
      }
    }
  }

  method DecodeLiteral(dec: RangeDecoder, base: nat, guide: Option<Byte>) returns (ok: bool, b: Byte, ghost w: Byte)
    requires base + 768 <= dec.probs.Length
    modifies dec, dec.probs
    ensures dec.input == old(dec.input)
    ensures Decoded(dec.input, old(dec.State()), Path(LiteralModel(base, guide), 256 + w), dec.State(), ok)
    ensures ok ==> b == w
  {
    hide Decoded, Path, NextOnPath, Pow2;
    ghost var c := dec.State();
    var symbol: nat := 1;
    ghost var n: nat := 8;
    TopRow(8);
    NothingRead(dec.input, c, LiteralModel(base, guide), 0, 0);
    if guide.Some? {
      ok, symbol, n, w := FollowGuide(dec, base, guide.value, c);
      if !ok {
        b := 0;
        return;
      }
    }
    ok, b, w := LiteralRest(dec, base, guide, symbol, c, n);
  }

  /** One bit of a literal that no match byte guides any more. */
  method UnguidedBit(dec: RangeDecoder, base: nat, guide: Option<Byte>, symbol: nat, ghost c: Coder, ghost n: nat)
    returns (ok: bool, next: nat, ghost w: Byte)
    requires base + 768 <= dec.probs.Length && symbol < 0x100 && InRow(symbol, n)
    requires guide.Some? ==> NextOnPath(symbol, 256 + guide.value).None?
    requires Decoded(dec.input, c, Path(LiteralModel(base, guide), symbol), dec.State(), true)
    modifies dec, dec.probs
    ensures dec.input == old(dec.input)
    ensures n >= 1 && InRow(next, n - 1)
    ensures Decoded(dec.input, c, Path(LiteralModel(base, guide), if ok then next else 256 + w), dec.State(), ok)
    ensures guide.Some? ==> NextOnPath(next, 256 + guide.value).None?
  {
    hide Decoded, Path, NextOnPath;
    var bit;
    ok, bit, w := LiteralBit(dec, base + symbol, c, LiteralModel(base, guide), symbol, n);
    next := 2 * symbol + bit;
    if guide.Some? { OnlyOneWayDown(symbol, 256 + guide.value, bit); }
  }

  /** The remaining bits, down to a leaf or to where the input ran dry. */
  method LiteralBits(dec: RangeDecoder, base: nat, guide: Option<Byte>, start: nat, ghost c: Coder, ghost left: nat)
    returns (ok: bool, symbol: nat, ghost n: nat, ghost w: Byte)
    requires base + 768 <= dec.probs.Length && InRow(start, left)
    requires start < 0x100 && guide.Some? ==> NextOnPath(start, 256 + guide.value).None?
    requires Decoded(dec.input, c, Path(LiteralModel(base, guide), start), dec.State(), true)
    modifies dec, dec.probs
    ensures dec.input == old(dec.input)
    ensures InRow(symbol, n) && (ok ==> symbol >= 0x100)
    ensures Decoded(dec.input, c, Path(LiteralModel(base, guide), if ok then symbol else 256 + w), dec.State(), ok)
  {
    hide Decoded, Path, NextOnPath;
    symbol, n, ok, w := start, left, true, 0;
    while ok && symbol < 0x100
      invariant InRow(symbol, n) && dec.input == old(dec.input)
      invariant ok && symbol < 0x100 && guide.Some? ==> NextOnPath(symbol, 256 + guide.value).None?
      invariant Decoded(dec.input, c, Path(LiteralModel(base, guide), if ok then symbol else 256 + w), dec.State(), ok)
      decreases n, ok
    {
      ok, symbol, w := UnguidedBit(dec, base, guide, symbol, c, n);
      n := n - 1;
    }
  }

  method LiteralRest(dec: RangeDecoder, base: nat, guide: Option<Byte>, start: nat, ghost c: Coder, ghost left: nat)
    returns (ok: bool, b: Byte, ghost w: Byte)
    requires base + 768 <= dec.probs.Length && InRow(start, left)
    requires start < 0x100 && guide.Some? ==> NextOnPath(start, 256 + guide.value).None?
    requires Decoded(dec.input, c, Path(LiteralModel(base, guide), start), dec.State(), true)
    modifies dec, dec.probs
    ensures dec.input == old(dec.input)
    ensures Decoded(dec.input, c, Path(LiteralModel(base, guide), 256 + w), dec.State(), ok)
    ensures ok ==> b == w
  {
    hide Decoded, Path, NextOnPath, Pow2;
    var symbol;
    ghost var n;
    ok, symbol, n, w := LiteralBits(dec, base, guide, start, c, left);
    b := 0;
    if ok {
      RowEnds(symbol, n);
      b := symbol - 256;
      w := b;
    }
  }
}
