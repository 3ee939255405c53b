/** The questions a packet puts to the stream, one by one, as lzmadecode.c computes them:
    which probability is asked, and which bit of the packet answers it.  What the format
    says with trees and codes is said here with shifts and remainders of the source's own
    numbers. */
module LzmaQuestions {
  import opened Basics
  import opened LzmaRange
  import opened LzmaFormat
  import opened LzmaTrees

  // ---------------------------------------------------------------- bit trees

  lemma {:induction false} ShrRow(x: nat, n: nat, j: nat)
    requires Pow2(n) <= x < 2 * Pow2(n) && j <= n
    ensures Pow2(n - j) <= Shr(x, j) < 2 * Pow2(n - j)
    decreases j
  {
    if j > 0 { ShrRow(x, n, j - 1); }
  }

  /** Question `k` of the way to a node of row `n`: the node asked is the one its first `k`
      bits lead to, and the answer is the next bit, from the top. */
  lemma {:induction false} PathQuestion(t: Tree, n: nat, node: nat, k: nat)
    requires t.base >= -1 && Pow2(n) <= node < 2 * Pow2(n) && k < n
    ensures |Path(t, node)| == n && Shr(node, n - k) >= 1
    ensures Path(t, node)[k] == Adaptive(Index(t, Shr(node, n - k)), Shr(node, n - k - 1) % 2)
    decreases n
  {
    ShrRow(node, n, n - k);
    if n > 1 { PathQuestion(t, n - 1, node / 2, if k < n - 1 then k else 0); }
    if k < n - 1 {
      ShrFirst(node, n - 1 - k);
      ShrFirst(node, n - 2 - k);
    } else {
      assert Shr(node, 1) == Shr(node, 0) / 2 == node / 2;
    }
  }

  lemma {:induction false} OnPathIsAbove(node: nat, leaf: nat) returns (j: nat)
    requires node >= 1 && NextOnPath(node, leaf).Some?
    ensures j >= 1 && Shr(leaf, j) == node
    decreases leaf
  {
    if leaf / 2 == node {
      j := 1;
      assert Shr(leaf, 1) == Shr(leaf, 0) / 2;
    } else {
      j := OnPathIsAbove(node, leaf / 2);
      ShrFirst(leaf, j);
      j := j + 1;
    }
  }

  lemma {:induction false} RowIs(x: nat, a: nat, b: nat)
    requires Pow2(a) <= x < 2 * Pow2(a) && Pow2(b) <= x < 2 * Pow2(b)
    ensures a == b
  {
    if a < b {
      Pow2Monotone(a + 1, b);
    } else if b < a {
      Pow2Monotone(b + 1, a);
    }
  }

  /** A node of row `k` is on the way to a leaf of row `n` when the leaf's first `k` bits
      lead to it. */
  lemma GuideIs(node: nat, k: nat, leaf: nat, n: nat)
    requires k < n && Pow2(k) <= node < 2 * Pow2(k) && Pow2(n) <= leaf < 2 * Pow2(n)
    ensures NextOnPath(node, leaf) == if Shr(leaf, n - k) == node then Some(Shr(leaf, n - k - 1) % 2) else None
  {
    if Shr(leaf, n - k) == node { ShrOnPath(leaf, n - k - 1); }
    if NextOnPath(node, leaf).Some? {
      var j := OnPathIsAbove(node, leaf);
      if j <= n {
        ShrRow(leaf, n, j);
        RowIs(node, k, n - j);
      } else {
        ShrVanishes(leaf, n, j);
      }
    }
  }

  lemma {:induction false} ShrVanishes(x: nat, n: nat, j: nat)
    requires x < 2 * Pow2(n) && j > n
    ensures Shr(x, j) == 0
    decreases j
  {
    if j == n + 1 {
      assert Pow2(n + 1) == 2 * Pow2(n);
      ShrBelow(x, n + 1, j);
    } else {
      ShrVanishes(x, n, j - 1);
    }
  }

  // ------------------------------------------------------------------ literals

  lemma RowOfBytes()
    ensures Pow2(8) == 256 && Pow2(3) == 8 && Pow2(6) == 64
  {
    Pow2Small();
  }

  /** A literal: its flag, and for each of its bits, from the top, the tree that position
      and previous byte select.  After a match the byte at the last distance chooses among
      three trees, for as long as the literal agrees with it. */
  lemma LiteralQuestion(props: Props, ctx: Context, b: Byte, k: nat, i: nat)
    requires Legal(props) && k < 8
    requires var prev: nat := if ctx.out == [] then 0 else ctx.out[|ctx.out| - 1];
             i == Doubled(|ctx.out| % Pow2(props.lp), props.lc) + Shr(prev, 8 - props.lc)
    ensures |Code(props, ctx, Literal(b))| == 9
    ensures Code(props, ctx, Literal(b))[0] == Adaptive(16 * ctx.state + |ctx.out| % Pow2(props.pb), 0)
    ensures var v: nat := b;
            var node := Shr(256 + v, 8 - k);
            var offset :=
              if ctx.state < 7 then 0
              else
                var guide: nat := ctx.out[|ctx.out| - ctx.reps[0]];
                if Shr(256 + guide, 8 - k) == node then 256 + 256 * (Shr(256 + guide, 7 - k) % 2) else 0;
            Code(props, ctx, Literal(b))[1 + k] == Adaptive(1846 + 768 * i + node + offset, Shr(256 + v, 7 - k) % 2)
  {
    hide Code, LiteralTree, Path, Shr, Pow2, Index, Rem;
    var v: nat := b;
    LiteralShape(props, ctx, b, k);
    LiteralBase(props, ctx, i);
    LiteralPlace(props, ctx, v, k, i);
  }

  lemma LiteralShape(props: Props, ctx: Context, b: Byte, k: nat)
    requires Legal(props) && k < 8
    ensures var v: nat := b;
            && |Code(props, ctx, Literal(b))| == 9 && Shr(256 + v, 8 - k) >= 1
            && Code(props, ctx, Literal(b))[0] == Adaptive(16 * ctx.state + |ctx.out| % Pow2(props.pb), 0)
            && Code(props, ctx, Literal(b))[1 + k] ==
                Adaptive(Index(LiteralTree(props, ctx), Shr(256 + v, 8 - k)), Shr(256 + v, 7 - k) % 2)
  {
    var v: nat := b;
    hide Code, LiteralTree, Path, Shr, Pow2, Index, Rem;
    RowOfBytes();
    PathQuestion(LiteralTree(props, ctx), 8, 256 + v, k);
    FlagThenTree(props, ctx, b);
  }

  lemma FlagThenTree(props: Props, ctx: Context, b: Byte)
    requires Legal(props)
    ensures var v: nat := b;
            Code(props, ctx, Literal(b)) ==
            [Adaptive(16 * ctx.state + |ctx.out| % Pow2(props.pb), 0)] + Path(LiteralTree(props, ctx), 256 + v)
  {
    hide LiteralTree, Path, Pow2, Rem;
    RemIsMod(|ctx.out|, Pow2(props.pb));
  }

  lemma LiteralPlace(props: Props, ctx: Context, v: nat, k: nat, i: nat)
    requires Legal(props) && k < 8 && v < 256 && LiteralTree(props, ctx).base == 1846 + 768 * i
    ensures Shr(256 + v, 8 - k) >= 1
    ensures var node := Shr(256 + v, 8 - k);
            var offset :=
              if ctx.state < 7 then 0
              else
                var guide: nat := ctx.out[|ctx.out| - ctx.reps[0]];
                if Shr(256 + guide, 8 - k) == node then 256 + 256 * (Shr(256 + guide, 7 - k) % 2) else 0;
            Index(LiteralTree(props, ctx), Shr(256 + v, 8 - k)) == 1846 + 768 * i + node + offset
  {
    RowOfBytes();
    ShrRow(256 + v, 8, 8 - k);
    if ctx.state >= 7 {
      var guide: nat := ctx.out[|ctx.out| - ctx.reps[0]];
      GuideIs(Shr(256 + v, 8 - k), k, 256 + guide, 8);
      GuidedIndex(props, ctx, guide, Shr(256 + v, 8 - k));
    } else {
      PlainIndex(props, ctx, Shr(256 + v, 8 - k));
    }
  }

  lemma GuidedIndex(props: Props, ctx: Context, guide: nat, node: nat)
    requires Legal(props) && ctx.state >= 7 && guide == ctx.out[|ctx.out| - ctx.reps[0]]
    ensures var t := LiteralTree(props, ctx);
            Index(t, node) == t.base + node + match NextOnPath(node, 256 + guide)
                                              case None => 0
                                              case Some(bit) => 256 + 256 * bit
  {
  }

  lemma PlainIndex(props: Props, ctx: Context, node: nat)
    requires Legal(props) && ctx.state < 7
    ensures Index(LiteralTree(props, ctx), node) == LiteralTree(props, ctx).base + node
  {
  }

  lemma LiteralBase(props: Props, ctx: Context, i: nat)
    requires Legal(props)
    requires var prev: nat := if ctx.out == [] then 0 else ctx.out[|ctx.out| - 1];
             i == Doubled(|ctx.out| % Pow2(props.lp), props.lc) + Shr(prev, 8 - props.lc)
    ensures LiteralTree(props, ctx).base == 1846 + 768 * i
  {
    RemIsMod(|ctx.out|, Pow2(props.lp));
  }

  // ---------------------------------------------------------- flags and lengths

  /** A packet that copies: how it is told from the others, and where its length begins. */
  lemma CopyQuestions(props: Props, ctx: Context, p: Packet)
    requires Legal(props) && !p.Literal?
    ensures var ds, s, posState := Code(props, ctx, p), ctx.state, |ctx.out| % Pow2(props.pb);
            && |ds| >= 2 && ds[0] == Adaptive(16 * s + posState, 1)
            && ds[1] == Adaptive(192 + s, if p.Match? then 0 else 1)
            && (p.ShortRep? ==> ds[2..] == [Adaptive(204 + s, 0), Adaptive(240 + 16 * s + posState, 0)])
            && (p.Rep? && p.which == 0 ==>
                  ds[2..] == [Adaptive(204 + s, 0), Adaptive(240 + 16 * s + posState, 1)]
                             + LenCode(1332, posState, p.len - 2))
            && (p.Rep? && p.which == 1 ==>
                  ds[2..] == [Adaptive(204 + s, 1), Adaptive(216 + s, 0)] + LenCode(1332, posState, p.len - 2))
            && (p.Rep? && p.which >= 2 ==>
                  ds[2..] == [Adaptive(204 + s, 1), Adaptive(216 + s, 1), Adaptive(228 + s, p.which - 2)]
                             + LenCode(1332, posState, p.len - 2))
            && (p.Match? ==>
                  ds[2..] == LenCode(818, posState, p.len - 2)
                             + DistCode(if p.len - 2 < 4 then p.len - 2 else 3, p.dist - 1))
  {
    hide LenCode, DistCode, Rem, Pow2;
    RemIsMod(|ctx.out|, Pow2(props.pb));
  }

  /** A length, less two: its class by one or two flags, then its bits from the top, in a
      tree that depends on the position only for the short classes. */
  lemma LengthQuestion(base: nat, posState: nat, l: nat, k: nat)
    requires l < 272 && k < 8 && (l < 16 ==> k < 3)
    ensures var ds := LenCode(base, posState, l);
            && (l < 8 ==>
                  && |ds| == 4 && ds[0] == Adaptive(base, 0)
                  && ds[1 + k] == Adaptive(base + 2 + 8 * posState + Shr(8 + l, 3 - k), Shr(8 + l, 2 - k) % 2))
            && (8 <= l < 16 ==>
                  && |ds| == 5 && ds[..2] == [Adaptive(base, 1), Adaptive(base + 1, 0)]
                  && ds[2 + k] == Adaptive(base + 130 + 8 * posState + Shr(l, 3 - k), Shr(l, 2 - k) % 2))
            && (16 <= l ==>
                  && |ds| == 10 && ds[..2] == [Adaptive(base, 1), Adaptive(base + 1, 1)]
                  && ds[2 + k] == Adaptive(base + 258 + Shr(256 + l - 16, 8 - k), Shr(256 + l - 16, 7 - k) % 2))
  {
    RowOfBytes();
    if l < 8 {
      PathQuestion(Plain(base + 2 + 8 * posState), 3, 8 + l, k);
    } else if l < 16 {
      PathQuestion(Plain(base + 130 + 8 * posState), 3, l, k);
    } else {
      PathQuestion(Plain(base + 258), 8, 256 + l - 16, k);
    }
  }

  // ------------------------------------------------------------------ distances

  /** The slot of a distance less one: the distance itself below four; otherwise twice the
      number of bits after its top two, plus those two. */
  lemma SlotIs(d: nat)
    requires d < 0x1_0000_0000
    ensures Slot(d) < 64 && (d < 4 ==> Slot(d) == d) && (d >= 4 ==> Slot(d) >= 4)
    ensures d >= 4 ==>
              var s := Slot(d);
              Doubled(2 + s % 2, s / 2 - 1) <= d < Doubled(2 + s % 2, s / 2 - 1) + Pow2(s / 2 - 1)
  {
    SlotBound(d);
    DistanceShape(d);
    if d >= 4 { assert Slot(d) / 2 - 1 == FooterBits(d) && 2 + Slot(d) % 2 == TopTwo(d); }
  }

  /** The six bits of the slot, from the top, in the tree for the length. */
  lemma SlotQuestion(lenState: nat, d: nat, k: nat)
    requires d < 0x1_0000_0000 && k < 6
    ensures |DistCode(lenState, d)| >= 6
    ensures DistCode(lenState, d)[k] ==
            Adaptive(432 + 64 * lenState + Shr(64 + Slot(d), 6 - k), Shr(64 + Slot(d), 5 - k) % 2)
    ensures d < 4 ==> |DistCode(lenState, d)| == 6
  {
    hide Path, FooterCode, Shr, Slot, Pow2, Doubled, TopTwo, FooterBits;
    RowOfBytes();
    SlotBound(d);
    PathQuestion(Plain(POS_SLOT + 64 * lenState), 6, 64 + Slot(d), k);
  }

  lemma SlotTree(lenState: nat, slot: nat)
    requires slot < 64
    ensures |Path(Plain(POS_SLOT + 64 * lenState), 64 + slot)| == 6
  {
    RowOfBytes();
    PathQuestion(Plain(POS_SLOT + 64 * lenState), 6, 64 + slot, 0);
  }

  lemma {:induction false} ReverseNext(m: nat, k: nat, v: nat)
    ensures ReverseNode(m, k + 1, v) == 2 * ReverseNode(m, k, v) + Shr(v, k) % 2
    decreases k
  {
    if k > 0 {
      ReverseNext(2 * m + v % 2, k - 1, v / 2);
      ShrFirst(v, k - 1);
    } else {
      assert ReverseNode(m, 1, v) == ReverseNode(2 * m + v % 2, 0, v / 2);
    }
  }

  lemma {:induction false} ReverseAbove(m: nat, n: nat, v: nat, k: nat)
    requires k <= n
    ensures Shr(ReverseNode(m, n, v), n - k) == ReverseNode(m, k, v)
    decreases n
  {
    if k > 0 {
      ReverseAbove(2 * m + v % 2, n - 1, v / 2, k - 1);
    } else {
      ReverseNodeRange(m, n, v);
      DoubledNext(m, n);
      ShrBetween(ReverseNode(m, n, v), m, n);
    }
  }

  /** A tree that is walked from the lowest bit up: question `k` is answered by bit `k`,
      and each question is a child of the one before. */
  lemma ReverseQuestion(base: int, n: nat, v: nat, k: nat)
    requires base >= -1 && k < n
    ensures var ds := ReversePath(base, n, v);
            && |ds| == n && ds[k].Adaptive? && ds[k].bit == Shr(v, k) % 2
            && (k == 0 ==> ds[k].index == base + 1)
            && (k > 0 ==> ds[k - 1].Adaptive? && ds[k].index - base == 2 * (ds[k - 1].index - base) + ds[k - 1].bit)
  {
    ReverseOne(base, n, v, k);
    if k > 0 {
      ReverseOne(base, n, v, k - 1);
      ReverseNext(1, k - 1, v);
    }
  }

  lemma ReverseOne(base: int, n: nat, v: nat, k: nat)
    requires base >= -1 && k < n
    ensures ReverseNode(1, k, v) >= 1
    ensures |ReversePath(base, n, v)| == n
    ensures ReversePath(base, n, v)[k] == Adaptive(base + ReverseNode(1, k, v), Shr(v, k) % 2)
  {
    ReverseNodeRange(1, n, v);
    ReverseNodeRange(1, k, v);
    DoubledOne(n);
    DoubledOne(k);
    PathQuestion(Plain(base), n, ReverseNode(1, n, v), k);
    ReverseAbove(1, n, v, k);
    ReverseAbove(1, n, v, k + 1);
    ReverseNext(1, k, v);
  }

  lemma {:induction false} DirectQuestion(n: nat, v: nat, k: nat)
    requires k < n
    ensures |DirectCode(n, v)| == n && DirectCode(n, v)[k] == Direct(Shr(v, n - 1 - k) % 2)
    decreases n
  {
    if n > 1 { DirectQuestion(n - 1, v / 2, if k < n - 1 then k else 0); }
    if k < n - 1 { ShrFirst(v, n - 2 - k); }
  }

  /** The bits below the top two of a distance less one.  Up to five of them are asked from
      the lowest up, in a tree of their own; of more, all but four are direct, from the top,
      and the last four are asked from the lowest up in one tree for all. */
  lemma FooterQuestion(lenState: nat, top: nat, n: nat, low: nat, k: nat)
    requires 2 <= top <= 3 && low < Pow2(n) && k < n <= 30
    ensures var d := Doubled(top, n) + low;
            var ds, base := DistCode(lenState, d), 688 + Doubled(top, n) - (2 * n + top) - 1;
            && Slot(d) == 2 * n + top && |ds| == 6 + n
            && (n < 6 ==> ds[6 + k].Adaptive? && ds[6 + k].bit == Shr(low, k) % 2)
            && (n < 6 && k == 0 ==> ds[6].index == base + 1)
            && (n < 6 && k > 0 ==>
                  && ds[5 + k].Adaptive?
                  && ds[6 + k].index - base == 2 * (ds[5 + k].index - base) + ds[5 + k].bit)
            && (n >= 6 && k < n - 4 ==> ds[6 + k] == Direct(Shr(low, n - 1 - k) % 2))
            && (n >= 6 && k >= n - 4 ==> ds[6 + k].Adaptive? && ds[6 + k].bit == Shr(low, k - (n - 4)) % 2)
            && (n >= 6 && k == n - 4 ==> ds[6 + k].index == 803)
            && (n >= 6 && k > n - 4 ==>
                  ds[5 + k].Adaptive? && ds[6 + k].index - 802 == 2 * (ds[5 + k].index - 802) + ds[5 + k].bit)
  {
    hide DistCode, FooterCode, Path, Doubled, Pow2, Slot, Shr;
    FooterBehindSlot(lenState, top, n, low);
    if n < 6 {
      ShortFooter(top, n, low, k);
    } else {
      LongFooter(top, n, low, k);
    }
  }

  lemma AtLeastFour(top: nat, n: nat)
    requires top >= 2 && n >= 1
    ensures Doubled(top, n) >= 4
  {
    DoubledAtLeast(top, n - 1);
    assert Doubled(top, n) == 2 * Doubled(top, n - 1);
  }

  lemma FooterBehindSlot(lenState: nat, top: nat, n: nat, low: nat)
    requires 2 <= top <= 3 && low < Pow2(n) && 1 <= n <= 30
    ensures var d := Doubled(top, n) + low;
            && Slot(d) == 2 * n + top && |DistCode(lenState, d)| >= 6
            && DistCode(lenState, d)[6..] == FooterCode(top, n, low)
  {
    hide Path, FooterCode, TopTwo, FooterBits, Pow2, Doubled;
    var d := Doubled(top, n) + low;
    DistanceShapeUnique(top, n, low);
    AtLeastFour(top, n);
    SlotTree(lenState, 2 * n + top);
    var slot, footer := Path(Plain(POS_SLOT + 64 * lenState), 64 + (2 * n + top)), FooterCode(top, n, low);
    assert DistCode(lenState, d) == slot + footer;
  }

  lemma ShortFooter(top: nat, n: nat, low: nat, k: nat)
    requires 2 <= top <= 3 && k < n < 6
    ensures var ds, base := FooterCode(top, n, low), 688 + Doubled(top, n) - (2 * n + top) - 1;
            && |ds| == n && ds[k].Adaptive? && ds[k].bit == Shr(low, k) % 2
            && (k == 0 ==> ds[k].index == base + 1)
            && (k > 0 ==> ds[k - 1].Adaptive? && ds[k].index - base == 2 * (ds[k - 1].index - base) + ds[k - 1].bit)
  {
    SpecBaseInRange(top, n);
    ReverseQuestion(SpecBase(top, n), n, low, k);
  }

  lemma LongFooter(top: nat, n: nat, low: nat, k: nat)
    requires 2 <= top <= 3 && 6 <= n && k < n
    ensures var ds := FooterCode(top, n, low);
            && |ds| == n
            && (k < n - 4 ==> ds[k] == Direct(Shr(low, n - 1 - k) % 2))
            && (k >= n - 4 ==> ds[k].Adaptive? && ds[k].bit == Shr(low, k - (n - 4)) % 2)
            && (k == n - 4 ==> ds[k].index == 803)
            && (k > n - 4 ==>
                  ds[k - 1].Adaptive? && ds[k].index - 802 == 2 * (ds[k - 1].index - 802) + ds[k - 1].bit)
  {
    DirectQuestion(n - 4, low / 16, if k < n - 4 then k else 0);
    ReverseQuestion(ALIGN, 4, low % 16, if k < n - 4 then 0 else k - (n - 4));
    LowFour(low, if k < n - 4 then 0 else k - (n - 4));
    if k < n - 4 { HighBits(low, n - 5 - k); }
  }

  lemma {:induction false} HighBits(x: nat, j: nat)
    ensures Shr(x / 16, j) == Shr(x, j + 4)
    decreases j
  {
    if j > 0 {
      HighBits(x, j - 1);
    } else {
      assert Shr(x, 1) == Shr(x, 0) / 2 == x / 2;
      assert Shr(x, 2) == Shr(x, 1) / 2;
      assert Shr(x, 3) == Shr(x, 2) / 2;
      assert Shr(x, 4) == Shr(x, 3) / 2;
    }
  }

  lemma {:induction false} LowBit(q: nat, i: nat, r: nat, j: nat)
    requires j < i
    ensures Shr(Doubled(q, i) + r, j) % 2 == Shr(r, j) % 2
    decreases j
  {
    var z := Doubled(q, i) + r;
    assert z / 2 == Doubled(q, i - 1) + r / 2 && z % 2 == r % 2;
    if j > 0 {
      ShrFirst(z, j - 1);
      ShrFirst(r, j - 1);
      LowBit(q, i - 1, r / 2, j - 1);
    }
  }

  lemma LowFour(x: nat, j: nat)
    requires j < 4
    ensures Shr(x % 16, j) % 2 == Shr(x, j) % 2
  {
    DoubledIsProduct(x / 16, 4);
    assert Pow2(4) == 16 by { Pow2Small(); }
    LowBit(x / 16, 4, x % 16, j);
  }
}
