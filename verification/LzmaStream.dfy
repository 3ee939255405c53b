/** Whole LZMA streams: which packet lists a byte stream spells, why there is at
    most one, and why every legal packet list is spelled by some byte stream. */
module LzmaStream {
  import opened Basics
  import opened LzmaRange
  import opened LzmaFormat

  // ------------------------------------------------------------ prefix freedom

  lemma LenCodesDiverge(base: nat, posState: nat, l: nat, m: nat)
    requires l < 272 && m < 272 && l != m
    ensures Diverge(LenCode(base, posState, l), LenCode(base, posState, m))
  {
    var a, b := LenCode(base, posState, l), LenCode(base, posState, m);
    Pow2Small();
    if l < 8 && m < 8 {
      var t := Plain(base + LEN_LOW + 8 * posState);
      PathsDiverge(t, 3, 8 + l, 8 + m);
      DivergeAfter([Adaptive(base, 0)], Path(t, 8 + l), Path(t, 8 + m));
    } else if l < 8 || m < 8 {
      DivergeIntro(a, b, 0);
    } else if l < 16 && m < 16 {
      var t := Plain(base + LEN_MID + 8 * posState);
      PathsDiverge(t, 3, l, m);
      DivergeAfter([Adaptive(base, 1), Adaptive(base + LEN_CHOICE2, 0)], Path(t, l), Path(t, m));
    } else if l < 16 || m < 16 {
      assert a[..1] == [Adaptive(base, 1)] == b[..1];
      DivergeIntro(a, b, 1);
    } else {
      var t := Plain(base + LEN_HIGH);
      PathsDiverge(t, 8, 256 + (l - 16), 256 + (m - 16));
      DivergeAfter([Adaptive(base, 1), Adaptive(base + LEN_CHOICE2, 1)],
                   Path(t, 256 + (l - 16)), Path(t, 256 + (m - 16)));
    }
  }

  lemma FooterCodesDiverge(top: nat, n: nat, v: nat, w: nat)
    requires 2 <= top <= 3 && n >= 1 && v < Pow2(n) && w < Pow2(n) && v != w
    ensures Diverge(FooterCode(top, n, v), FooterCode(top, n, w))
  {
    if n < 6 {
      SpecBaseInRange(top, n);
      ReversePathsDiverge(SpecBase(top, n), n, v, w);
    } else {
      Pow2Small();
      Pow2Add(n - 4, 4);
      var a, b := DirectCode(n - 4, v / 16), DirectCode(n - 4, w / 16);
      var x, y := ReversePath(ALIGN, 4, v % 16), ReversePath(ALIGN, 4, w % 16);
      if v / 16 != w / 16 {
        DirectCodesDiverge(n - 4, v / 16, w / 16);
        DivergeExtend(a, b, x, y);
      } else {
        ReversePathsDiverge(ALIGN, 4, v % 16, w % 16);
        DivergeAfter(a, x, y);
      }
    }
  }

  lemma SameSlot(d: nat, e: nat)
    requires d != e && Slot(d) == Slot(e)
    ensures d >= 4 && e >= 4 && TopTwo(d) == TopTwo(e) && FooterBits(d) == FooterBits(e) >= 1
  {
    DistanceShape(d);
    DistanceShape(e);
  }

  lemma DistFootersDiverge(d: nat, e: nat)
    requires d < WORD && e < WORD && d != e && Slot(d) == Slot(e)
    ensures Diverge(DistFooter(d), DistFooter(e))
  {
    hide Diverge, Doubled, FooterCode, Slot;
    DistanceShape(d);
    DistanceShape(e);
    var top, n := TopTwo(d), FooterBits(d);
    SameSlot(d, e);
    FooterCodesDiverge(top, n, d - Doubled(top, n), e - Doubled(top, n));
  }

  lemma DistCodesDiverge(lenState: nat, d: nat, e: nat)
    requires d < WORD && e < WORD && d != e
    ensures Diverge(DistCode(lenState, d), DistCode(lenState, e))
  {
    var t := Plain(POS_SLOT + 64 * lenState);
    var a, b := Path(t, 64 + Slot(d)), Path(t, 64 + Slot(e));
    if Slot(d) != Slot(e) {
      SlotBound(d);
      SlotBound(e);
      assert Pow2(6) == 64 by { Pow2Small(); }
      PathsDiverge(t, 6, 64 + Slot(d), 64 + Slot(e));
      DivergeExtend(a, b, DistFooter(d), DistFooter(e));
    } else {
      DistFootersDiverge(d, e);
      DivergeAfter(a, DistFooter(d), DistFooter(e));
    }
  }

  lemma FlagsDiverge(s: State, posState: nat, p: Packet, q: Packet)
    ensures Flags(s, posState, p) == Flags(s, posState, q) || Diverge(Flags(s, posState, p), Flags(s, posState, q))
    ensures Flags(s, posState, p) == Flags(s, posState, q) ==>
              || (p.Literal? && q.Literal?) || (p.Match? && q.Match?) || (p.ShortRep? && q.ShortRep?)
              || (p.Rep? && q.Rep? && p.which == q.which)
  {
    var a, b := Flags(s, posState, p), Flags(s, posState, q);
    if p.Literal? || q.Literal? {
      if !(p.Literal? && q.Literal?) {
        DivergeIntro(a, b, 0);
      }
    } else if p.Match? || q.Match? {
      if !(p.Match? && q.Match?) {
        assert a[..1] == b[..1];
        DivergeIntro(a, b, 1);
      }
    } else {
      var i := if p.ShortRep? then -1 else p.which;
      var j := if q.ShortRep? then -1 else q.which;
      assert a[..2] == b[..2];
      assert a[..3] == a[..2] + [a[2]] && b[..3] == b[..2] + [b[2]];
      if i != j {
        if (i <= 0) != (j <= 0) {
          DivergeIntro(a, b, 2);
        } else if i <= 1 || j <= 1 {
          DivergeIntro(a, b, 3);
        } else {
          assert a[..4] == a[..3] + [a[3]] && b[..4] == b[..3] + [b[3]];
          DivergeIntro(a, b, 4);
        }
      }
    }
  }

  lemma MatchBodiesDiverge(posState: nat, len: Len, dist: Dist, len': Len, dist': Dist)
    requires len != len' || dist != dist'
    ensures Diverge(LenCode(LEN_CODER, posState, len - 2) + DistCode(LenState(len), dist - 1),
                    LenCode(LEN_CODER, posState, len' - 2) + DistCode(LenState(len'), dist' - 1))
  {
    var a, b := LenCode(LEN_CODER, posState, len - 2), LenCode(LEN_CODER, posState, len' - 2);
    var x, y := DistCode(LenState(len), dist - 1), DistCode(LenState(len'), dist' - 1);
    if len != len' {
      LenCodesDiverge(LEN_CODER, posState, len - 2, len' - 2);
      DivergeExtend(a, b, x, y);
    } else {
      DistCodesDiverge(LenState(len), dist - 1, dist' - 1);
      DivergeAfter(a, x, y);
    }
  }

  lemma LiteralBodiesDiverge(props: Props, ctx: Context, b: Byte, b': Byte)
    requires Legal(props) && b != b'
    ensures Diverge(Body(props, ctx, Literal(b)), Body(props, ctx, Literal(b')))
  {
    assert Pow2(8) == 256 by { Pow2Small(); }
    PathsDiverge(LiteralTree(props, ctx), 8, 256 + b, 256 + b');
  }

  lemma RepBodiesDiverge(props: Props, ctx: Context, i: Which, len: Len, len': Len)
    requires Legal(props) && len != len'
    ensures Diverge(Body(props, ctx, Rep(i, len)), Body(props, ctx, Rep(i, len')))
  {
    LenCodesDiverge(REP_LEN_CODER, PosState(props, ctx), len - 2, len' - 2);
  }

  lemma MatchesDiverge(props: Props, ctx: Context, len: Len, dist: Dist, len': Len, dist': Dist)
    requires Legal(props) && (len != len' || dist != dist')
    ensures Diverge(Body(props, ctx, Match(len, dist)), Body(props, ctx, Match(len', dist')))
  {
    MatchBodiesDiverge(PosState(props, ctx), len, dist, len', dist');
  }

  lemma BodiesDiverge(props: Props, ctx: Context, p: Packet, q: Packet)
    requires Legal(props) && p != q
    requires || (p.Literal? && q.Literal?) || (p.Match? && q.Match?)
             || (p.Rep? && q.Rep? && p.which == q.which)
    ensures Diverge(Body(props, ctx, p), Body(props, ctx, q))
  {
    match (p, q) {
      case (Literal(b), Literal(b')) => LiteralBodiesDiverge(props, ctx, b, b');
      case (Rep(i, len), Rep(_, len')) => RepBodiesDiverge(props, ctx, i, len, len');
      case (Match(len, dist), Match(len', dist')) => MatchesDiverge(props, ctx, len, dist, len', dist');
    }
  }

  /** The packet code is prefix-free in the strong sense a decoder needs: two
      packets part on the answer to one question both of them ask. */
  lemma CodesDiverge(props: Props, ctx: Context, p: Packet, q: Packet)
    requires Legal(props) && p != q
    ensures Diverge(Code(props, ctx, p), Code(props, ctx, q))
  {
    var s, posState := ctx.state, PosState(props, ctx);
    FlagsDiverge(s, posState, p, q);
    if Flags(s, posState, p) == Flags(s, posState, q) {
      BodiesDiverge(props, ctx, p, q);
      DivergeAfter(Flags(s, posState, p), Body(props, ctx, p), Body(props, ctx, q));
    } else {
      DivergeExtend(Flags(s, posState, p), Flags(s, posState, q), Body(props, ctx, p), Body(props, ctx, q));
    }
  }

  // ------------------------------------------------------------------- streams

  datatype Progress = Progress(coder: Coder, ctx: Context, ended: bool)

  predicate Finished(g: Progress, outSize: nat) {
    g.ended || |g.ctx.out| >= outSize
  }

  /** Where a decoder stands once the stream has spelled the packets `ps`, each of
      them applicable and each begun before the output was full; None when the
      stream does not spell them. */
  function Reach(input: seq<Byte>, props: Props, outSize: nat, ps: seq<Packet>): (g: Option<Progress>)
    requires Legal(props)
    ensures g.Some? ==> |g.value.coder.probs| == NumProbs(props)
  {
    if ps == [] then
      if |input| < 5 then None else Some(Progress(Initial(input, NumProbs(props)), START, false))
    else
      match Reach(input, props, outSize, ps[..|ps| - 1])
      case None => None
      case Some(g) => Advance(input, props, outSize, g, ps[|ps| - 1])
  }

  function Advance(input: seq<Byte>, props: Props, outSize: nat, g: Progress, p: Packet): (r: Option<Progress>)
    requires Legal(props)
    ensures r.Some? ==> |r.value.coder.probs| == |g.coder.probs|
  {
    if Finished(g, outSize) then None else
    match Feed(input, g.coder, Code(props, g.ctx, p))
    case None => None
    case Some(c) =>
      if IsEnd(p) then Some(Progress(c, g.ctx, true))
      else if Valid(g.ctx, p) then Some(Progress(c, After(g.ctx, p), false))
      else None
  }

  /** A complete stream: it fills the output or ends itself, and the decoder can
      still normalise its range one last time. */
  predicate Accepted(input: seq<Byte>, props: Props, outSize: nat, ps: seq<Packet>)
    requires Legal(props)
  {
    var g := Reach(input, props, outSize, ps);
    g.Some? && Finished(g.value, outSize) && !Starved(input, g.value.coder)
  }

  function Output(input: seq<Byte>, props: Props, outSize: nat, ps: seq<Packet>): (r: seq<Byte>)
    requires Legal(props) && Accepted(input, props, outSize, ps)
    ensures |r| <= outSize
  {
    Cut(Reach(input, props, outSize, ps).value.ctx.out, outSize)
  }

  function Cut(out: seq<Byte>, outSize: nat): seq<Byte> {
    if |out| <= outSize then out else out[..outSize]
  }

  function Consumed(input: seq<Byte>, props: Props, outSize: nat, ps: seq<Packet>): nat
    requires Legal(props) && Accepted(input, props, outSize, ps)
  {
    Normalize(input, Reach(input, props, outSize, ps).value.coder).pos
  }

  lemma {:induction false} ReachPrefix(input: seq<Byte>, props: Props, outSize: nat, ps: seq<Packet>, k: nat)
    requires Legal(props) && k <= |ps|
    requires Reach(input, props, outSize, ps).Some?
    ensures Reach(input, props, outSize, ps[..k]).Some?
    decreases |ps|
  {
    if k == |ps| {
      assert ps[..k] == ps;
    } else {
      ReachPrefix(input, props, outSize, ps[..|ps| - 1], k);
      assert ps[..|ps| - 1][..k] == ps[..k];
    }
  }

  /** One more packet of a reachable list is an advance from the list before it. */
  lemma ReachNext(input: seq<Byte>, props: Props, outSize: nat, ps: seq<Packet>, k: nat)
    requires Legal(props) && k < |ps|
    requires Reach(input, props, outSize, ps).Some?
    ensures Reach(input, props, outSize, ps[..k]).Some?
    ensures Advance(input, props, outSize, Reach(input, props, outSize, ps[..k]).value, ps[k]).Some?
  {
    ReachPrefix(input, props, outSize, ps, k + 1);
    assert ps[..k + 1][..k] == ps[..k];
  }

  lemma AdvanceIsUnique(input: seq<Byte>, props: Props, outSize: nat, g: Progress, p: Packet, q: Packet)
    requires Legal(props)
    requires Advance(input, props, outSize, g, p).Some? && Advance(input, props, outSize, g, q).Some?
    ensures p == q
  {
    if p != q {
      CodesDiverge(props, g.ctx, p, q);
      OneAnswer(input, g.coder, Code(props, g.ctx, p), Code(props, g.ctx, q));
    }
  }

  lemma OneMoreInCommon(ps: seq<Packet>, qs: seq<Packet>, k: nat)
    requires 0 < k <= |ps| && k <= |qs| && ps[..k - 1] == qs[..k - 1] && ps[k - 1] == qs[k - 1]
    ensures ps[..k] == qs[..k]
  {
    assert ps[..k] == ps[..k - 1] + [ps[k - 1]];
    assert qs[..k] == qs[..k - 1] + [qs[k - 1]];
  }

  /** Two lists spelled by one stream agree as far as both go. */
  lemma {:induction false} ReachAgrees(input: seq<Byte>, props: Props, outSize: nat, ps: seq<Packet>, qs: seq<Packet>,
                                       k: nat)
    requires Legal(props) && k <= |ps| && k <= |qs|
    requires Reach(input, props, outSize, ps).Some? && Reach(input, props, outSize, qs).Some?
    ensures ps[..k] == qs[..k]
    decreases k
  {
    if k > 0 {
      ReachAgrees(input, props, outSize, ps, qs, k - 1);
      ReachNext(input, props, outSize, ps, k - 1);
      ReachNext(input, props, outSize, qs, k - 1);
      AdvanceIsUnique(input, props, outSize, Reach(input, props, outSize, ps[..k - 1]).value, ps[k - 1], qs[k - 1]);
      OneMoreInCommon(ps, qs, k);
    }
  }

  lemma FinishedIsLast(input: seq<Byte>, props: Props, outSize: nat, ps: seq<Packet>, qs: seq<Packet>)
    requires Legal(props)
    requires Reach(input, props, outSize, ps).Some? && Reach(input, props, outSize, qs).Some?
    requires Finished(Reach(input, props, outSize, ps).value, outSize)
    ensures |qs| <= |ps|
  {
    if |ps| < |qs| {
      ReachAgrees(input, props, outSize, ps, qs, |ps|);
      assert ps[..|ps|] == ps;
      ReachNext(input, props, outSize, qs, |ps|);
      assert false;
    }
  }

  /** A stream has at most one complete reading. */
  lemma ReadingIsUnique(input: seq<Byte>, props: Props, outSize: nat, ps: seq<Packet>, qs: seq<Packet>)
    requires Legal(props)
    requires Accepted(input, props, outSize, ps) && Accepted(input, props, outSize, qs)
    ensures ps == qs
  {
    FinishedIsLast(input, props, outSize, ps, qs);
    FinishedIsLast(input, props, outSize, qs, ps);
    ReachAgrees(input, props, outSize, ps, qs, |ps|);
    assert ps[..|ps|] == ps && qs[..|ps|] == qs;
  }

  /** After packets `ps` an unfinished stream cannot be completed when the next
      packet got stuck in the input, or was spelled but is not applicable. */
  lemma DeadEnd(input: seq<Byte>, props: Props, outSize: nat, ps: seq<Packet>, p: Packet, c: Coder, ok: bool,
                qs: seq<Packet>)
    requires Legal(props) && Reach(input, props, outSize, ps).Some?
    requires var g := Reach(input, props, outSize, ps).value;
             && !Finished(g, outSize)
             && Decoded(input, g.coder, Code(props, g.ctx, p), c, ok)
             && (ok ==> !IsEnd(p) && !Valid(g.ctx, p))
    ensures !Accepted(input, props, outSize, qs)
  {
    if Accepted(input, props, outSize, qs) {
      var g := Reach(input, props, outSize, ps).value;
      ReachAgrees(input, props, outSize, ps, qs, if |ps| < |qs| then |ps| else |qs|);
      FinishedIsLast(input, props, outSize, qs, ps);
      assert ps[..|ps|] == ps && qs[..|qs|] == qs;
      assert |ps| < |qs|;
      ReachNext(input, props, outSize, qs, |ps|);
      NoOtherWay(input, props, outSize, g, p, c, ok, qs[|ps|]);
    }
  }

  lemma NoOtherWay(input: seq<Byte>, props: Props, outSize: nat, g: Progress, p: Packet, c: Coder, ok: bool, q: Packet)
    requires Legal(props)
    requires Decoded(input, g.coder, Code(props, g.ctx, p), c, ok)
    requires ok ==> !IsEnd(p) && !Valid(g.ctx, p)
    ensures Advance(input, props, outSize, g, q).None?
  {
    if p != q {
      CodesDiverge(props, g.ctx, p, q);
    }
    DecodedIsFeed(input, g.coder, Code(props, g.ctx, p), c);
    if !ok {
      StuckExcludes(input, g.coder, Code(props, g.ctx, p), Code(props, g.ctx, q), c);
    } else if p != q {
      OneAnswer(input, g.coder, Code(props, g.ctx, p), Code(props, g.ctx, q));
    }
  }

  // -------------------------------------------------------------- state, queue

  /** State 7 and above says exactly that the last packet was not a literal, and
      every remembered distance lies inside the output, after every packet of
      every run. */
  lemma StateRemembersLiterals(input: seq<Byte>, props: Props, outSize: nat, ps: seq<Packet>)
    requires Legal(props) && ps != []
    requires var g := Reach(input, props, outSize, ps); g.Some? && !g.value.ended
    ensures var ctx := Reach(input, props, outSize, ps).value.ctx;
            && (ctx.state >= 7 <==> !ps[|ps| - 1].Literal?)
            && forall i | 0 <= i < 4 :: 1 <= ctx.reps[i] <= |ctx.out|
  {
    var ctx := Reach(input, props, outSize, ps).value.ctx;
    assert |ctx.out| >= 1;
  }

  /** What state is, after `n` packets of a run: it tells how many literals came since the
      last other packet, number `k`, up to three; and for as long what kind that was, and
      whether it came right behind another. */
  lemma StateIsHistory(input: seq<Byte>, props: Props, outSize: nat, ps: seq<Packet>, k: nat, n: nat)
    requires Legal(props) && k < n <= |ps| && !ps[k].Literal? && forall j | k < j < n :: ps[j].Literal?
    requires var g := Reach(input, props, outSize, ps[..n]); g.Some? && !g.value.ended
    ensures var literals, again := n - 1 - k, k > 0 && !ps[k - 1].Literal?;
            var kind := if ps[k].Match? then 1 else if ps[k].Rep? || again then 2 else 3;
            Reach(input, props, outSize, ps[..n]).value.ctx.state ==
            if literals == 0 then (if !again then 6 + kind else if ps[k].Match? then 10 else 11)
            else if literals == 1 then 3 + kind else if literals == 2 then kind else 0
  {
    hide Reach;
    StateTells(input, props, outSize, ps, k, n);
  }

  function Told(p: Packet, again: bool, literals: nat): State {
    var kind := if p.Match? then 1 else if p.Rep? || again then 2 else 3;
    if literals == 0 then (if !again then 6 + kind else if p.Match? then 10 else 11)
    else if literals == 1 then 3 + kind else if literals == 2 then kind else 0
  }

  /** The state after `n` packets. */
  function StateAt(input: seq<Byte>, props: Props, outSize: nat, ps: seq<Packet>, n: nat): Option<State>
    requires Legal(props) && n <= |ps|
  {
    match Reach(input, props, outSize, ps[..n])
    case None => None
    case Some(g) => if g.ended then None else Some(g.ctx.state)
  }

  lemma {:induction false} StateTells(input: seq<Byte>, props: Props, outSize: nat, ps: seq<Packet>, k: nat, n: nat)
    requires Legal(props) && k < n <= |ps| && !ps[k].Literal? && forall j | k < j < n :: ps[j].Literal?
    requires StateAt(input, props, outSize, ps, n).Some?
    ensures StateAt(input, props, outSize, ps, n).value == Told(ps[k], k > 0 && !ps[k - 1].Literal?, n - 1 - k)
    decreases n
  {
    hide StateAt, NextState, Told;
    LastPacket(input, props, outSize, ps, n);
    var s := StateAt(input, props, outSize, ps, n - 1).value;
    if n == k + 1 {
      StateAfterCopy(s, ps[k], k > 0 && !ps[k - 1].Literal?);
    } else {
      StateTells(input, props, outSize, ps, k, n - 1);
      StateAfterLiteral(ps[k], k > 0 && !ps[k - 1].Literal?, n - 2 - k, ps[n - 1]);
    }
  }

  /** Before the first other packet it is 0. */
  lemma {:induction false} StateIsZero(input: seq<Byte>, props: Props, outSize: nat, ps: seq<Packet>, n: nat)
    requires Legal(props) && n <= |ps| && forall j | 0 <= j < n :: ps[j].Literal?
    requires var g := Reach(input, props, outSize, ps[..n]); g.Some? && !g.value.ended
    ensures Reach(input, props, outSize, ps[..n]).value.ctx.state == 0
    decreases n
  {
    if n > 0 {
      LastPacket(input, props, outSize, ps, n);
      StateIsZero(input, props, outSize, ps, n - 1);
    }
  }

  lemma LastPacket(input: seq<Byte>, props: Props, outSize: nat, ps: seq<Packet>, n: nat)
    requires Legal(props) && 0 < n <= |ps| && StateAt(input, props, outSize, ps, n).Some?
    ensures var before := StateAt(input, props, outSize, ps, n - 1);
            && before.Some? && StateAt(input, props, outSize, ps, n) == Some(NextState(before.value, ps[n - 1]))
            && (before.value >= 7 <==> n > 1 && !ps[n - 2].Literal?)
  {
    assert ps[..n][..n - 1] == ps[..n - 1];
    if n > 1 { StateRemembersLiterals(input, props, outSize, ps[..n - 1]); }
  }

  lemma StateAfterCopy(s: State, p: Packet, again: bool)
    requires !p.Literal? && (again <==> s >= 7)
    ensures NextState(s, p) == Told(p, again, 0)
  {
  }

  lemma StateAfterLiteral(p: Packet, again: bool, literals: nat, q: Packet)
    requires !p.Literal? && q.Literal?
    ensures NextState(Told(p, again, literals), q) == Told(p, again, literals + 1)
  {
  }

  /** What a packet means for the output: a literal adds its byte, and any other packet
      copies, byte for byte, from as far back as its distance says. */
  lemma PacketMeans(ctx: Context, p: Packet, i: nat)
    requires Valid(ctx, p)
    requires i < if p.Literal? || p.ShortRep? then 1 else p.len
    ensures var out, out' := ctx.out, After(ctx, p).out;
            && |out'| == |out| + (if p.Literal? || p.ShortRep? then 1 else p.len) && out'[..|out|] == out
            && (p.Literal? ==> out'[|out|] == p.b)
            && (!p.Literal? ==>
                  var d := if p.Match? then p.dist else if p.ShortRep? then ctx.reps[0] else ctx.reps[p.which];
                  1 <= d <= |out| && out'[|out| + i] == out'[|out| + i - d])
  {
    if !p.Literal? { CopyRepeats(ctx.out, DistanceOf(ctx, p), Length(p), |ctx.out| + i); }
  }

  /** A packet applies when it reaches back no further than the output; one that repeats
      the last distance applies as soon as there is output at all. */
  lemma AppliesExactly(ctx: Context, p: Packet)
    ensures Valid(ctx, p) <==>
            match p
            case Literal(_) => true
            case Match(_, dist) => dist <= |ctx.out|
            case ShortRep => ctx.out != []
            case Rep(which, _) => ctx.reps[which] <= |ctx.out|
  {
  }

  // ---------------------------------------------------------------- round trip

  /** A packet list a stream could be written from: every packet applies, the
      output is not yet full when it begins, and the last one fills the output
      or is the end mark. */
  predicate Playable(outSize: nat, ctx: Context, ps: seq<Packet>)
    decreases ps
  {
    if ps == [] then |ctx.out| >= outSize
    else
      && |ctx.out| < outSize
      && if IsEnd(ps[0]) then |ps| == 1 else Valid(ctx, ps[0]) && Playable(outSize, After(ctx, ps[0]), ps[1..])
  }

  function Spelling(props: Props, outSize: nat, ctx: Context, ps: seq<Packet>): seq<Decision>
    requires Legal(props) && Playable(outSize, ctx, ps)
    decreases ps
  {
    if ps == [] then []
    else Code(props, ctx, ps[0])
         + if IsEnd(ps[0]) then [] else Spelling(props, outSize, After(ctx, ps[0]), ps[1..])
  }

  lemma {:induction false} SpellingFits(props: Props, outSize: nat, ctx: Context, ps: seq<Packet>)
    requires Legal(props) && Playable(outSize, ctx, ps)
    ensures Below(Spelling(props, outSize, ctx, ps), NumProbs(props))
    decreases ps
  {
    if ps != [] {
      CodeFits(props, ctx, ps[0]);
      var rest := if IsEnd(ps[0]) then [] else Spelling(props, outSize, After(ctx, ps[0]), ps[1..]);
      if !IsEnd(ps[0]) {
        SpellingFits(props, outSize, After(ctx, ps[0]), ps[1..]);
      }
      BelowAppend(Code(props, ctx, ps[0]), rest, NumProbs(props), NumProbs(props));
    }
  }

  function Digits(x: Word): (r: seq<Byte>)
    ensures |r| == 4 && BigEndian(r[0], r[1], r[2], r[3]) == x
  {
    var a := x / 256;
    var b := a / 256;
    [b / 256, b % 256, a % 256, x % 256]
  }

  /** A byte stream for a packet list, by running the range coder backwards. */
  function Compress(props: Props, outSize: nat, ps: seq<Packet>): (r: seq<Byte>)
    requires Legal(props) && Playable(outSize, START, ps)
    ensures |r| >= 5
  {
    var ds := Spelling(props, outSize, START, ps);
    SpellingFits(props, outSize, START, ps);
    BelowEach(ds, NumProbs(props));
    var (x, tail) := Encode(WORD - 1, seq(NumProbs(props), i => 1024), ds);
    [0] + Digits(x) + tail
  }

  lemma DeliversFirst(input: seq<Byte>, c: Coder, a: seq<Decision>, b: seq<Decision>)
    requires Delivers(input, c, a + b)
    ensures Feed(input, c, a).Some? && Delivers(input, Feed(input, c, a).value, b)
  {
    FeedAppend(input, c, a, b);
  }

  /** A decoder ready to read the rest of a playable list. */
  ghost predicate Ready(input: seq<Byte>, props: Props, outSize: nat, g: Progress, qs: seq<Packet>)
    requires Legal(props)
  {
    && !g.ended
    && Playable(outSize, g.ctx, qs)
    && Delivers(input, g.coder, Spelling(props, outSize, g.ctx, qs))
  }

  lemma ReadyAdvances(input: seq<Byte>, props: Props, outSize: nat, g: Progress, qs: seq<Packet>)
    requires Legal(props) && qs != [] && Ready(input, props, outSize, g, qs)
    ensures var r := Advance(input, props, outSize, g, qs[0]);
            && r.Some?
            && if IsEnd(qs[0]) then |qs| == 1 && r.value.ended && Delivers(input, r.value.coder, [])
               else Ready(input, props, outSize, r.value, qs[1..])
  {
    var head := Code(props, g.ctx, qs[0]);
    var rest := if IsEnd(qs[0]) then [] else Spelling(props, outSize, After(g.ctx, qs[0]), qs[1..]);
    assert Spelling(props, outSize, g.ctx, qs) == head + rest;
    DeliversFirst(input, g.coder, head, rest);
  }

  lemma ReachStep(input: seq<Byte>, props: Props, outSize: nat, ps: seq<Packet>, k: nat, g: Progress)
    requires Legal(props) && k < |ps| && Reach(input, props, outSize, ps[..k]) == Some(g)
    ensures Reach(input, props, outSize, ps[..k + 1]) == Advance(input, props, outSize, g, ps[k])
  {
    assert ps[..k + 1][..k] == ps[..k];
  }

  lemma ReadyAtEnd(input: seq<Byte>, props: Props, outSize: nat, g: Progress, ps: seq<Packet>, k: nat)
    requires Legal(props) && k == |ps| && Reach(input, props, outSize, ps[..k]) == Some(g)
    requires Ready(input, props, outSize, g, ps[k..])
    ensures Accepted(input, props, outSize, ps) && Consumed(input, props, outSize, ps) == |input|
  {
    assert ps[..k] == ps;
  }

  lemma {:induction false} SpelledIsReached(input: seq<Byte>, props: Props, outSize: nat, ps: seq<Packet>, k: nat,
                                            g: Progress)
    requires Legal(props) && k <= |ps| && Reach(input, props, outSize, ps[..k]) == Some(g)
    requires Ready(input, props, outSize, g, ps[k..])
    ensures Accepted(input, props, outSize, ps) && Consumed(input, props, outSize, ps) == |input|
    decreases |ps| - k
  {
    if k == |ps| {
      ReadyAtEnd(input, props, outSize, g, ps, k);
    } else {
      ReadyAdvances(input, props, outSize, g, ps[k..]);
      var r := Advance(input, props, outSize, g, ps[k]);
      ReachStep(input, props, outSize, ps, k, g);
      if IsEnd(ps[k]) {
        assert ps[..k + 1] == ps;
      } else {
        assert ps[k..][1..] == ps[k + 1..];
        SpelledIsReached(input, props, outSize, ps, k + 1, r.value);
      }
    }
  }

  /** Decompressing undoes compressing: every playable packet list has a byte
      stream whose one and only reading is that list, and which that reading uses up. */
  lemma RoundTrip(props: Props, outSize: nat, ps: seq<Packet>)
    requires Legal(props) && Playable(outSize, START, ps)
    ensures Accepted(Compress(props, outSize, ps), props, outSize, ps)
    ensures Consumed(Compress(props, outSize, ps), props, outSize, ps) == |Compress(props, outSize, ps)|
  {
    var input := Compress(props, outSize, ps);
    var ds := Spelling(props, outSize, START, ps);
    SpellingFits(props, outSize, START, ps);
    BelowEach(ds, NumProbs(props));
    var c := Initial(input, NumProbs(props));
    var (x, tail) := Encode(WORD - 1, c.probs, ds);
    assert input[5..] == tail;
    assert input[1..5] == Digits(x);
    assert c.code == x;
    DecodeEncode(input, c, ds);
    assert ps[..0] == [] && ps[0..] == ps;
    SpelledIsReached(input, props, outSize, ps, 0, Progress(c, START, false));
  }

  /** Conversely a reading is always playable, so the readings of all streams are
      exactly the playable lists. */
  lemma {:induction false} ReadingIsPlayable(input: seq<Byte>, props: Props, outSize: nat, ps: seq<Packet>, k: nat)
    requires Legal(props) && k <= |ps| && Accepted(input, props, outSize, ps)
    ensures Reach(input, props, outSize, ps[..k]).Some?
    ensures var g := Reach(input, props, outSize, ps[..k]).value;
            if g.ended then k == |ps| else Playable(outSize, g.ctx, ps[k..])
    decreases |ps| - k
  {
    if k == |ps| {
      assert ps[..k] == ps;
    } else {
      ReachNext(input, props, outSize, ps, k);
      ReadingIsPlayable(input, props, outSize, ps, k + 1);
      assert ps[..k + 1][..k] == ps[..k];
      assert ps[k..][1..] == ps[k + 1..];
    }
  }
}
