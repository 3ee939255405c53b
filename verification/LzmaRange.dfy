/** The adaptive range decoder of coreboot/payloads/bayou/lzmadecode.c.

    A `Decision` is one question put to the coded stream together with the
    bit that comes back: an adaptive one names the probability it uses, a
    direct one splits the range in half.  `Feed` says which lists of decisions
    a stream spells out; it is the meaning against which the imperative
    decoder, and everything built on it, is stated. */
module LzmaRange {
  import opened Basics

  const TOP := 0x100_0000

  /** Every probability the model can reach lies in this closed interval. */
  type Prob = p: int | 31 <= p <= 2017 witness 1024

  /** Between two decisions Range never falls to 2^16 or below. */
  type Range = r: int | 0x1_0000 < r < WORD witness 0xFFFF_FFFF

  datatype Coder = Coder(range: Range, code: Word, pos: nat, probs: seq<Prob>)

  datatype Decision =
    | Adaptive(index: nat, bit: Bit)
    | Direct(bit: Bit)

  // ---------------------------------------------------------------- arithmetic

  /** The split point of an adaptive decision: both halves stay above 2^16, so
      neither is empty and nothing overflows. */
  function Bound(range: Range, p: Prob): (b: Range)
    requires TOP <= range
    ensures 0x1_0000 < b < range - 0x1_0000
  {
    BoundFits(range / 2048, p);
    Mul(range / 2048, p)
  }

  lemma BoundFits(q: nat, p: Prob)
    requires 8192 <= q < 0x20_0000
    ensures 0x1_0000 < Mul(q, p) < q * 2048 - 0x1_0000
  {
    MulMonotone(q, 31, p);
    MulMonotone(q, p, 2017);
    MulIsProduct(q, 31);
    MulIsProduct(q, 2017);
  }

  function Up(p: Prob): (q: Prob)
    ensures p <= q
  {
    p + (2048 - p) / 32
  }

  function Down(p: Prob): (q: Prob)
    ensures q <= p
  {
    p - p / 32
  }

  /** Each move goes a 32nd of the way, rounded down, to 2048 or to 0. */
  lemma MoveIsA32nd(p: Prob)
    ensures 32 * (Up(p) - p) <= 2048 - p < 32 * (Up(p) - p) + 32
    ensures 32 * (p - Down(p)) <= p < 32 * (p - Down(p)) + 32
    ensures Up(p) == p <==> p == 2017
    ensures Down(p) == p <==> p == 31
  {
  }

  function Ups(p: Prob, n: nat): Prob
    decreases n
  {
    if n == 0 then p else Ups(Up(p), n - 1)
  }

  function Downs(p: Prob, n: nat): Prob
    decreases n
  {
    if n == 0 then p else Downs(Down(p), n - 1)
  }

  /** Enough zero bits bring every probability to 2017, and enough one bits to 31: the
      interval is exactly what can be reached. */
  lemma {:induction false} EndsAreReached(p: Prob, n: nat)
    ensures n >= 2017 - p ==> Ups(p, n) == 2017
    ensures n >= p - 31 ==> Downs(p, n) == 31
    decreases n
  {
    MoveIsA32nd(p);
    if n > 0 {
      EndsAreReached(Up(p), n - 1);
      EndsAreReached(Down(p), n - 1);
    }
  }

  // ------------------------------------------------------------------- meaning

  predicate Starved(input: seq<Byte>, c: Coder) {
    c.range < TOP && c.pos >= |input|
  }

  /** Reading one byte always brings Range back to at least 2^24, and the shifted
      range still fits 32 bits. */
  function Normalize(input: seq<Byte>, c: Coder): (n: Coder)
    requires !Starved(input, c)
    ensures TOP <= n.range && n.probs == c.probs
    ensures c.code < c.range ==> n.code < n.range
  {
    if c.range < TOP then
      c.(range := c.range * 256, code := (c.code * 256 + input[c.pos]) % WORD, pos := c.pos + 1)
    else c
  }

  /** The effect of an adaptive decision on a normalised coder. */
  function AdaptiveStep(n: Coder, i: nat, b: Bit): Coder
    requires TOP <= n.range && i < |n.probs| && ((b == 0) == (n.code < Bound(n.range, n.probs[i])))
  {
    var bound := Bound(n.range, n.probs[i]);
    if b == 0 then n.(range := bound, probs := n.probs[i := Up(n.probs[i])])
    else n.(range := n.range - bound, code := n.code - bound, probs := n.probs[i := Down(n.probs[i])])
  }

  /** One decision, or None when the stream says otherwise or has run out. */
  function Step(input: seq<Byte>, c: Coder, d: Decision): (r: Option<Coder>) {
    if Starved(input, c) || (d.Adaptive? && d.index >= |c.probs|) then None else
    var n := Normalize(input, c);
    match d
    case Adaptive(i, b) =>
      if (b == 0) != (n.code < Bound(n.range, n.probs[i])) then None else Some(AdaptiveStep(n, i, b))
    case Direct(b) =>
      var half := n.range / 2;
      if (b == 0) != (n.code < half) then None
      else Some(n.(range := half, code := if b == 0 then n.code else n.code - half))
  }

  /** A coder after reading one byte, if Range has fallen below 2^24, in 32-bit words. */
  lemma RefillInNumerals(input: seq<Byte>, c: Coder)
    ensures Starved(input, c) <==> c.range < 0x100_0000 && c.pos >= |input|
    ensures !Starved(input, c) ==>
              var n := Normalize(input, c);
              && n.probs == c.probs
              && (c.range >= 0x100_0000 ==> n.range == c.range && n.code == c.code && n.pos == c.pos)
              && (c.range < 0x100_0000 ==>
                    && n.range == 256 * c.range && n.pos == c.pos + 1
                    && n.code == (256 * c.code + input[c.pos]) % 0x1_0000_0000)
  {
  }

  /** An adaptive question splits Range in the proportion of its probability to 2048. */
  lemma AdaptiveInNumerals(input: seq<Byte>, c: Coder, i: nat, b: Bit, c': Coder)
    requires !Starved(input, c) && c.range >= 0x100_0000 && i < |c.probs|
    ensures Step(input, c, Adaptive(i, b)) == Some(c') <==>
            var p: int := c.probs[i];
            var bound: int := c.range / 2048 * p;
            && |c'.probs| == |c.probs| && var q: int := c'.probs[i];
            && (b == 0 <==> c.code < bound) && c'.pos == c.pos
            && (forall j | 0 <= j < |c.probs| && j != i :: c'.probs[j] == c.probs[j])
            && (b == 0 ==> c'.range == bound && c'.code == c.code)
            && (b == 1 ==> c'.range == c.range - bound && c'.code == c.code - bound)
            && (b == 0 ==> 32 * (q - p) <= 2048 - p < 32 * (q - p) + 32)
            && (b == 1 ==> 32 * (p - q) <= p < 32 * (p - q) + 32)
  {
    MulIsProduct(c.range / 2048, c.probs[i]);
    MoveIsA32nd(c.probs[i]);
    var p: Prob := if b == 0 then Up(c.probs[i]) else Down(c.probs[i]);
    if |c'.probs| == |c.probs| && c'.probs[i] == p &&
       forall j | 0 <= j < |c.probs| && j != i :: c'.probs[j] == c.probs[j]
    {
      assert c'.probs == c.probs[i := p];
    }
  }

  /** A direct question halves it. */
  lemma DirectInNumerals(input: seq<Byte>, c: Coder, b: Bit, c': Coder)
    requires !Starved(input, c) && c.range >= 0x100_0000
    ensures Step(input, c, Direct(b)) == Some(c') <==>
            && (b == 0 <==> c.code < c.range / 2) && c'.pos == c.pos && c'.probs == c.probs
            && c'.range == c.range / 2 && c'.code == (if b == 0 then c.code else c.code - c.range / 2)
  {
  }

  function Feed(input: seq<Byte>, c: Coder, ds: seq<Decision>): (r: Option<Coder>)
    ensures r.Some? ==> |r.value.probs| == |c.probs|
    decreases ds
  {
    if ds == [] then Some(c) else
    match Step(input, c, ds[0])
    case None => None
    case Some(c') => Feed(input, c', ds[1..])
  }

  lemma {:induction false} FeedAppend(input: seq<Byte>, c: Coder, a: seq<Decision>, b: seq<Decision>)
    ensures Feed(input, c, a + b) ==
            match Feed(input, c, a)
            case None => None
            case Some(m) => Feed(input, m, b)
    decreases a
  {
    if a == [] {
      assert a + b == b;
    } else {
      assert (a + b)[1..] == a[1..] + b;
      var s := Step(input, c, a[0]);
      if s.Some? {
        FeedAppend(input, s.value, a[1..], b);
      }
    }
  }

  // -------------------------------------------------------------- determinism

  predicate SameQuestion(d: Decision, e: Decision) {
    match d
    case Adaptive(i, _) => e.Adaptive? && e.index == i
    case Direct(_) => e.Direct?
  }

  /** The two lists part company on the answer to one and the same question. */
  predicate Diverge(a: seq<Decision>, b: seq<Decision>)
    decreases a
  {
    if a == [] || b == [] then false
    else if a[0] == b[0] then Diverge(a[1..], b[1..])
    else SameQuestion(a[0], b[0])
  }

  /** A stream answers each question one way: it never spells two diverging lists. */
  lemma {:induction false} OneAnswer(input: seq<Byte>, c: Coder, a: seq<Decision>, b: seq<Decision>)
    requires Diverge(a, b)
    requires Feed(input, c, a).Some?
    ensures Feed(input, c, b).None?
    decreases a
  {
    if a[0] == b[0] {
      OneAnswer(input, Step(input, c, a[0]).value, a[1..], b[1..]);
    }
  }

  lemma {:induction false} DivergeIntro(a: seq<Decision>, b: seq<Decision>, k: nat)
    requires k < |a| && k < |b| && a[..k] == b[..k]
    requires SameQuestion(a[k], b[k]) && a[k] != b[k]
    ensures Diverge(a, b)
    decreases k
  {
    if k > 0 {
      assert a[0] == a[..k][0] == b[..k][0] == b[0];
      assert a[1..][..k - 1] == a[..k][1..] == b[..k][1..] == b[1..][..k - 1];
      DivergeIntro(a[1..], b[1..], k - 1);
    }
  }

  lemma {:induction false} DivergeExtend(a: seq<Decision>, b: seq<Decision>, x: seq<Decision>, y: seq<Decision>)
    requires Diverge(a, b)
    ensures Diverge(a + x, b + y)
    decreases a
  {
    assert (a + x)[1..] == a[1..] + x && (b + y)[1..] == b[1..] + y;
    if a[0] == b[0] {
      DivergeExtend(a[1..], b[1..], x, y);
    }
  }

  lemma {:induction false} DivergeAfter(p: seq<Decision>, a: seq<Decision>, b: seq<Decision>)
    requires Diverge(a, b)
    ensures Diverge(p + a, p + b)
    decreases p
  {
    if p == [] {
      assert p + a == a && p + b == b;
    } else {
      assert (p + a)[1..] == p[1..] + a && (p + b)[1..] == p[1..] + b;
      DivergeAfter(p[1..], a, b);
    }
  }

  // ----------------------------------------------------------------- encoding

  /** The inverse of decoding, from the last decision back to the first: a code
      value below `range` and the bytes still to be read, such that a decoder
      holding them answers exactly `ds` and may still normalise once more. */
  function Encode(range: Range, probs: seq<Prob>, ds: seq<Decision>): (r: (nat, seq<Byte>))
    requires forall d | d in ds :: d.Adaptive? ==> d.index < |probs|
    ensures r.0 < range
    decreases ds
  {
    if ds == [] then (0, if range < TOP then [0] else [])
    else if range < TOP then
      var (y, tail) := EncodeStep(range * 256, probs, ds);
      (y / 256, [y % 256] + tail)
    else EncodeStep(range, probs, ds)
  }

  function EncodeStep(range: Range, probs: seq<Prob>, ds: seq<Decision>): (r: (nat, seq<Byte>))
    requires ds != [] && TOP <= range
    requires forall d | d in ds :: d.Adaptive? ==> d.index < |probs|
    ensures r.0 < range
    decreases ds, 0
  {
    match ds[0]
    case Adaptive(i, b) =>
      assert ds[0] in ds;
      var bound := Bound(range, probs[i]);
      if b == 0 then
        Encode(bound, probs[i := Up(probs[i])], ds[1..])
      else
        var (y, tail) := Encode(range - bound, probs[i := Down(probs[i])], ds[1..]);
        (y + bound, tail)
    case Direct(b) =>
      var (y, tail) := Encode(range / 2, probs, ds[1..]);
      (if b == 0 then y else y + range / 2, tail)
  }

  ghost predicate Delivers(input: seq<Byte>, c: Coder, ds: seq<Decision>) {
    var r := Feed(input, c, ds);
    r.Some? && !Starved(input, r.value) && Normalize(input, r.value).pos == |input|
  }

  /** Decoding undoes encoding, for every list of decisions and every model, and the last
      normalisation has read all of the input. */
  lemma {:induction false} DecodeEncode(input: seq<Byte>, c: Coder, ds: seq<Decision>)
    requires forall d | d in ds :: d.Adaptive? ==> d.index < |c.probs|
    requires c.pos <= |input|
    requires Encode(c.range, c.probs, ds) == (c.code, input[c.pos..])
    ensures Delivers(input, c, ds)
    decreases |ds|
  {
    if ds == [] {
    } else {
      var (_, tail) := Encode(c.range, c.probs, ds);
      var n := Normalize(input, c);
      if c.range < TOP {
        assert input[c.pos..][1..] == input[n.pos..];
        var (y, t) := EncodeStep(n.range, c.probs, ds);
        assert input[c.pos..][0] == y % 256;
        assert c.code * 256 + input[c.pos] == y;
      }
      DecodeEncodeStep(input, c, n, ds);
    }
  }

  lemma {:induction false} DecodeEncodeStep(input: seq<Byte>, c: Coder, n: Coder, ds: seq<Decision>)
    requires ds != []
    requires forall d | d in ds :: d.Adaptive? ==> d.index < |c.probs|
    requires !Starved(input, c) && n == Normalize(input, c) && n.pos <= |input|
    requires EncodeStep(n.range, n.probs, ds) == (n.code, input[n.pos..])
    ensures Delivers(input, c, ds)
    decreases |ds|, 0
  {
    assert ds[0] in ds;
    var m := EncodedStep(input, c, n, ds);
    DecodeEncode(input, m, ds[1..]);
  }

  /** The encoder's step back, taken forward by the decoder. */
  lemma EncodedStep(input: seq<Byte>, c: Coder, n: Coder, ds: seq<Decision>) returns (m: Coder)
    requires ds != []
    requires forall d | d in ds :: d.Adaptive? ==> d.index < |c.probs|
    requires !Starved(input, c) && n == Normalize(input, c) && n.pos <= |input|
    requires EncodeStep(n.range, n.probs, ds) == (n.code, input[n.pos..])
    ensures Step(input, c, ds[0]) == Some(m)
    ensures |m.probs| == |c.probs| && m.pos == n.pos
    ensures Encode(m.range, m.probs, ds[1..]) == (m.code, input[m.pos..])
  {
    assert ds[0] in ds;
    if ds[0].Adaptive? {
      m := AdaptiveStep(n, ds[0].index, ds[0].bit);
      assert m.code < m.range;
    } else {
      m := n.(range := n.range / 2, code := if ds[0].bit == 0 then n.code else n.code - n.range / 2);
    }
  }

  // ---------------------------------------------------------------- Code < Range

  /** An adaptive decision keeps Code below Range. */
  lemma AdaptiveKeepsCodeInRange(input: seq<Byte>, c: Coder, i: nat, b: Bit)
    requires c.code < c.range
    requires Step(input, c, Adaptive(i, b)).Some?
    ensures var s := Step(input, c, Adaptive(i, b)).value; s.code < s.range
  {
    var n := Normalize(input, c);
    assert n.code < n.range;
  }

  /** A direct decision keeps Code below Range except in exactly one case: an odd
      range whose last unit holds Code, which the halving drops. */
  lemma DirectKeepsCodeInRangeIff(input: seq<Byte>, c: Coder, b: Bit)
    requires c.code < c.range
    requires Step(input, c, Direct(b)).Some?
    ensures var n := Normalize(input, c);
            var s := Step(input, c, Direct(b)).value;
            s.code < s.range <==> !(n.range % 2 == 1 && n.code == n.range - 1)
  {
    var n := Normalize(input, c);
    assert n.code < n.range;
  }

  /** The widest range, with Code at its last unit: a direct 1 leaves Code equal to Range. */
  lemma CodeMeetsRange()
    ensures var c := Coder(0xFFFF_FFFF, 0xFFFF_FFFE, 0, []);
            c.code < c.range && Step([], c, Direct(1)) == Some(Coder(0x7FFF_FFFF, 0x7FFF_FFFF, 0, []))
  {
  }

  // ------------------------------------------------------- the imperative decoder

  /** What a sub-decoder that asked for `ds` has done to the coder: all of `ds`
      was spelled out, or the input ran dry strictly inside it. */
  predicate Decoded(input: seq<Byte>, c: Coder, ds: seq<Decision>, c': Coder, ok: bool)
    decreases ds
  {
    if ds == [] then ok && c == c'
    else
      match Step(input, c, ds[0])
      case None => !ok && c == c' && Starved(input, c)
      case Some(m) => Decoded(input, m, ds[1..], c', ok)
  }

  lemma {:induction false} DecodedIsFeed(input: seq<Byte>, c: Coder, ds: seq<Decision>, c': Coder)
    ensures Decoded(input, c, ds, c', true) <==> Feed(input, c, ds) == Some(c')
    decreases ds
  {
    if ds != [] {
      var s := Step(input, c, ds[0]);
      if s.Some? { DecodedIsFeed(input, s.value, ds[1..], c'); }
    }
  }

  lemma {:induction false} DecodedThen(input: seq<Byte>, c: Coder, a: seq<Decision>, m: Coder, b: seq<Decision>,
                                       c': Coder, ok: bool)
    requires Decoded(input, c, a, m, true)
    requires Decoded(input, m, b, c', ok)
    ensures Decoded(input, c, a + b, c', ok)
    decreases a
  {
    if a == [] {
      assert a + b == b;
    } else {
      assert (a + b)[1..] == a[1..] + b;
      DecodedThen(input, Step(input, c, a[0]).value, a[1..], m, b, c', ok);
    }
  }

  lemma {:induction false} StuckEarly(input: seq<Byte>, c: Coder, a: seq<Decision>, b: seq<Decision>, c': Coder)
    requires Decoded(input, c, a, c', false)
    ensures Decoded(input, c, a + b, c', false)
    decreases a
  {
    assert (a + b)[1..] == a[1..] + b;
    var s := Step(input, c, a[0]);
    if s.Some? {
      StuckEarly(input, s.value, a[1..], b, c');
    }
  }

  lemma StuckPrefix(input: seq<Byte>, c: Coder, a: seq<Decision>, whole: seq<Decision>, c': Coder)
    requires Decoded(input, c, a, c', false) && a <= whole
    ensures Decoded(input, c, whole, c', false)
  {
    StuckEarly(input, c, a, whole[|a|..], c');
    assert whole == a + whole[|a|..];
  }

  /** Getting stuck on one question is getting stuck in every list that goes on
      to ask it. */
  lemma StuckInside(input: seq<Byte>, c: Coder, a: seq<Decision>, m: Coder, d: Decision, c': Coder,
                    whole: seq<Decision>)
    requires Decoded(input, c, a, m, true) && Decoded(input, m, [d], c', false)
    requires a + [d] <= whole
    ensures Decoded(input, c, whole, c', false)
  {
    DecodedThen(input, c, a, m, [d], c', false);
    StuckPrefix(input, c, a + [d], whole, c');
  }

  /** A list that got stuck is not spelled by the stream, and neither is any other
      list unless it diverges from it. */
  lemma StuckExcludes(input: seq<Byte>, c: Coder, a: seq<Decision>, b: seq<Decision>, c': Coder)
    requires Decoded(input, c, a, c', false)
    requires a == b || Diverge(a, b)
    ensures Feed(input, c, b).None?
  {
    if a == b {
      StuckIsNotFed(input, c, a, c');
    } else {
      StuckBeside(input, c, a, b, c');
    }
  }

  lemma {:induction false} StuckIsNotFed(input: seq<Byte>, c: Coder, a: seq<Decision>, c': Coder)
    requires Decoded(input, c, a, c', false)
    ensures Feed(input, c, a).None?
    decreases a
  {
    var s := Step(input, c, a[0]);
    if s.Some? { StuckIsNotFed(input, s.value, a[1..], c'); }
  }

  lemma {:induction false} StuckBeside(input: seq<Byte>, c: Coder, a: seq<Decision>, b: seq<Decision>, c': Coder)
    requires Decoded(input, c, a, c', false) && Diverge(a, b)
    ensures Feed(input, c, b).None?
    decreases a
  {
    if a[0] == b[0] {
      var s := Step(input, c, a[0]);
      if s.Some? { StuckBeside(input, s.value, a[1..], b[1..], c'); }
    }
  }

  function BigEndian(a: Byte, b: Byte, c: Byte, d: Byte): Word {
    var x: int := a;
    ((x * 256 + b) * 256 + c) * 256 + d
  }

  function Shifted(s: seq<Byte>): Word {
    if s == [] then 0 else (Shifted(s[..|s| - 1]) * 256 + s[|s| - 1]) % WORD
  }

  lemma ShiftedNext(s: seq<Byte>, k: nat)
    requires k < |s|
    ensures Shifted(s[..0]) == 0
    ensures Shifted(s[..k + 1]) == (Shifted(s[..k]) * 256 + s[k]) % WORD
  {
    assert s[..k + 1][..k] == s[..k];
  }

  lemma FirstByteIsShiftedOut(s: seq<Byte>)
    requires |s| == 5
    ensures Shifted(s) == BigEndian(s[1], s[2], s[3], s[4])
  {
    hide Shifted;
    var x: nat := s[0];
    ShiftedBelow(s, 0, 0);
    ShiftedBelow(s, 1, x);
    ShiftedBelow(s, 2, x * 256 + s[1]);
    ShiftedBelow(s, 3, (x * 256 + s[1]) * 256 + s[2]);
    ShiftedNext(s, 4);
    WrapsOut(x, BigEndian(s[1], s[2], s[3], s[4]));
    assert s[..5] == s;
  }

  lemma ShiftedBelow(s: seq<Byte>, k: nat, x: nat)
    requires k < |s| && x < 0x100_0000 && (if k == 0 then x == 0 else x == Shifted(s[..k]))
    ensures Shifted(s[..k + 1]) == x * 256 + s[k]
  {
    ShiftedNext(s, k);
    if k == 0 { assert s[..0] == []; }
  }

  lemma WrapsOut(a: nat, low: Word)
    ensures (a * WORD + low) % WORD == low
  {
  }

  /** The coder a stream starts with: the first byte is shifted out of the 32-bit
      Code, the next four are its initial value. */
  function Initial(input: seq<Byte>, numProbs: nat): (c: Coder)
    requires |input| >= 5
  {
    Coder(WORD - 1,
          BigEndian(input[1], input[2], input[3], input[4]),
          5,
          seq(numProbs, i => 1024))
  }

  class RangeDecoder {
    var input: seq<Byte>
    const probs: array<Prob>
    var range: Range
    var code: Word
    var pos: nat

    constructor (numProbs: nat)
      ensures probs.Length == numProbs && fresh(probs)
    {
      probs := new Prob[numProbs];
      input, range, code, pos := [], WORD - 1, 0, 0;
    }

    ghost function State(): (c: Coder)
      reads this, probs
    {
      Coder(range, code, pos, probs[..])
    }

    method ResetModel()
      modifies probs
      ensures probs[..] == seq(probs.Length, i => 1024)
    {
      for i := 0 to probs.Length
        invariant forall j | 0 <= j < i :: probs[j] == 1024
      {
        probs[i] := 1024;
      }
    }

    /** Resets the model and reads the five start-up bytes. */
    method Start(buffer: seq<Byte>) returns (ok: bool)
      modifies this, probs
      ensures ok <==> |buffer| >= 5
      ensures ok ==> input == buffer && State() == Initial(buffer, probs.Length)
      ensures ok ==> range == 0xFFFF_FFFF && pos == 5 && forall i | 0 <= i < probs.Length :: probs[i] == 1024
      ensures ok ==>
                var b1: int, b2: int, b3: int, b4: int := buffer[1], buffer[2], buffer[3], buffer[4];
                code == 0x100_0000 * b1 + 0x1_0000 * b2 + 0x100 * b3 + b4
    {
      ResetModel();
      input, pos, code, range := buffer, 0, 0, WORD - 1;
      for n := 0 to 5
        invariant n == pos <= |buffer| && input == buffer && range == WORD - 1
        invariant code == Shifted(buffer[..n])
        invariant probs[..] == seq(probs.Length, i => 1024)
      {
        if pos == |input| {
          return false;
        }
        code := (code * 256 + input[pos]) % WORD;
        pos := pos + 1;
        assert buffer[..n + 1][..n] == buffer[..n];
      }
      FirstByteIsShiftedOut(buffer[..5]);
      return true;
    }

    /** Reads one byte when Range has fallen below 2^24. */
    method Refill() returns (ok: bool)
      modifies this
      ensures input == old(input)
      ensures ok <==> !Starved(input, old(State()))
      ensures State() == if ok then Normalize(input, old(State())) else old(State())
    {
      if range < TOP {
        if pos >= |input| {
          return false;
        }
        range, code, pos := range * 256, (code * 256 + input[pos]) % WORD, pos + 1;
      }
      return true;
    }

    method Split(i: nat) returns (bound: Range)
      requires i < probs.Length && TOP <= range
      ensures bound == Bound(range, probs[i])
    {
      MulIsProduct(range / 2048, probs[i]);
      BoundFits(range / 2048, probs[i]);
      bound := range / 2048 * probs[i];
    }

    method UpdateBit0(i: nat, bound: Range)
      requires i < probs.Length
      modifies this, probs
      ensures input == old(input)
      ensures State() == old(State()).(range := bound, probs := old(probs[..])[i := Up(old(probs[i]))])
    {
      range := bound;
      probs[i] := Up(probs[i]);
    }

    method UpdateBit1(i: nat, bound: Range)
      requires i < probs.Length && bound < range - 0x1_0000 && bound <= code
      modifies this, probs
      ensures input == old(input)
      ensures State() == old(State()).(range := old(range) - bound, code := old(code) - bound,
                                       probs := old(probs[..])[i := Down(old(probs[i]))])
    {
      range, code := range - bound, code - bound;
      probs[i] := Down(probs[i]);
    }

    method DecodeBit(i: nat) returns (ok: bool, bit: Bit)
      requires i < probs.Length
      modifies this, probs
      ensures input == old(input)
      ensures Decoded(input, old(State()), [Adaptive(i, bit)], State(), ok)
      ensures !ok ==> bit == 0
      ensures var p: int, q: int := old(probs[i]), probs[i];
              && (ok && bit == 0 ==> 32 * (q - p) <= 2048 - p < 32 * (q - p) + 32)
              && (ok && bit == 1 ==> 32 * (p - q) <= p < 32 * (p - q) + 32)
    {
      hide Decoded, Normalize, Bound, Up, Down, Starved;
      MoveIsA32nd(probs[i]);
      ghost var c := State();
      bit := 0;
      ok := Refill();
      if !ok {
        NoStep(input, c, i);
        return;
      }
      ghost var n := State();
      var bound := Split(i);
      if code < bound {
        UpdateBit0(i, bound);
      } else {
        UpdateBit1(i, bound);
        bit := 1;
      }
      AdaptiveIs(input, c, i, n, bit, State());
    }

    lemma NoStep(input: seq<Byte>, c: Coder, i: nat)
      requires Starved(input, c)
      ensures Decoded(input, c, [Adaptive(i, 0)], c, false)
    {
    }

    lemma AdaptiveIs(input: seq<Byte>, c: Coder, i: nat, n: Coder, bit: Bit, c': Coder)
      requires !Starved(input, c) && n == Normalize(input, c) && i < |n.probs|
      requires (bit == 0) == (n.code < Bound(n.range, n.probs[i])) && c' == AdaptiveStep(n, i, bit)
      ensures Decoded(input, c, [Adaptive(i, bit)], c', true)
    {
      OneStep(input, c, Adaptive(i, bit), c');
    }

    lemma OneStep(input: seq<Byte>, c: Coder, d: Decision, c': Coder)
      requires Step(input, c, d) == Some(c')
      ensures Decoded(input, c, [d], c', true)
    {
      assert [d][1..] == [];
    }

    method DecodeDirect() returns (ok: bool, bit: Bit)
      modifies this
      ensures input == old(input)
      ensures Decoded(input, old(State()), [Direct(bit)], State(), ok)
      ensures !ok ==> bit == 0
    {
      ghost var c := State();
      bit := 0;
      ok := Refill();
      if !ok {
        return;
      }
      range := range / 2;
      if code >= range {
        code := code - range;
        bit := 1;
      }
      OneStep(input, c, Direct(bit), State());
    }
  }
}
