/** El Torito emulation: `cdemu_read` of seabios/src/cdrom.c serves 512-byte sectors
    from a disc that is read in blocks of four, through `process_op` of block.c. */
module Cdrom {

  /** A disc by sectors, and the blocks that cannot be read. */
  datatype Disc<T> = Disc(sectors: seq<T>, bad: set<nat>)

  predicate Readable<T>(d: Disc<T>, block: nat) {
    block !in d.bad && 4 * block + 4 <= |d.sectors|
  }

  // ------------------------------------------------------- one sector at a time

  /** How many sectors from `s` on can be read, one after the other. */
  function Delivered<T>(d: Disc<T>, s: nat, count: nat): (n: nat)
    ensures n <= count
    decreases count
  {
    if count == 0 || !Readable(d, s / 4) then 0 else 1 + Delivered(d, s + 1, count - 1)
  }

  lemma {:induction false} DeliveredInside<T>(d: Disc<T>, s: nat, count: nat)
    ensures Delivered(d, s, count) > 0 ==> s + Delivered(d, s, count) <= |d.sectors|
    decreases count
  {
    if count > 0 && Readable(d, s / 4) { DeliveredInside(d, s + 1, count - 1); }
  }

  /** Reading on after `k` sectors that can be read. */
  lemma {:induction false} DeliveredJoin<T>(d: Disc<T>, s: nat, k: nat, more: nat)
    ensures Delivered(d, s, k + more) ==
            if Delivered(d, s, k) < k then Delivered(d, s, k) else k + Delivered(d, s + k, more)
    decreases k
  {
    if k > 0 && Readable(d, s / 4) { DeliveredJoin(d, s + 1, k - 1, more); }
  }

  /** All sectors of one block stand or fall together. */
  lemma {:induction false} WithinBlock<T>(d: Disc<T>, s: nat, count: nat)
    requires s % 4 + count <= 4
    ensures Delivered(d, s, count) == if Readable(d, s / 4) then count else 0
    decreases count
  {
    if count > 1 {
      assert (s + 1) / 4 == s / 4;
      WithinBlock(d, s + 1, count - 1);
    }
  }

  /** `n` sectors from `s` on. */
  function Part<T>(d: Disc<T>, s: nat, n: nat): (p: seq<T>)
    ensures |p| <= n && (s + n <= |d.sectors| || n == 0 ==> |p| == n)
    decreases d, n
  {
    if n == 0 || s >= |d.sectors| then [] else [d.sectors[s]] + Part(d, s + 1, n - 1)
  }

  lemma {:induction false} PartJoin<T>(d: Disc<T>, s: nat, k: nat, more: nat)
    requires s + k <= |d.sectors| || k == 0
    ensures Part(d, s, k + more) == Part(d, s, k) + Part(d, s + k, more)
    decreases k
  {
    if k > 0 {
      PartJoin(d, s + 1, k - 1, more);
    } else {
      assert [] + Part(d, s, more) == Part(d, s, more);
    }
  }

  lemma {:induction false} PartIsSlice<T>(d: Disc<T>, s: nat, n: nat)
    requires s + n <= |d.sectors|
    ensures Part(d, s, n) == d.sectors[s..s + n]
    decreases n
  {
    if n > 0 { PartIsSlice(d, s + 1, n - 1); }
  }

  /** A buffer with a part of it overwritten. */
  function Filled<T>(b: seq<T>, at: nat, part: seq<T>): (r: seq<T>)
    requires at + |part| <= |b|
    ensures |r| == |b|
    decreases part
  {
    if part == [] then b else Filled(b[at := part[0]], at + 1, part[1..])
  }

  lemma {:induction false} FilledIs<T>(b: seq<T>, at: nat, part: seq<T>, i: nat)
    requires at + |part| <= |b| && i < |b|
    ensures Filled(b, at, part)[i] == if at <= i < at + |part| then part[i - at] else b[i]
    decreases part
  {
    if part != [] { FilledIs(b[at := part[0]], at + 1, part[1..], i); }
  }

  lemma {:induction false} FilledJoin<T>(b: seq<T>, at: nat, p: seq<T>, q: seq<T>)
    requires at + |p| + |q| <= |b|
    ensures Filled(Filled(b, at, p), at + |p|, q) == Filled(b, at, p + q)
    decreases p
  {
    if p == [] {
      assert p + q == q;
    } else {
      assert (p + q)[1..] == p[1..] + q;
      FilledJoin(b[at := p[0]], at + 1, p[1..], q);
    }
  }

  /** A part and the part behind it. */
  lemma FilledOn<T>(d: Disc<T>, b: seq<T>, at: nat, s: nat, k: nat, more: nat)
    requires at + k + more <= |b| && (s + k <= |d.sectors| || k == 0)
    ensures |Part(d, s, k)| == k
    ensures Filled(Filled(b, at, Part(d, s, k)), at + k, Part(d, s + k, more)) == Filled(b, at, Part(d, s, k + more))
  {
    PartJoin(d, s, k, more);
    FilledJoin(b, at, Part(d, s, k), Part(d, s + k, more));
  }

  // ------------------------------------------------------------- the device

  /** What a drive leaves behind when a read of several blocks fails: the count in the
      request, and whatever it wrote to the buffer. */
  datatype Failure<T> = Failure(count: nat, junk: seq<T>)

  /** The sectors of a run of blocks that can be read. */
  function Good<T>(d: Disc<T>, block: nat, blocks: nat): (n: nat)
    ensures n <= 4 * blocks
  {
    Delivered(d, 4 * block, 4 * blocks)
  }

  /** A drive that reports progress reports no more blocks than could be read; others
      leave the count as it was. */
  predicate Possible<T>(d: Disc<T>, f: Failure<T>, block: nat, count: nat) {
    |f.junk| <= 4 * count && (f.count == count || 4 * f.count <= Good(d, block, count))
  }

  /** A count that has not changed on an error stands for nothing transferred. */
  function Reported<T>(f: Failure<T>, count: nat): nat {
    if f.count == count then 0 else f.count
  }

  /** The driver: all blocks, or the failure. */
  method Drive<T>(d: Disc<T>, block: nat, count: nat, f: Failure<T>, buf: array<T>, at: nat)
    returns (ok: bool, left: nat)
    requires at + 4 * count <= buf.Length && Possible(d, f, block, count)
    modifies buf
    ensures ok <==> Good(d, block, count) == 4 * count
    ensures left == if ok then count else f.count
    ensures var done := if ok then count else Reported(f, count);
            && 4 * done <= Good(d, block, count)
            && buf[..] == Filled(if ok then old(buf[..]) else Filled(old(buf[..]), at, f.junk), at,
                                 Part(d, 4 * block, 4 * done))
  {
    DeliveredInside(d, 4 * block, 4 * count);
    ok := Delivered(d, 4 * block, 4 * count) == 4 * count;
    left := if ok then count else f.count;
    if !ok {
      Copy(f.junk, buf, at);
    }
    var done := if ok then count else Reported(f, count);
    Copy(Part(d, 4 * block, 4 * done), buf, at);
  }

  /** `process_op` for a read. */
  method ProcessOp<T>(d: Disc<T>, block: nat, count: nat, f: Failure<T>, buf: array<T>, at: nat)
    returns (ok: bool, done: nat)
    requires at + 4 * count <= buf.Length && Possible(d, f, block, count)
    modifies buf
    ensures ok <==> Good(d, block, count) == 4 * count
    ensures done == (if ok then count else Reported(f, count)) && 4 * done <= Good(d, block, count)
    ensures buf[..] == Filled(if ok then old(buf[..]) else Filled(old(buf[..]), at, f.junk), at,
                              Part(d, 4 * block, 4 * done))
  {
    ok, done := Drive(d, block, count, f, buf, at);
    if !ok && done == count {
      done := 0;
    }
  }

  /** `memcpy_fl`. */
  method Copy<T>(from: seq<T>, buf: array<T>, at: nat)
    requires at + |from| <= buf.Length
    modifies buf
    ensures buf[..] == Filled(old(buf[..]), at, from)
  {
    ghost var before := buf[..];
    forall i | 0 <= i < |from| {
      buf[at + i] := from[i];
    }
    forall i | 0 <= i < |before|
      ensures buf[..][i] == Filled(before, at, from)[i]
    {
      FilledIs(before, at, from, i);
    }
  }

  // ------------------------------------------------------------- cdemu_read

  /** A block read into the bounce buffer and `n` sectors of it, from sector `skip` of
      the block, copied out. */
  method ReadPartial<T>(d: Disc<T>, block: nat, skip: nat, n: nat, f: Failure<T>, bounce: array<T>, buf: array<T>,
                        at: nat)
    returns (ok: bool)
    requires skip + n <= 4 == bounce.Length && n > 0 && at + n <= buf.Length && bounce != buf
    requires Possible(d, f, block, 1)
    modifies bounce, buf
    ensures Delivered(d, 4 * block + skip, n) == (if ok then n else 0)
    ensures ok ==> 4 * block + skip + n <= |d.sectors|
    ensures buf[..] == if ok then Filled(old(buf[..]), at, Part(d, 4 * block + skip, n)) else old(buf[..])
  {
    ghost var before := bounce[..];
    var done;
    ok, done := ProcessOp(d, block, 1, f, bounce, 0);
    OneBlock(d, block, skip, n);
    DeliveredInside(d, 4 * block, 4);
    if ok {
      Bounced(d, before, bounce[..], block, skip, n);
      Copy(bounce[skip..skip + n], buf, at);
    }
  }

  lemma OneBlock<T>(d: Disc<T>, lba: nat, skip: nat, n: nat)
    requires skip + n <= 4 && n > 0
    ensures Delivered(d, 4 * lba + skip, n) == if Delivered(d, 4 * lba, 4) == 4 then n else 0
  {
    WithinBlock(d, 4 * lba, 4);
    WithinBlock(d, 4 * lba + skip, n);
  }

  lemma Bounced<T>(d: Disc<T>, before: seq<T>, after: seq<T>, lba: nat, skip: nat, n: nat)
    requires |before| == 4 && skip + n <= 4 && 4 * lba + 4 <= |d.sectors|
    requires after == Filled(before, 0, Part(d, 4 * lba, 4))
    ensures after[skip..skip + n] == Part(d, 4 * lba + skip, n)
  {
    FilledWhole(before, Part(d, 4 * lba, 4));
    SlicePart(d, 4 * lba, skip, n);
  }

  lemma SlicePart<T>(d: Disc<T>, s: nat, skip: nat, n: nat)
    requires skip + n <= 4 && s + 4 <= |d.sectors|
    ensures |Part(d, s, 4)| == 4 && Part(d, s, 4)[skip..skip + n] == Part(d, s + skip, n)
  {
    PartIsSlice(d, s, 4);
    PartIsSlice(d, s + skip, n);
    SliceOfSlice(d.sectors, s, skip, n);
  }

  lemma FilledWhole<T>(b: seq<T>, part: seq<T>)
    requires |part| == |b|
    ensures Filled(b, 0, part) == part
  {
    forall i | 0 <= i < |b|
      ensures Filled(b, 0, part)[i] == part[i]
    {
      FilledIs(b, 0, part, i);
    }
  }

  lemma SliceOfSlice<T>(b: seq<T>, at: nat, skip: nat, n: nat)
    requires skip + n <= 4 && at + 4 <= |b|
    ensures b[at..at + 4][skip..skip + n] == b[at + skip..at + skip + n]
  {
    var l, r := b[at..at + 4][skip..skip + n], b[at + skip..at + skip + n];
    forall i | 0 <= i < n
      ensures l[i] == r[i]
    {
    }
    assert l == r;
  }

  /** For a read of `count` sectors from sector `skip` of `block` on: the sectors before
      the first whole block, the number of whole blocks, and the one they begin with. */
  function HeadCount(skip: nat, count: nat): (n: nat)
    requires skip < 4
    ensures n <= count
  {
    if skip == 0 then 0 else if 4 - skip > count then count else 4 - skip
  }

  function RunBlocks(skip: nat, count: nat): nat
    requires skip < 4
  {
    (count - HeadCount(skip, count)) / 4
  }

  function RunBlock(block: nat, skip: nat): nat {
    if skip == 0 then block else block + 1
  }

  /** The sectors of the run that can be read. */
  function RunGood<T>(d: Disc<T>, block: nat, skip: nat, count: nat): nat
    requires skip < 4
  {
    Good(d, RunBlock(block, skip), RunBlocks(skip, count))
  }

  /** The read gets to the run of whole blocks, and that fails. */
  predicate RunFails<T>(d: Disc<T>, block: nat, skip: nat, count: nat)
    requires skip < 4
  {
    && Delivered(d, 4 * block + skip, HeadCount(skip, count)) == HeadCount(skip, count)
    && RunGood(d, block, skip, count) < 4 * RunBlocks(skip, count)
  }

  /** What the failure leaves in the buffer. */
  function Left<T>(b: seq<T>, at: nat, f: Failure<T>, fails: bool): (r: seq<T>)
    requires at + |f.junk| <= |b|
    ensures |r| == |b|
  {
    if fails then Filled(b, at, f.junk) else b
  }

  /** Success means that all sectors could be read one by one; the count is never more
      than could. */
  predicate Honest<T>(d: Disc<T>, s: nat, count: nat, ok: bool, n: nat) {
    && (ok <==> Delivered(d, s, count) == count) && n <= Delivered(d, s, count) && (ok <==> n == count)
    && (n > 0 ==> s + n <= |d.sectors|)
  }

  /** The run of whole blocks succeeds, or fails at once, or just what could be read of it
      is reported. */
  predicate Exact<T>(d: Disc<T>, block: nat, blocks: nat, f: Failure<T>) {
    Good(d, block, blocks) == 4 * blocks || Good(d, block, blocks) in {0, 4 * f.count}
  }

  lemma ReportedExactly<T>(d: Disc<T>, f: Failure<T>, block: nat, blocks: nat)
    requires Possible(d, f, block, blocks) && Good(d, block, blocks) < 4 * blocks
    ensures 4 * Reported(f, blocks) == Good(d, block, blocks) <==> Exact(d, block, blocks, f)
  {
  }

  /** The sectors delivered can be read, and the one behind them cannot. */
  lemma {:induction false} DeliveredIs<T>(d: Disc<T>, s: nat, count: nat, k: nat)
    ensures k < Delivered(d, s, count) ==> Readable(d, (s + k) / 4)
    ensures k == Delivered(d, s, count) < count ==> !Readable(d, (s + k) / 4)
    decreases count
  {
    if count > 0 && Readable(d, s / 4) && k > 0 { DeliveredIs(d, s + 1, count - 1, k - 1); }
  }

  lemma GoodIs<T>(d: Disc<T>, block: nat, blocks: nat)
    ensures Good(d, block, blocks) == 4 * blocks <==> forall b | block <= b < block + blocks :: Readable(d, b)
  {
    hide Readable, Delivered;
    var g := Good(d, block, blocks);
    if g == 4 * blocks {
      forall b | block <= b < block + blocks
        ensures Readable(d, b)
      {
        DeliveredIs(d, 4 * block, 4 * blocks, 4 * (b - block));
      }
    } else {
      DeliveredIs(d, 4 * block, 4 * blocks, g);
      assert block <= (4 * block + g) / 4 < block + blocks;
    }
  }

  /** What a read reports, block by block: nothing when the first block is not whole and
      cannot be read; the first sectors and what the drive reports when the run of whole
      blocks fails; those and the run when only the last block cannot be read. */
  lemma ReportIs<T>(d: Disc<T>, block: nat, skip: nat, count: nat, f: Failure<T>, n: nat)
    requires skip < 4 && 0 < count
    requires RunFails(d, block, skip, count) ==> n == HeadCount(skip, count) + 4 * Reported(f, RunBlocks(skip, count))
    requires !RunFails(d, block, skip, count) ==> n == Delivered(d, 4 * block + skip, count)
    ensures var head := if skip == 0 then 0 else if 4 - skip > count then count else 4 - skip;
            var first, blocks := if skip == 0 then block else block + 1, (count - head) / 4;
            n == if skip > 0 && !Readable(d, block) then 0
                 else if exists b :: first <= b < first + blocks && !Readable(d, b)
                      then head + (if f.count == blocks then 0 else 4 * f.count)
                 else if (count - head) % 4 > 0 && !Readable(d, first + blocks) then head + 4 * blocks
                 else count
  {
    var s, head := 4 * block + skip, HeadCount(skip, count);
    var first, blocks, rest := RunBlock(block, skip), RunBlocks(skip, count), (count - head) % 4;
    GoodIs(d, first, blocks);
    if skip > 0 {
      WithinBlock(d, s, head);
      DeliveredJoin(d, s, head, count - head);
    }
    if skip == 0 || Readable(d, block) {
      if !RunFails(d, block, skip, count) {
        ReportJoins(d, s, head, first, blocks, rest);
      }
    }
  }

  lemma ReportJoins<T>(d: Disc<T>, s: nat, head: nat, first: nat, blocks: nat, rest: nat)
    requires Delivered(d, s, head) == head && rest < 4 && Good(d, first, blocks) == 4 * blocks
    requires blocks + rest > 0 ==> s + head == 4 * first
    ensures Delivered(d, s, head + 4 * blocks + rest) ==
            if rest > 0 && !Readable(d, first + blocks) then head + 4 * blocks else head + 4 * blocks + rest
  {
    hide Delivered, Readable;
    DeliveredJoin(d, s, head, 4 * blocks);
    DeliveredJoin(d, s, head + 4 * blocks, rest);
    NoMore(d, s + head);
    if rest > 0 {
      assert s + head + 4 * blocks == 4 * (first + blocks);
      WithinBlock(d, 4 * (first + blocks), rest);
    }
  }

  lemma NoMore<T>(d: Disc<T>, s: nat)
    ensures Delivered(d, s, 0) == 0
  {
  }

  /** `cdemu_read`.  It succeeds exactly when each sector by itself could be read; the
      count is never more than that would deliver, and just that unless the run of whole
      blocks fails behind its first block and the drive does not report how far it got;
      and the first sectors are right up to the count.  The `u8` temporaries hold what
      `basic_access` admits. */
  method Read<T>(d: Disc<T>, ilba: nat, lba: nat, count: nat, f: Failure<T>, single: Failure<T>, bounce: array<T>,
                 buf: array<T>)
    returns (ok: bool, n: nat)
    requires 1 <= count <= 128 && count <= buf.Length && bounce.Length == 4 && bounce != buf
    requires Possible(d, f, RunBlock(ilba + lba / 4, lba % 4), RunBlocks(lba % 4, count))
    requires |single.junk| <= 4 && single.count <= 1
    modifies bounce, buf
    ensures Honest(d, 4 * ilba + lba, count, ok, n)
    ensures var block, skip := ilba + lba / 4, lba % 4;
            n == Delivered(d, 4 * ilba + lba, count) <==>
            !RunFails(d, block, skip, count) || RunGood(d, block, skip, count) in {0, 4 * f.count}
    ensures var block, skip := ilba + lba / 4, lba % 4;
            RunFails(d, block, skip, count) ==>
              n == HeadCount(skip, count) + 4 * Reported(f, RunBlocks(skip, count))
    ensures var fails := RunFails(d, ilba + lba / 4, lba % 4, count);
            buf[..] == Filled(Left(old(buf[..]), HeadCount(lba % 4, count), f, fails), 0, Part(d, 4 * ilba + lba, n))
    ensures n <= count && (ok <==> n == count)
    ensures var block, skip := ilba + lba / 4, lba % 4;
            var head := if skip == 0 then 0 else if 4 - skip > count then count else 4 - skip;
            var first, blocks := if skip == 0 then block else block + 1, (count - head) / 4;
            n == if skip > 0 && !Readable(d, block) then 0
                 else if exists b :: first <= b < first + blocks && !Readable(d, b)
                      then head + (if f.count == blocks then 0 else 4 * f.count)
                 else if (count - head) % 4 > 0 && !Readable(d, first + blocks) then head + 4 * blocks
                 else count
    ensures n > 0 ==> 4 * ilba + lba + n <= |d.sectors|
    ensures forall i | 0 <= i < n :: buf[i] == d.sectors[4 * ilba + lba + i]
    ensures forall i | count <= i < buf.Length :: buf[i] == old(buf[i])
  {
    hide Part, Filled, Delivered, Readable, RunFails, RunGood, Left;
    ghost var before := buf[..];
    ghost var block, skip := ilba + lba / 4, lba % 4;
    assert 4 * block + skip == 4 * ilba + lba;
    ok, n := ReadFrom(d, ilba + lba / 4, lba % 4, count, f, single, bounce, buf);
    ReportIs(d, block, skip, count, f, n);
    forall i | 0 <= i < buf.Length
      ensures i < n ==> buf[..][i] == d.sectors[4 * ilba + lba + i]
      ensures i >= count ==> buf[..][i] == before[i]
    {
      ReadMeans(d, before, HeadCount(skip, count), f, RunFails(d, block, skip, count), 4 * ilba + lba, n, count, i);
    }
  }

  method ReadFrom<T>(d: Disc<T>, block: nat, skip: nat, count: nat, f: Failure<T>, single: Failure<T>, bounce: array<T>,
                     buf: array<T>)
    returns (ok: bool, n: nat)
    requires skip < 4 && 1 <= count <= 128 && count <= buf.Length && bounce.Length == 4 && bounce != buf
    requires Possible(d, f, RunBlock(block, skip), RunBlocks(skip, count))
    requires |single.junk| <= 4 && single.count <= 1
    modifies bounce, buf
    ensures Honest(d, 4 * block + skip, count, ok, n)
    ensures n == Delivered(d, 4 * block + skip, count) <==>
            !RunFails(d, block, skip, count) || RunGood(d, block, skip, count) in {0, 4 * f.count}
    ensures RunFails(d, block, skip, count) ==>
              n == HeadCount(skip, count) + 4 * Reported(f, RunBlocks(skip, count))
    ensures var fails := RunFails(d, block, skip, count);
            buf[..] == Filled(Left(old(buf[..]), HeadCount(skip, count), f, fails), 0, Part(d, 4 * block + skip, n))
  {
    if skip == 0 {
      ok, n := ReadRest(d, 4 * block, buf[..], block, count, 0, f, single, bounce, buf);
    } else {
      ok, n := ReadUnaligned(d, block, skip, count, f, single, bounce, buf);
    }
  }

  method ReadUnaligned<T>(d: Disc<T>, block: nat, skip: nat, count: nat, f: Failure<T>, single: Failure<T>,
                          bounce: array<T>, buf: array<T>)
    returns (ok: bool, n: nat)
    requires 0 < skip < 4 && 1 <= count <= 128 && count <= buf.Length && bounce.Length == 4 && bounce != buf
    requires Possible(d, f, RunBlock(block, skip), RunBlocks(skip, count))
    requires |single.junk| <= 4 && single.count <= 1
    modifies bounce, buf
    ensures Honest(d, 4 * block + skip, count, ok, n)
    ensures n == Delivered(d, 4 * block + skip, count) <==>
            !RunFails(d, block, skip, count) || RunGood(d, block, skip, count) in {0, 4 * f.count}
    ensures RunFails(d, block, skip, count) ==>
              n == HeadCount(skip, count) + 4 * Reported(f, RunBlocks(skip, count))
    ensures var fails := RunFails(d, block, skip, count);
            buf[..] == Filled(Left(old(buf[..]), HeadCount(skip, count), f, fails), 0, Part(d, 4 * block + skip, n))
  {
    hide Part, Filled, Delivered;
    ghost var before := buf[..];
    ok, n := ReadHead(d, block, skip, count, single, bounce, buf);
    if ok {
      ok, n := ReadRest(d, 4 * block + skip, before, block + 1, count - n, n, f, single, bounce, buf);
    } else {
      HeadFails(d, block, skip, count);
    }
  }

  /** When the first block cannot be read, the run is never reached. */
  lemma HeadFails<T>(d: Disc<T>, block: nat, skip: nat, count: nat)
    requires 0 < skip < 4 && count > 0 && Delivered(d, 4 * block + skip, HeadCount(skip, count)) == 0
    ensures !RunFails(d, block, skip, count) && Delivered(d, 4 * block + skip, count) == 0
  {
    var h := HeadCount(skip, count);
    DeliveredJoin(d, 4 * block + skip, h, count - h);
  }

  /** The sectors up to the end of the first block. */
  method ReadHead<T>(d: Disc<T>, block: nat, skip: nat, count: nat, single: Failure<T>, bounce: array<T>, buf: array<T>)
    returns (ok: bool, n: nat)
    requires 1 <= skip <= 3 && 1 <= count <= buf.Length && bounce.Length == 4 && bounce != buf
    requires |single.junk| <= 4 && single.count <= 1
    modifies bounce, buf
    ensures var h := HeadCount(skip, count); n == Delivered(d, 4 * block + skip, h) == (if ok then h else 0)
    ensures ok ==> 4 * block + skip + n <= |d.sectors|
    ensures buf[..] == Filled(old(buf[..]), 0, Part(d, 4 * block + skip, n))
  {
    var thiscount := (4 - skip) % 0x100;
    if thiscount > count {
      thiscount := count;
    }
    ok := ReadPartial(d, block, skip, thiscount, single, bounce, buf, 0);
    n := if ok then thiscount else 0;
  }

  /** What follows the first partial block, after `n` sectors. */
  method ReadRest<T>(d: Disc<T>, ghost s: nat, ghost before: seq<T>, block: nat, left: nat, n: nat, f: Failure<T>,
                     single: Failure<T>, bounce: array<T>, buf: array<T>)
    returns (ok: bool, total: nat)
    requires n + left <= 128 && n + left <= buf.Length == |before| && bounce.Length == 4 && bounce != buf
    requires (left > 0 ==> 4 * block == s + n) && Delivered(d, s, n) == n && (n > 0 ==> s + n <= |d.sectors|)
    requires Possible(d, f, block, left / 4) && |single.junk| <= 4 && single.count <= 1
    requires buf[..] == Filled(before, 0, Part(d, s, n))
    modifies bounce, buf
    ensures Honest(d, s, n + left, ok, total)
    ensures total == Delivered(d, s, n + left) <==> Exact(d, block, left / 4, f)
    ensures Good(d, block, left / 4) < 4 * (left / 4) ==> total == n + 4 * Reported(f, left / 4)
    ensures buf[..] == Filled(Left(before, n, f, Good(d, block, left / 4) < 4 * (left / 4)), 0, Part(d, s, total))
  {
    hide Part, Filled, Delivered;
    if left > 3 {
      ok, total := ReadRun(d, s, before, block, left / 4, left % 4, n, f, single, bounce, buf);
    } else {
      ok, total := ReadLast(d, s, before, block, left, n, single, bounce, buf);
    }
  }

  /** The whole blocks and the last one. */
  method ReadRun<T>(d: Disc<T>, ghost s: nat, ghost before: seq<T>, block: nat, blocks: nat, rest: nat, n: nat,
                    f: Failure<T>, single: Failure<T>, bounce: array<T>, buf: array<T>)
    returns (ok: bool, total: nat)
    requires 0 < blocks && rest < 4 && n + 4 * blocks + rest <= 128
    requires n + 4 * blocks + rest <= buf.Length == |before| && bounce.Length == 4 && bounce != buf
    requires 4 * block == s + n && Delivered(d, s, n) == n && (n > 0 ==> s + n <= |d.sectors|)
    requires Possible(d, f, block, blocks) && |single.junk| <= 4 && single.count <= 1
    requires buf[..] == Filled(before, 0, Part(d, s, n))
    modifies bounce, buf
    ensures Honest(d, s, n + 4 * blocks + rest, ok, total)
    ensures total == Delivered(d, s, n + 4 * blocks + rest) <==> Exact(d, block, blocks, f)
    ensures Good(d, block, blocks) < 4 * blocks ==> total == n + 4 * Reported(f, blocks)
    ensures buf[..] == Filled(Left(before, n, f, Good(d, block, blocks) < 4 * blocks), 0, Part(d, s, total))
  {
    hide Part, Filled, Delivered;
    var done;
    ok, done := ReadMiddle(d, s, before, block, blocks, n, rest, f, buf);
    total := n + 4 * done;
    if ok {
      var thiscount := (4 * blocks) % 0x100;
      ok, total := ReadLast(d, s, before, block + thiscount / 4, rest, total, single, bounce, buf);
    } else {
      ReportedExactly(d, f, block, blocks);
    }
  }

  /** The whole blocks, straight into the caller's buffer. */
  method ReadMiddle<T>(d: Disc<T>, ghost s: nat, ghost before: seq<T>, block: nat, blocks: nat, n: nat, ghost rest: nat,
                       f: Failure<T>, buf: array<T>)
    returns (ok: bool, done: nat)
    requires n + 4 * blocks <= buf.Length == |before| && 4 * block == s + n && blocks > 0
    requires Delivered(d, s, n) == n && (n > 0 ==> s + n <= |d.sectors|) && Possible(d, f, block, blocks)
    requires buf[..] == Filled(before, 0, Part(d, s, n))
    modifies buf
    ensures (ok <==> Good(d, block, blocks) == 4 * blocks) && done == (if ok then blocks else Reported(f, blocks))
    ensures 4 * done <= Good(d, block, blocks)
    ensures ok ==> Delivered(d, s, n + 4 * blocks) == n + 4 * blocks
    ensures !ok ==> Delivered(d, s, n + 4 * blocks + rest) == n + Good(d, block, blocks)
    ensures n + 4 * done > 0 ==> s + n + 4 * done <= |d.sectors|
    ensures buf[..] == Filled(Left(before, n, f, !ok), 0, Part(d, s, n + 4 * done))
  {
    MiddleCounts(d, s, n, block, blocks, rest);
    ok, done := ProcessOp(d, block, blocks, f, buf, n);
    MiddleFilled(d, before, s, n, 4 * done, f, !ok);
  }

  lemma MiddleCounts<T>(d: Disc<T>, s: nat, n: nat, block: nat, blocks: nat, rest: nat)
    requires 4 * block == s + n && Delivered(d, s, n) == n
    ensures Good(d, block, blocks) > 0 ==> 4 * block + Good(d, block, blocks) <= |d.sectors|
    ensures Good(d, block, blocks) == 4 * blocks ==> Delivered(d, s, n + 4 * blocks) == n + 4 * blocks
    ensures Good(d, block, blocks) < 4 * blocks ==> Delivered(d, s, n + 4 * blocks + rest) == n + Good(d, block, blocks)
  {
    DeliveredInside(d, 4 * block, 4 * blocks);
    Onward(d, s, n, 4 * blocks, rest);
  }

  lemma MiddleFilled<T>(d: Disc<T>, before: seq<T>, s: nat, n: nat, more: nat, f: Failure<T>, fails: bool)
    requires n + |f.junk| <= |before| && n + more <= |before| && (n > 0 ==> s + n <= |d.sectors|)
    ensures |Part(d, s, n)| == n
    ensures var b := Filled(before, 0, Part(d, s, n));
            Filled(if fails then Filled(b, n, f.junk) else b, n, Part(d, s + n, more)) ==
            Filled(Left(before, n, f, fails), 0, Part(d, s, n + more))
  {
    PartLength(d, s, n);
    if fails { FilledApart(before, Part(d, s, n), n, f.junk); }
    FilledOn(d, Left(before, n, f, fails), 0, s, n, more);
  }

  lemma PartLength<T>(d: Disc<T>, s: nat, n: nat)
    requires n > 0 ==> s + n <= |d.sectors|
    ensures |Part(d, s, n)| == n
  {
  }

  /** Two parts apart may be filled in either order. */
  lemma FilledApart<T>(b: seq<T>, p: seq<T>, at: nat, q: seq<T>)
    requires |p| <= at && at + |q| <= |b|
    ensures Filled(Filled(b, 0, p), at, q) == Filled(Filled(b, at, q), 0, p)
  {
    var l, r := Filled(Filled(b, 0, p), at, q), Filled(Filled(b, at, q), 0, p);
    forall i | 0 <= i < |b|
      ensures l[i] == r[i]
    {
      FilledIs(b, 0, p, i);
      FilledIs(b, at, q, i);
      FilledIs(Filled(b, 0, p), at, q, i);
      FilledIs(Filled(b, at, q), 0, p, i);
    }
  }

  /** Sectors in three stretches. */
  lemma Onward<T>(d: Disc<T>, s: nat, n: nat, mid: nat, rest: nat)
    requires Delivered(d, s, n) == n
    ensures Delivered(d, s, n + mid) == n + Delivered(d, s + n, mid)
    ensures Delivered(d, s + n, mid) < mid ==> Delivered(d, s, n + mid + rest) == n + Delivered(d, s + n, mid)
  {
    DeliveredJoin(d, s, n, mid);
    DeliveredJoin(d, s, n, mid + rest);
    DeliveredJoin(d, s + n, mid, rest);
  }

  /** The last block, of which fewer than four sectors are wanted. */
  method ReadLast<T>(d: Disc<T>, ghost s: nat, ghost before: seq<T>, lba: nat, rest: nat, n: nat, single: Failure<T>,
                     bounce: array<T>, buf: array<T>)
    returns (ok: bool, total: nat)
    requires rest < 4 && n + rest <= buf.Length == |before| && bounce.Length == 4 && bounce != buf
    requires (rest > 0 ==> 4 * lba == s + n) && Delivered(d, s, n) == n && (n > 0 ==> s + n <= |d.sectors|)
    requires |single.junk| <= 4 && single.count <= 1
    requires buf[..] == Filled(before, 0, Part(d, s, n))
    modifies bounce, buf
    ensures Honest(d, s, n + rest, ok, total) && total == Delivered(d, s, n + rest)
    ensures buf[..] == Filled(before, 0, Part(d, s, total))
  {
    hide Part, Filled, Delivered;
    total, ok := n, true;
    if rest > 0 {
      ok := ReadPartial(d, lba, 0, rest, single, bounce, buf, n);
      DeliveredJoin(d, s, n, rest);
      FilledOn(d, before, 0, s, n, rest);
      if ok {
        total := total + rest;
      }
    }
  }

  /** The first sectors are those of the disc, and what lies behind the request is as it
      was. */
  lemma ReadMeans<T>(d: Disc<T>, b: seq<T>, at: nat, f: Failure<T>, fails: bool, s: nat, n: nat, count: nat, i: nat)
    requires n <= count <= |b| && at + |f.junk| <= count && (n > 0 ==> s + n <= |d.sectors|) && i < |b|
    ensures |Part(d, s, n)| == n
    ensures var r := Filled(Left(b, at, f, fails), 0, Part(d, s, n));
            && (i < n ==> r[i] == d.sectors[s + i]) && (i >= count ==> r[i] == b[i])
            && (i >= n && !fails ==> r[i] == b[i])
  {
    PartLength(d, s, n);
    if n > 0 { PartIsSlice(d, s, n); }
    FilledIs(b, at, f.junk, i);
    FilledIs(Left(b, at, f, fails), 0, Part(d, s, n), i);
  }

  /** Eight sectors, the second block bad, and a drive that leaves the count alone: four
      sectors could be read, and none is reported. */
  lemma Unreported()
    ensures var d := Disc([0, 1, 2, 3, 4, 5, 6, 7], {1});
            var f := Failure(2, []);
            && Possible(d, f, RunBlock(0, 0), RunBlocks(0, 8)) && RunFails(d, 0, 0, 8)
            && Delivered(d, 0, 8) == RunGood(d, 0, 0, 8) == 4 && Reported(f, 2) == 0
  {
    var d := Disc([0, 1, 2, 3, 4, 5, 6, 7], {1});
    DeliveredJoin(d, 0, 4, 4);
    WithinBlock(d, 0, 4);
    WithinBlock(d, 4, 4);
  }
}
