/** The cooperative threads of seabios/src/stacks.c: a ring of threads without a
    scheduler, in which the running thread passes control to the next. */
module Threads {
  import opened Hlist

  /** `&MainThread`; other threads have the addresses of their stacks. */
  const MAIN := 1

  // -------------------------------------------------------- the ring as a queue

  /** What the running thread can do to the ring.  `Preempt` is an interrupt while the
      main thread runs 16-bit code. */
  datatype Step = Spawn(thread: nat) | Yield | End | Preempt

  predicate Enabled(queue: seq<nat>, s: Step) {
    queue != [] &&
    match s
    case Spawn(t) => t != NULL && t !in queue
    case Yield => true
    case End => queue[0] != MAIN
    case Preempt => queue[0] == MAIN
  }

  /** The ring read from the running thread on. */
  function Advance(queue: seq<nat>, s: Step): seq<nat>
    requires Enabled(queue, s)
  {
    match s
    case Spawn(t) => [t] + queue[1..] + [queue[0]]
    case Yield => queue[1..] + [queue[0]]
    case End => queue[1..]
    case Preempt => queue[1..] + [queue[0]]
  }

  predicate Runs(queue: seq<nat>, steps: seq<Step>)
    decreases steps
  {
    steps == [] || (Enabled(queue, steps[0]) && Runs(Advance(queue, steps[0]), steps[1..]))
  }

  function Run(queue: seq<nat>, steps: seq<Step>): seq<nat>
    requires Runs(queue, steps)
    decreases steps
  {
    if steps == [] then queue else Run(Advance(queue, steps[0]), steps[1..])
  }

  /** The steps that pass control on: all but starting a thread. */
  function Switches(steps: seq<Step>): nat
    decreases steps
  {
    if steps == [] then 0 else (if steps[0].Spawn? then 0 else 1) + Switches(steps[1..])
  }

  /** Fairness: a thread that waits `i` places down the ring is still waiting, `n` places
      nearer, after any run with `n < i` switches, however many threads it started. */
  lemma {:induction false} Approaches(queue: seq<nat>, steps: seq<Step>, i: nat)
    requires Runs(queue, steps) && i < |queue| && Switches(steps) < i
    ensures i - Switches(steps) < |Run(queue, steps)|
    ensures Run(queue, steps)[i - Switches(steps)] == queue[i]
    decreases steps
  {
    if steps != [] {
      var next := Advance(queue, steps[0]);
      if steps[0].Spawn? {
        assert next[i] == queue[1..][i - 1];
        Approaches(next, steps[1..], i);
      } else {
        assert next[i - 1] == queue[1..][i - 1];
        Approaches(next, steps[1..], i - 1);
      }
    }
  }

  /** So it resumes with exactly the `i`-th switch. */
  lemma ResumesOnTime(queue: seq<nat>, steps: seq<Step>, s: Step, i: nat)
    requires Runs(queue, steps) && 0 < i < |queue| && Switches(steps) == i - 1
    requires Enabled(Run(queue, steps), s) && !s.Spawn?
    ensures Advance(Run(queue, steps), s) != [] && Advance(Run(queue, steps), s)[0] == queue[i]
  {
    Approaches(queue, steps, i);
  }

  // ----------------------------------------------------- who is in the ring

  function Spawned(steps: seq<Step>): multiset<nat>
    decreases steps
  {
    if steps == [] then multiset{}
    else (if steps[0].Spawn? then multiset{steps[0].thread} else multiset{}) + Spawned(steps[1..])
  }

  function Ended(queue: seq<nat>, steps: seq<Step>): multiset<nat>
    requires Runs(queue, steps)
    decreases steps
  {
    if steps == [] then multiset{}
    else (if steps[0].End? then multiset{queue[0]} else multiset{}) + Ended(Advance(queue, steps[0]), steps[1..])
  }

  lemma TailDistinct(queue: seq<nat>)
    requires queue != [] && Distinct(queue)
    ensures Distinct(queue[1..]) && Distinct([queue[0]]) && queue[0] !in queue[1..]
    ensures forall t: nat | t != NULL :: Distinct([t])
  {
    forall t: nat | t != NULL
      ensures Distinct([t])
    {
      assert [t][1..] == [];
    }
  }

  lemma AdvanceIs(queue: seq<nat>, s: Step)
    requires Enabled(queue, s) && Distinct(queue) && MAIN in queue
    ensures var next := Advance(queue, s);
            && Distinct(next) && MAIN in next
            && multiset(next) + (if s.End? then multiset{queue[0]} else multiset{}) ==
               multiset(queue) + (if s.Spawn? then multiset{s.thread} else multiset{})
  {
    hide Distinct;
    assert queue == [queue[0]] + queue[1..];
    TailDistinct(queue);
    DistinctJoin(queue[1..], [queue[0]]);
    if s.Spawn? {
      DistinctJoin([s.thread], queue[1..] + [queue[0]]);
      assert [s.thread] + queue[1..] + [queue[0]] == [s.thread] + (queue[1..] + [queue[0]]);
    }
    if !s.End? { assert MAIN in queue[1..] || MAIN in [queue[0]]; }
  }

  lemma Balance(r: multiset<nat>, e: multiset<nat>, n: multiset<nat>, s: multiset<nat>,
                q: multiset<nat>, e1: multiset<nat>, s1: multiset<nat>)
    requires r + e == n + s && n + e1 == q + s1
    ensures r + (e1 + e) == q + (s1 + s)
  {
    calc {
      r + (e1 + e);
    ==
      r + e + e1;
    ==
      n + e1 + s;
    ==
      q + (s1 + s);
    }
  }

  /** In every run the ring holds each live thread once, the main thread among them:
      those it began with and those started, less those that ended. */
  lemma {:induction false} Census(queue: seq<nat>, steps: seq<Step>)
    requires Runs(queue, steps) && Distinct(queue) && MAIN in queue
    ensures Distinct(Run(queue, steps)) && MAIN in Run(queue, steps)
    ensures multiset(Run(queue, steps)) + Ended(queue, steps) == multiset(queue) + Spawned(steps)
    decreases steps
  {
    if steps != [] {
      AdvanceIs(queue, steps[0]);
      var next := Advance(queue, steps[0]);
      Census(next, steps[1..]);
      Balance(multiset(Run(next, steps[1..])), Ended(next, steps[1..]), multiset(next), Spawned(steps[1..]),
              multiset(queue), if steps[0].End? then multiset{queue[0]} else multiset{},
              if steps[0].Spawn? then multiset{steps[0].thread} else multiset{});
    }
  }

  // ------------------------------------------------------ the ring in memory

  class Scheduler {
    const links: Links
    /** `getCurThread()`. */
    var current: nat
    /** The ring read from the running thread on. */
    ghost var queue: seq<nat>

    ghost predicate Valid()
      reads this, links
    {
      IsRing(links.cells, links.backs, queue) && queue[0] == current && MAIN in queue
    }

    constructor ()
      ensures Valid() && queue == [MAIN] && fresh(links)
    {
      links := new Links.Ring(MAIN);
      current, queue := MAIN, [MAIN];
    }

    /** `have_threads`: whether the main thread's `next` field points elsewhere. */
    method HaveThreads() returns (b: bool)
      requires Valid()
      ensures b <==> queue != [MAIN]
    {
      OnlyMain(links.cells, links.backs, queue);
      b := links.cells[NextOf(MAIN)] != MAIN;
    }

    /** `switch_next`: saves the running thread and resumes the next one. */
    method SwitchNext()
      requires Valid()
      modifies this
      ensures Valid() && queue == old(queue)[1..] + [old(queue)[0]]
    {
      Alone(links.cells, links.backs, queue);
      var next := links.cells[NextOf(current)];
      if current == next {
        assert queue[1..] + [queue[0]] == queue;
        return;
      }
      Rotate(links.cells, links.backs, queue);
      queue := queue[1..] + [queue[0]];
      current := next;
    }

    /** `run_thread`, up to the call of the thread's function. */
    method RunThread(thread: nat)
      requires Valid() && Enabled(queue, Spawn(thread))
      modifies this, links
      ensures Valid() && queue == Advance(old(queue), Spawn(thread))
      ensures current == thread && queue == [thread] + old(queue)[1..] + [old(queue)[0]]
    {
      AddToRing(links.cells, links.backs, queue, thread);
      links.Add(thread, NextOf(current));
      queue := [current, thread] + queue[1..];
      Rotate(links.cells, links.backs, queue);
      Shape(old(queue), thread, queue);
      queue := queue[1..] + [queue[0]];
      current := thread;
    }

    /** The end of a thread's function: `__end_thread`, then the next thread. */
    method EndThread()
      requires Valid() && Enabled(queue, End)
      modifies this, links
      ensures Valid() && queue == Advance(old(queue), End) == old(queue)[1..]
    {
      DelFromRing(links.cells, links.backs, queue);
      var next := links.cells[NextOf(current)];
      links.Del(current);
      queue := queue[1..];
      current := next;
    }

    /** `yield_preempt`, on the main thread. */
    method YieldPreempt()
      requires Valid() && Enabled(queue, Preempt)
      modifies this
      ensures Valid() && queue == Advance(old(queue), Preempt) == old(queue)[1..] + [old(queue)[0]]
    {
      SwitchNext();
    }

    /** One step. */
    method Take(step: Step)
      requires Valid() && Enabled(queue, step)
      modifies this, links
      ensures Valid() && queue == Advance(old(queue), step)
    {
      match step {
        case Spawn(t) => RunThread(t);
        case Yield => SwitchNext();
        case End => EndThread();
        case Preempt => YieldPreempt();
      }
    }

    /** Any run of steps, on the pointers. */
    method Execute(steps: seq<Step>)
      requires Valid() && Runs(queue, steps)
      modifies this, links
      ensures Valid() && queue == Run(old(queue), steps)
    {
      var i := 0;
      assert steps[0..] == steps;
      while i < |steps|
        invariant i <= |steps| && Valid() && Runs(queue, steps[i..]) && Run(queue, steps[i..]) == Run(old(queue), steps)
      {
        assert steps[i..][1..] == steps[i + 1..] && steps[i..][0] == steps[i];
        Take(steps[i]);
        i := i + 1;
      }
    }

    /** `wait_threads`: each round is what the other threads do from one `yield` of the
        main thread until it resumes.  When the wait ends, the main thread is alone. */
    method WaitThreads(rounds: seq<seq<Step>>) returns (done: bool, i: nat)
      requires Valid() && queue[0] == MAIN && Rounds(queue, rounds)
      modifies this, links
      ensures Valid() && queue[0] == MAIN && (done <==> queue == [MAIN])
      ensures i <= |rounds| && queue == AfterRounds(old(queue), rounds, i) && (!done ==> i == |rounds|)
      ensures forall j | 0 <= j < i :: AfterRounds(old(queue), rounds, j) != [MAIN]
    {
      hide Runs, Run, Advance;
      i := 0;
      done := false;
      assert rounds[0..] == rounds;
      while i < |rounds|
        invariant i <= |rounds| && Valid() && queue[0] == MAIN && Rounds(queue, rounds[i..]) && !done
        invariant queue == AfterRounds(old(queue), rounds, i)
        invariant forall j | 0 <= j < i :: AfterRounds(old(queue), rounds, j) != [MAIN]
      {
        var more := HaveThreads();
        if !more {
          done := true;
          return;
        }
        assert rounds[i..][1..] == rounds[i + 1..] && rounds[i..][0] == rounds[i];
        NextRound(old(queue), rounds, i);
        SwitchNext();
        Execute(rounds[i]);
        i := i + 1;
      }
      var more := HaveThreads();
      done := !more;
    }
  }

  class Mutex {
    var isLocked: bool
    ghost var holders: set<nat>
    ghost var waiting: set<nat>

    constructor ()
      ensures !isLocked && holders == {} && waiting == {}
    {
      isLocked, holders, waiting := false, {}, {};
    }
  }

  ghost function Seen(s: Scheduler, m: Mutex): World
    reads s, m
  {
    World(s.queue, m.isLocked, m.holders, m.waiting)
  }

  /** One round of the loop of `mutex_lock`, on the running thread: nothing can come
      between the test and the lock, because only `yield` passes control on. */
  method LockRound(s: Scheduler, m: Mutex) returns (taken: bool)
    requires s.Valid()
    modifies s, m
    ensures s.Valid() && Seen(s, m) == Perform(old(Seen(s, m)), Lock)
    ensures taken <==> !old(m.isLocked)
    ensures m.isLocked
    ensures taken ==>
              && s.current == old(s.current) && s.queue == old(s.queue)
              && m.holders == old(m.holders) + {s.current} && m.waiting == old(m.waiting) - {s.current}
    ensures !taken ==>
              && s.queue == old(s.queue)[1..] + [old(s.queue)[0]]
              && m.holders == old(m.holders) && m.waiting == old(m.waiting) + {old(s.current)}
  {
    if m.isLocked {
      m.waiting := m.waiting + {s.current};
      s.SwitchNext();
      return false;
    }
    m.isLocked := true;
    m.holders, m.waiting := m.holders + {s.current}, m.waiting - {s.current};
    taken := true;
  }

  /** `mutex_unlock`. */
  method Unlocks(s: Scheduler, m: Mutex)
    requires s.Valid() && Possible(Seen(s, m), Unlock)
    modifies m
    ensures s.Valid() && Seen(s, m) == Perform(old(Seen(s, m)), Unlock)
    ensures !m.isLocked && m.holders == old(m.holders) - {s.current} && m.waiting == old(m.waiting)
  {
    m.isLocked := false;
    m.holders := m.holders - {s.current};
  }

  /** Rounds that other threads run while the main thread waits. */
  predicate Rounds(queue: seq<nat>, rounds: seq<seq<Step>>)
    decreases rounds
  {
    rounds == [] ||
    (queue != [] && var q := queue[1..] + [queue[0]];
     Runs(q, rounds[0]) && var q' := Run(q, rounds[0]); q' != [] && q'[0] == MAIN && Rounds(q', rounds[1..]))
  }

  /** The ring after the first `n` of them: each time the main thread yields, and the round
      runs until it resumes. */
  function AfterRounds(queue: seq<nat>, rounds: seq<seq<Step>>, n: nat): seq<nat>
    requires Rounds(queue, rounds) && n <= |rounds|
    decreases rounds, n
  {
    if n == 0 then queue
    else AfterRounds(Run(queue[1..] + [queue[0]], rounds[0]), rounds[1..], n - 1)
  }

  lemma {:induction false} NextRound(queue: seq<nat>, rounds: seq<seq<Step>>, n: nat)
    requires Rounds(queue, rounds) && n < |rounds|
    ensures var q := AfterRounds(queue, rounds, n);
            && q != [] && Runs(q[1..] + [q[0]], rounds[n])
            && AfterRounds(queue, rounds, n + 1) == Run(q[1..] + [q[0]], rounds[n])
    decreases n
  {
    if n > 0 { NextRound(Run(queue[1..] + [queue[0]], rounds[0]), rounds[1..], n - 1); }
  }

  lemma Shape(queue: seq<nat>, thread: nat, all: seq<nat>)
    requires queue != [] && all == [queue[0], thread] + queue[1..]
    ensures all[1..] + [all[0]] == [thread] + queue[1..] + [queue[0]] && all[1] == thread
  {
    assert all[1..] == [thread] + queue[1..];
  }

  lemma OnlyMain(cells: Cells, backs: Backs, queue: seq<nat>)
    requires IsRing(cells, backs, queue) && MAIN in queue
    ensures NextOf(MAIN) in cells && (cells[NextOf(MAIN)] != MAIN <==> queue != [MAIN])
    decreases Position(queue)
  {
    if queue[0] == MAIN {
      Alone(cells, backs, queue);
      if |queue| == 1 { assert queue == [MAIN]; }
    } else {
      assert queue == [queue[0]] + queue[1..];
      Rotate(cells, backs, queue);
      PositionFalls(queue);
      OnlyMain(cells, backs, queue[1..] + [queue[0]]);
    }
  }

  function Position(queue: seq<nat>): nat
    decreases queue
  {
    if queue == [] || queue[0] == MAIN then 0 else 1 + Position(queue[1..])
  }

  lemma PositionFalls(queue: seq<nat>)
    requires queue != [] && queue[0] != MAIN && MAIN in queue[1..]
    ensures Position(queue[1..] + [queue[0]]) < Position(queue)
  {
    PositionJoin(queue[1..], [queue[0]]);
  }

  lemma {:induction false} PositionJoin(a: seq<nat>, b: seq<nat>)
    requires MAIN in a
    ensures Position(a + b) == Position(a)
    decreases a
  {
    assert (a + b)[0] == a[0] && (a + b)[1..] == a[1..] + b;
    if a[0] != MAIN { PositionJoin(a[1..], b); }
  }

  // ------------------------------------------------------------------ the mutex

  /** The ring, `isLocked`, the threads between lock and unlock, and those inside the
      waiting loop of `mutex_lock`. */
  datatype World = World(queue: seq<nat>, locked: bool, holders: set<nat>, waiting: set<nat>)

  /** `Lock` is one round of the loop of `mutex_lock`. */
  datatype Act = Move(step: Step) | Lock | Unlock

  predicate Possible(w: World, a: Act) {
    && w.queue != []
    && match a
       case Move(s) => Enabled(w.queue, s) && w.queue[0] !in w.waiting
       case Lock => true
       case Unlock => w.queue[0] !in w.waiting
  }

  function Perform(w: World, a: Act): World
    requires Possible(w, a)
  {
    var me := w.queue[0];
    match a
    case Move(s) => w.(queue := Advance(w.queue, s))
    case Lock =>
      if w.locked then w.(queue := Advance(w.queue, Yield), waiting := w.waiting + {me})
      else w.(locked := true, holders := w.holders + {me}, waiting := w.waiting - {me})
    case Unlock => w.(locked := false, holders := w.holders - {me})
  }

  /** Only a holder unlocks. */
  predicate Disciplined(w: World, a: Act) {
    Possible(w, a) && (a.Unlock? ==> w.queue[0] in w.holders)
  }

  predicate Exclusive(w: World) {
    (w.locked <==> w.holders != {}) && forall a, b | a in w.holders && b in w.holders :: a == b
  }

  /** A run in which only holders unlock: what it sees between its acts. */
  ghost predicate History(ws: seq<World>, acts: seq<Act>) {
    |ws| == |acts| + 1 && forall k | 0 <= k < |acts| :: Follows(ws[k], acts[k], ws[k + 1])
  }

  predicate Follows(w: World, a: Act, w': World) {
    Disciplined(w, a) && w' == Perform(w, a)
  }

  /** Over every such run the mutex never has two holders, and it is locked exactly while
      it has one.  A round of the lock loop makes the running thread the holder when the
      mutex is open, and otherwise passes control on; an unlock leaves no holder. */
  lemma {:induction false} MutualExclusion(ws: seq<World>, acts: seq<Act>, k: nat)
    requires History(ws, acts) && Exclusive(ws[0]) && k <= |acts|
    ensures Exclusive(ws[k]) && |ws[k].holders| <= 1
    ensures k < |acts| ==> ws[k].queue != []
    ensures k < |acts| ==>
              var me, w, next := ws[k].queue[0], ws[k], ws[k + 1];
              match acts[k]
              case Lock =>
                if w.locked then next.locked && next.holders == w.holders && next.queue == w.queue[1..] + [me]
                else next.locked && next.holders == {me} && next.queue == w.queue
              case Unlock => w.holders == {me} && !next.locked && next.holders == {} && next.queue == w.queue
              case Move(_) => next.locked == w.locked && next.holders == w.holders
    decreases k
  {
    hide Exclusive, Disciplined, Perform;
    if k > 0 {
      MutualExclusion(ws, acts, k - 1);
      assert Follows(ws[k - 1], acts[k - 1], ws[k]);
      ActKeepsExclusion(ws[k - 1], acts[k - 1]);
    }
    OneHolder(ws[k]);
    if k < |acts| {
      assert Follows(ws[k], acts[k], ws[k + 1]);
      ActIs(ws[k], acts[k]);
    }
  }

  lemma ActIs(w: World, a: Act)
    requires Exclusive(w) && Disciplined(w, a)
    ensures w.queue != []
    ensures var me, next := w.queue[0], Perform(w, a);
            match a
            case Lock =>
              if w.locked then next.locked && next.holders == w.holders && next.queue == w.queue[1..] + [me]
              else next.locked && next.holders == {me} && next.queue == w.queue
            case Unlock => w.holders == {me} && !next.locked && next.holders == {} && next.queue == w.queue
            case Move(_) => next.locked == w.locked && next.holders == w.holders
  {
    OneHolder(w);
  }

  lemma OneHolder(w: World)
    requires Exclusive(w)
    ensures |w.holders| <= 1
    ensures forall me | me in w.holders :: w.holders == {me}
    ensures !w.locked ==> w.holders == {}
  {
    if w.holders != {} {
      var me :| me in w.holders;
      assert w.holders == {me};
    }
  }

  lemma ActKeepsExclusion(w: World, a: Act)
    requires Exclusive(w) && Disciplined(w, a)
    ensures Exclusive(Perform(w, a))
  {
    OneHolder(w);
    var me := w.queue[0];
    if a.Lock? && !w.locked { assert me in Perform(w, a).holders; }
  }

  /** Between a round that takes the mutex and the unlock of the thread that took it, no
      round of any thread takes it. */
  lemma {:induction false} NoneTakenBetween(ws: seq<World>, acts: seq<Act>, i: nat, j: nat)
    requires History(ws, acts) && Exclusive(ws[0]) && i < j <= |acts|
    requires acts[i].Lock? && !ws[i].locked
    requires forall k | i < k < j :: !Releases(ws[k], acts[k], ws[i])
    ensures ws[i].queue != [] && ws[j].locked && ws[j].holders == {ws[i].queue[0]}
    decreases j
  {
    MutualExclusion(ws, acts, j - 1);
    MutualExclusion(ws, acts, i);
    if j - 1 > i {
      NoneTakenBetween(ws, acts, i, j - 1);
      assert !Releases(ws[j - 1], acts[j - 1], ws[i]);
    }
  }

  /** The thread that ran in `from` unlocks. */
  predicate Releases(w: World, a: Act, from: World) {
    a.Unlock? && w.queue != [] && from.queue != [] && w.queue[0] == from.queue[0]
  }

  predicate DisciplinedRun(w: World, acts: seq<Act>)
    decreases acts
  {
    acts == [] || (Disciplined(w, acts[0]) && DisciplinedRun(Perform(w, acts[0]), acts[1..]))
  }

  lemma FirstAct(w: World, acts: seq<Act>)
    requires acts != [] && DisciplinedRun(w, acts)
    ensures Possible(w, acts[0]) && Disciplined(w, acts[0]) && DisciplinedRun(Perform(w, acts[0]), acts[1..])
  {
  }

  /** One act on the pointers, and whether it took the mutex. */
  method Do(s: Scheduler, m: Mutex, a: Act) returns (taken: bool)
    requires s.Valid() && Possible(Seen(s, m), a)
    modifies s, s.links, m
    ensures s.Valid() && Seen(s, m) == Perform(old(Seen(s, m)), a)
    ensures taken <==> a.Lock? && !old(m.isLocked)
  {
    taken := false;
    match a {
      case Move(step) => s.Take(step);
      case Lock => taken := LockRound(s, m);
      case Unlock => Unlocks(s, m);
    }
  }

  /** Any such run, on the pointers: between two rounds that take the mutex, the thread of
      the first one has unlocked it. */
  method Play(s: Scheduler, m: Mutex, acts: seq<Act>) returns (taken: seq<bool>, ghost ws: seq<World>)
    requires s.Valid() && DisciplinedRun(Seen(s, m), acts) && Exclusive(Seen(s, m))
    modifies s, s.links, m
    ensures s.Valid() && History(ws, acts) && ws[0] == old(Seen(s, m)) && ws[|acts|] == Seen(s, m)
    ensures |taken| == |acts| && forall k | 0 <= k < |acts| :: taken[k] <==> acts[k].Lock? && !ws[k].locked
    ensures forall i, j | 0 <= i < j < |acts| && taken[i] && taken[j] ::
              exists k :: i < k < j && Releases(ws[k], acts[k], ws[i])
  {
    hide Perform, Disciplined, DisciplinedRun, Exclusive;
    taken, ws := [], [Seen(s, m)];
    var n := 0;
    assert acts[0..] == acts;
    while n < |acts|
      invariant n <= |acts| == n + |acts[n..]| && s.Valid() && DisciplinedRun(Seen(s, m), acts[n..])
      invariant |ws| == n + 1 && ws[0] == old(Seen(s, m)) && ws[n] == Seen(s, m)
      invariant forall k | 0 <= k < n :: Follows(ws[k], acts[k], ws[k + 1])
      invariant |taken| == n && forall k | 0 <= k < n :: taken[k] <==> acts[k].Lock? && !ws[k].locked
    {
      FirstAct(Seen(s, m), acts[n..]);
      assert acts[n..][0] == acts[n] && acts[n..][1..] == acts[n + 1..];
      var t := Do(s, m, acts[n]);
      taken, ws, n := taken + [t], ws + [Seen(s, m)], n + 1;
    }
    ReleasedBetween(ws, acts, taken);
  }

  lemma ReleasedBetween(ws: seq<World>, acts: seq<Act>, taken: seq<bool>)
    requires History(ws, acts) && Exclusive(ws[0]) && |taken| == |acts|
    requires forall k | 0 <= k < |acts| :: taken[k] <==> acts[k].Lock? && !ws[k].locked
    ensures forall i, j | 0 <= i < j < |acts| && taken[i] && taken[j] ::
              exists k :: i < k < j && Releases(ws[k], acts[k], ws[i])
  {
    hide Exclusive, Follows;
    forall i, j | 0 <= i < j < |acts| && taken[i] && taken[j]
      ensures exists k :: i < k < j && Releases(ws[k], acts[k], ws[i])
    {
      if forall k | i < k < j :: !Releases(ws[k], acts[k], ws[i]) {
        NoneTakenBetween(ws, acts, i, j);
      }
    }
  }

  /** One unlock keeps exclusion exactly when it comes from the holder, or when nobody
      holds the mutex: otherwise the mutex is open while it is still held. */
  lemma UnlockKeepsExclusion(w: World)
    requires Exclusive(w) && Possible(w, Unlock)
    ensures Exclusive(Perform(w, Unlock)) <==> w.queue[0] in w.holders || w.holders == {}
  {
    var me, next := w.queue[0], Perform(w, Unlock);
    if me in w.holders {
      assert next.holders == {};
    } else {
      assert next.holders == w.holders;
    }
  }
}
