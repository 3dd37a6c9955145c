/**
 The reader-writer latch (src/common/rwlatch.cpp) as a state machine.

 The mutex makes everything between two waits one atomic step, so a step is:
 a call up to the point where it waits or returns, a thread that was woken
 running its wait loop once more, or a sleeper leaving a condition variable
 without having been notified.  `notify_one` wakes whichever sleeper the
 schedule picks.  Threads are numbered, and each has at most one call or one
 latch at a time.
 */
module Latch {
  import opened Sets

  /**
   Where a thread stands.  `asleep` threads are inside `wait`; the others of
   the same place have been woken and are about to test their condition.
   */
  datatype Place =
    | Outside
    | WantsWrite(asleep: bool)   // WLock, first loop, waits on reader_
    | Draining(asleep: bool)     // WLock, second loop, waits on writer_
    | Writing
    | WantsRead(asleep: bool)    // RLock, waits on reader_
    | Reading

  /**
   `max` is the reader limit MAX_READERS, which is also the largest value of
   the unsigned counter.
   */
  datatype State = State(max: nat, readers: nat, entered: bool, at: seq<Place>)

  datatype Event =
    | WLock(t: nat)
    | WUnlock(t: nat)
    | RLock(t: nat)
    | RUnlock(t: nat, picked: nat)
    | Resume(t: nat)
    | Spurious(t: nat)

  const MAX_READERS: nat := 0xFFFF_FFFF

  /** The unsigned counter wraps around at both ends. */
  function Incremented(s: State): nat { if s.readers == s.max then 0 else s.readers + 1 }
  function Decremented(s: State): nat { if s.readers == 0 then s.max else s.readers - 1 }

  predicate SleepsOnReader(p: Place) { p == WantsWrite(true) || p == WantsRead(true) }
  predicate SleepsOnWriter(p: Place) { p == Draining(true) }
  predicate Asleep(p: Place) { SleepsOnReader(p) || SleepsOnWriter(p) }
  predicate Runnable(p: Place) { p == WantsWrite(false) || p == WantsRead(false) || p == Draining(false) }
  predicate Holds(p: Place) { p == Writing || p == Reading }

  function Woken(p: Place): (q: Place)
    ensures !Asleep(q)
    ensures !Asleep(p) ==> q == p
    ensures Asleep(p) ==> Runnable(q)
  {
    match p
    case WantsWrite(_) => WantsWrite(false)
    case Draining(_) => Draining(false)
    case WantsRead(_) => WantsRead(false)
    case _ => p
  }

  /** notify_all on reader_ */
  function WakeReaders(at: seq<Place>): (r: seq<Place>)
    ensures |r| == |at|
    ensures forall t :: 0 <= t < |at| ==> r[t] == if SleepsOnReader(at[t]) then Woken(at[t]) else at[t]
  {
    seq(|at|, t requires 0 <= t < |at| => if SleepsOnReader(at[t]) then Woken(at[t]) else at[t])
  }

  /**
   What notify_one may pick: a sleeper of that condition variable when there
   is one; nobody otherwise.
   */
  predicate MayPick(at: seq<Place>, picked: nat, sleeps: Place -> bool)
  {
    (exists t :: 0 <= t < |at| && sleeps(at[t])) ==> picked < |at| && sleeps(at[picked])
  }

  function Notified(at: seq<Place>, picked: nat, sleeps: Place -> bool): (r: seq<Place>)
    ensures |r| == |at|
  {
    if picked < |at| && sleeps(at[picked]) then at[picked := Woken(at[picked])] else at
  }

  predicate Enabled(s: State, e: Event)
  {
    e.t < |s.at| &&
    match e
    case WLock(t) => s.at[t] == Outside
    case RLock(t) => s.at[t] == Outside
    case WUnlock(t) => s.at[t] == Writing
    case RUnlock(t, picked) =>
      s.at[t] == Reading &&
      MayPick(s.at, picked, if s.entered then SleepsOnWriter else SleepsOnReader)
    case Resume(t) => Runnable(s.at[t])
    case Spurious(t) => Asleep(s.at[t])
  }

  /** One pass of WLock's second loop. */
  function Drain(s: State, t: nat): State
    requires t < |s.at|
  {
    s.(at := s.at[t := if s.readers > 0 then Draining(true) else Writing])
  }

  /** One pass of WLock from its first loop. */
  function EnterWrite(s: State, t: nat): State
    requires t < |s.at|
  {
    if s.entered then s.(at := s.at[t := WantsWrite(true)]) else Drain(s.(entered := true), t)
  }

  /** One pass of RLock. */
  function EnterRead(s: State, t: nat): State
    requires t < |s.at|
  {
    if s.entered || s.readers == s.max then s.(at := s.at[t := WantsRead(true)])
    else s.(readers := Incremented(s), at := s.at[t := Reading])
  }

  function LeaveRead(s: State, t: nat, picked: nat): State
    requires t < |s.at|
  {
    var left := s.(readers := Decremented(s), at := s.at[t := Outside]);
    if s.entered then
      if left.readers == 0 then left.(at := Notified(left.at, picked, SleepsOnWriter)) else left
    else
      if left.readers == s.max - 1 then left.(at := Notified(left.at, picked, SleepsOnReader)) else left
  }

  function Next(s: State, e: Event): State
    requires Enabled(s, e)
  {
    match e
    case WLock(t) => EnterWrite(s, t)
    case RLock(t) => EnterRead(s, t)
    case WUnlock(t) => s.(entered := false, at := WakeReaders(s.at[t := Outside]))
    case RUnlock(t, picked) => LeaveRead(s, t, picked)
    case Spurious(t) => s.(at := s.at[t := Woken(s.at[t])])
    case Resume(t) =>
      if s.at[t].WantsWrite? then EnterWrite(s, t)
      else if s.at[t].WantsRead? then EnterRead(s, t)
      else Drain(s, t)
  }

  predicate Legal(s: State, run: seq<Event>)
    decreases |run|
  {
    run == [] || (Enabled(s, run[0]) && Legal(Next(s, run[0]), run[1..]))
  }

  function After(s: State, run: seq<Event>): State
    requires Legal(s, run)
    decreases |run|
  {
    if run == [] then s else After(Next(s, run[0]), run[1..])
  }

  function Fresh(n: nat, max: nat): (s: State)
    ensures s.at == seq(n, _ => Outside)
  {
    State(max, 0, false, seq(n, _ => Outside))
  }

  // ---------------------------------------------------------------- mutual exclusion

  ghost function ReadersOf(at: seq<Place>): set<nat> { set t | 0 <= t < |at| && at[t] == Reading }

  predicate InWriterRole(p: Place) { p.Draining? || p == Writing }

  /** Whoever set writer_entered_ is the only thread in WLock's second half. */
  ghost predicate OneWriter(s: State)
  {
    && (forall t :: 0 <= t < |s.at| && InWriterRole(s.at[t]) ==> s.entered)
    && (s.entered ==> exists t :: 0 <= t < |s.at| && InWriterRole(s.at[t]))
    && (forall t, u :: 0 <= t < |s.at| && 0 <= u < |s.at| && InWriterRole(s.at[t]) && InWriterRole(s.at[u]) ==> t == u)
  }

  ghost predicate Ok(s: State)
  {
    && s.readers == |ReadersOf(s.at)| <= s.max
    && OneWriter(s)
    && (forall t :: 0 <= t < |s.at| && s.at[t] == Writing ==> s.readers == 0)
  }

  lemma Moved(at: seq<Place>, t: nat, p: Place)
    requires t < |at|
    ensures p == Reading ==> ReadersOf(at[t := p]) == ReadersOf(at) + {t}
    ensures p != Reading ==> ReadersOf(at[t := p]) == ReadersOf(at) - {t}
  {
  }

  lemma WakingMovesNobody(at: seq<Place>, picked: nat, sleeps: Place -> bool)
    requires forall p :: sleeps(p) ==> Asleep(p)
    ensures ReadersOf(WakeReaders(at)) == ReadersOf(at)
    ensures ReadersOf(Notified(at, picked, sleeps)) == ReadersOf(at)
  {
  }

  /** A thread outside the writer's role that stays outside it changes nothing for OneWriter. */
  lemma WriterUntouched(s: State, r: State, t: nat)
    requires OneWriter(s) && t < |s.at| == |r.at| && r.entered == s.entered
    requires forall u :: 0 <= u < |s.at| ==> (InWriterRole(r.at[u]) <==> InWriterRole(s.at[u]))
    ensures OneWriter(r)
  {
  }

  lemma EnterReadOk(s: State, t: nat)
    requires Ok(s) && t < |s.at| && (s.at[t] == Outside || s.at[t] == WantsRead(false))
    ensures Ok(EnterRead(s, t))
  {
    Moved(s.at, t, WantsRead(true));
    Moved(s.at, t, Reading);
    assert t !in ReadersOf(s.at);
    WriterUntouched(s, EnterRead(s, t), t);
  }

  lemma DrainOk(s: State, t: nat)
    requires Ok(s) && t < |s.at| && s.at[t] == Draining(false)
    ensures Ok(Drain(s, t))
  {
    Moved(s.at, t, Writing);
    Moved(s.at, t, Draining(true));
    assert t !in ReadersOf(s.at);
    assert InWriterRole(s.at[t]) && InWriterRole(Drain(s, t).at[t]);
  }

  lemma EnterWriteOk(s: State, t: nat)
    requires Ok(s) && t < |s.at| && (s.at[t] == Outside || s.at[t] == WantsWrite(false))
    ensures Ok(EnterWrite(s, t))
  {
    Moved(s.at, t, WantsWrite(true));
    Moved(s.at, t, Draining(true));
    Moved(s.at, t, Writing);
    assert t !in ReadersOf(s.at);
    if s.entered {
      var u :| 0 <= u < |s.at| && InWriterRole(s.at[u]);
      assert InWriterRole(EnterWrite(s, t).at[u]);
    } else {
      assert InWriterRole(EnterWrite(s, t).at[t]);
    }
  }

  lemma LeaveReadOk(s: State, t: nat, picked: nat)
    requires Ok(s) && t < |s.at| && s.at[t] == Reading
    ensures Ok(LeaveRead(s, t, picked))
  {
    var at := s.at[t := Outside];
    Moved(s.at, t, Outside);
    assert t in ReadersOf(s.at);
    WakingMovesNobody(at, picked, SleepsOnReader);
    WakingMovesNobody(at, picked, SleepsOnWriter);
    var r := LeaveRead(s, t, picked);
    assert forall u :: 0 <= u < |s.at| ==> (InWriterRole(r.at[u]) <==> InWriterRole(s.at[u]));
    assert forall u :: 0 <= u < |s.at| && r.at[u] == Writing ==> s.at[u] == Writing;
  }

  lemma WUnlockOk(s: State, t: nat)
    requires Ok(s) && Enabled(s, WUnlock(t))
    ensures Ok(Next(s, WUnlock(t)))
  {
    var at := s.at[t := Outside];
    Moved(s.at, t, Outside);
    WakingMovesNobody(at, 0, SleepsOnReader);
    var r := Next(s, WUnlock(t));
    assert forall u :: 0 <= u < |s.at| ==> (InWriterRole(r.at[u]) <==> u != t && InWriterRole(s.at[u]));
  }

  lemma SpuriousOk(s: State, t: nat)
    requires Ok(s) && Enabled(s, Spurious(t))
    ensures Ok(Next(s, Spurious(t)))
  {
    Moved(s.at, t, Woken(s.at[t]));
    assert t !in ReadersOf(s.at);
    var r := Next(s, Spurious(t));
    assert forall u :: 0 <= u < |s.at| ==> (InWriterRole(r.at[u]) <==> InWriterRole(s.at[u]));
  }

  lemma StepOk(s: State, e: Event)
    requires Ok(s) && Enabled(s, e)
    ensures Ok(Next(s, e))
  {
    match e
    case WLock(t) => EnterWriteOk(s, t);
    case RLock(t) => EnterReadOk(s, t);
    case WUnlock(t) => WUnlockOk(s, t);
    case RUnlock(t, picked) => LeaveReadOk(s, t, picked);
    case Spurious(t) => SpuriousOk(s, t);
    case Resume(t) =>
      if s.at[t].WantsWrite? { EnterWriteOk(s, t); }
      else if s.at[t].WantsRead? { EnterReadOk(s, t); }
      else { DrainOk(s, t); }
  }

  lemma {:induction false} RunOk(s: State, run: seq<Event>)
    requires Ok(s) && Legal(s, run)
    ensures Ok(After(s, run))
    decreases |run|
  {
    if run != [] {
      StepOk(s, run[0]);
      RunOk(Next(s, run[0]), run[1..]);
    }
  }

  lemma FreshOk(n: nat, max: nat)
    ensures Ok(Fresh(n, max))
  {
    assert ReadersOf(Fresh(n, max).at) == {};
  }

  /** In every interleaving of any number of threads a holding writer is alone. */
  lemma MutualExclusion(n: nat, max: nat, run: seq<Event>, t: nat, u: nat)
    requires Legal(Fresh(n, max), run)
    requires var s := After(Fresh(n, max), run); t < |s.at| && u < |s.at| && t != u && s.at[t] == Writing
    ensures !Holds(After(Fresh(n, max), run).at[u])
  {
    FreshOk(n, max);
    RunOk(Fresh(n, max), run);
    var s := After(Fresh(n, max), run);
    assert s.readers == 0 && ReadersOf(s.at) == {};
    assert u !in ReadersOf(s.at);
    assert InWriterRole(s.at[t]) && !InWriterRole(s.at[u]);
  }

  /**
   From the moment a writer announces itself until it unlocks, no thread
   becomes a reader: the writer waits only for readers that were there first.
   */
  lemma WriterWaitsOnlyForEarlierReaders(s: State, e: Event)
    requires Ok(s) && Enabled(s, e) && s.entered
    ensures ReadersOf(Next(s, e).at) <= ReadersOf(s.at)
    ensures Next(s, e).readers <= s.readers
    ensures !Next(s, e).entered ==> e.WUnlock? && s.at[e.t] == Writing
  {
    StepOk(s, e);
    var a, b := ReadersOf(Next(s, e).at), ReadersOf(s.at);
    assert a <= b;
    SubsetSize(a, b);
  }

  // ---------------------------------------------------------------- wakeups

  /** The condition of the wait loop a thread is in. */
  predicate MustWait(s: State, p: Place)
  {
    match p
    case WantsWrite(_) => s.entered
    case WantsRead(_) => s.entered || s.readers == s.max
    case Draining(_) => s.readers > 0
    case _ => false
  }

  /** No sleeper has missed the change it was waiting for. */
  ghost predicate NoneForgotten(s: State)
  {
    forall t :: 0 <= t < |s.at| && Asleep(s.at[t]) ==> MustWait(s, s.at[t])
  }

  /** When all but one thread hold the latch for reading, one sleeper at most is left. */
  lemma LoneSleeper(s: State, t: nat, u: nat)
    requires Ok(s) && |s.at| <= s.max + 1 && s.readers == s.max
    requires t < |s.at| && u < |s.at| && Asleep(s.at[t]) && Asleep(s.at[u])
    ensures t == u
  {
    var rs := ReadersOf(s.at);
    if t != u {
      assert t !in rs && u !in rs;
      assert |rs + {t, u}| == s.max + 2;
      SubsetSize(rs + {t, u}, Below(|s.at|));
    }
  }

  lemma ReaderLeavesNoneForgotten(s: State, t: nat, picked: nat)
    requires Ok(s) && NoneForgotten(s) && |s.at| <= s.max + 1 && Enabled(s, RUnlock(t, picked))
    ensures NoneForgotten(Next(s, RUnlock(t, picked)))
  {
    assert t in ReadersOf(s.at);
    assert s.readers > 0;
    var r := Next(s, RUnlock(t, picked));
    forall u | 0 <= u < |s.at| && SleepsOnWriter(s.at[u]) ensures u == picked {
      assert InWriterRole(s.at[u]);
      assert SleepsOnWriter(s.at[picked]) && InWriterRole(s.at[picked]);
    }
    forall u | 0 <= u < |s.at| && Asleep(r.at[u])
      ensures MustWait(r, r.at[u])
    {
      assert r.at[u] == s.at[u] && u != t;
      assert InWriterRole(s.at[u]) <==> SleepsOnWriter(s.at[u]);
      if !s.entered {
        assert SleepsOnReader(s.at[u]) && SleepsOnReader(s.at[picked]);
        LoneSleeper(s, u, picked);
      }
    }
  }

  lemma StepForgetsNobody(s: State, e: Event)
    requires Ok(s) && NoneForgotten(s) && |s.at| <= s.max + 1 && Enabled(s, e)
    ensures NoneForgotten(Next(s, e))
  {
    if e.RUnlock? {
      ReaderLeavesNoneForgotten(s, e.t, e.picked);
    } else if e.WUnlock? {
      assert forall u :: 0 <= u < |s.at| && u != e.t ==> !InWriterRole(s.at[u]) by {
        assert InWriterRole(s.at[e.t]);
      }
      assert forall u :: 0 <= u < |s.at| && SleepsOnWriter(s.at[u]) ==> InWriterRole(s.at[u]);
    }
  }

  lemma {:induction false} RunForgetsNobody(s: State, run: seq<Event>)
    requires Ok(s) && NoneForgotten(s) && |s.at| <= s.max + 1 && Legal(s, run)
    ensures NoneForgotten(After(s, run)) && Ok(After(s, run)) && After(s, run).max == s.max
    decreases |run|
  {
    if run != [] {
      StepOk(s, run[0]);
      StepForgetsNobody(s, run[0]);
      RunForgetsNobody(Next(s, run[0]), run[1..]);
    }
  }

  /** Some thread sleeps although every other one has left. */
  ghost predicate Stuck(s: State)
  {
    && (exists t :: 0 <= t < |s.at| && Asleep(s.at[t]))
    && (forall t :: 0 <= t < |s.at| ==> !Holds(s.at[t]) && !Runnable(s.at[t]))
  }

  /** Behind every sleeper there is a thread that holds the latch or can run. */
  lemma SomeoneIsActive(s: State, t: nat) returns (u: nat)
    requires Ok(s) && NoneForgotten(s) && s.max > 0
    requires t < |s.at| && Asleep(s.at[t])
    ensures u < |s.at| && (Holds(s.at[u]) || Runnable(s.at[u]))
  {
    if s.readers > 0 {
      u := SomeElement(ReadersOf(s.at));
    } else {
      u :| 0 <= u < |s.at| && InWriterRole(s.at[u]);
    }
  }

  /** With at most one thread more than the reader limit no wakeup is ever lost. */
  lemma NoLostWakeup(n: nat, max: nat, run: seq<Event>)
    requires 0 < max && n <= max + 1
    requires Legal(Fresh(n, max), run)
    ensures NoneForgotten(After(Fresh(n, max), run))
    ensures !Stuck(After(Fresh(n, max), run))
  {
    FreshOk(n, max);
    RunForgetsNobody(Fresh(n, max), run);
    var s := After(Fresh(n, max), run);
    forall t | 0 <= t < |s.at| && Asleep(s.at[t]) ensures !Stuck(s) {
      var u := SomeoneIsActive(s, t);
    }
  }

  // ---------------------------------------------------------------- what happens above that bound

  lemma {:induction false} Chained(s: State, a: seq<Event>, b: seq<Event>)
    requires Legal(s, a) && Legal(After(s, a), b)
    ensures Legal(s, a + b) && After(s, a + b) == After(After(s, a), b)
    decreases |a|
  {
    if a == [] {
      assert a + b == b;
    } else {
      assert (a + b)[1..] == a[1..] + b;
      Chained(Next(s, a[0]), a[1..], b);
    }
  }

  lemma OneMore(s: State, a: seq<Event>, e: Event)
    requires Legal(s, a) && Enabled(After(s, a), e)
    ensures Legal(s, a + [e]) && After(s, a + [e]) == Next(After(s, a), e)
  {
    assert Legal(Next(After(s, a), e), [e][1..]);
    Chained(s, a, [e]);
  }

  /** Threads 0 to k - 1 read, nobody else is there. */
  function Crowd(n: nat, max: nat, k: nat): State {
    State(max, k, false, seq(n, t => if t < k then Reading else Outside))
  }

  lemma {:induction false} CrowdArrives(n: nat, max: nat, k: nat) returns (run: seq<Event>)
    requires k <= max && k <= n
    ensures Legal(Fresh(n, max), run) && After(Fresh(n, max), run) == Crowd(n, max, k)
  {
    if k == 0 {
      run := [];
      assert Fresh(n, max).at == Crowd(n, max, 0).at;
    } else {
      var before := CrowdArrives(n, max, k - 1);
      var c := Crowd(n, max, k - 1);
      OneMore(Fresh(n, max), before, RLock(k - 1));
      run := before + [RLock(k - 1)];
      assert Next(c, RLock(k - 1)).at == Crowd(n, max, k).at;
    }
  }

  /** Threads j to max read, thread max + 1 sleeps, and the others are gone. */
  function Leaving(n: nat, max: nat, j: nat): State
    requires j <= max + 1
  {
    State(max, max + 1 - j, false,
          seq(n, t => if j <= t <= max then Reading else if t == max + 1 then WantsRead(true) else Outside))
  }

  lemma {:induction false} CrowdLeaves(n: nat, max: nat, j: nat) returns (run: seq<Event>)
    requires 2 <= j <= max + 1 && max + 2 <= n
    ensures Legal(Leaving(n, max, j), run)
    ensures After(Leaving(n, max, j), run) == Leaving(n, max, max + 1)
    decreases max + 1 - j
  {
    if j == max + 1 {
      run := [];
    } else {
      var s, e := Leaving(n, max, j), RUnlock(j, max + 1);
      var rest := CrowdLeaves(n, max, j + 1);
      assert Next(s, e).at == Leaving(n, max, j + 1).at;
      run := [e] + rest;
    }
  }

  /**
   The crowd is full, two more readers fall asleep, and two readers leave
   before the one that was notified takes its place: the second departure
   does not step to max - 1, so the other sleeper is not notified.
   */
  lemma TwoLeaveAtOnce(n: nat, max: nat) returns (run: seq<Event>)
    requires 2 <= max && max + 2 <= n
    ensures Legal(Crowd(n, max, max), run)
    ensures After(Crowd(n, max, max), run) == Leaving(n, max, 2)
  {
    var s0 := Crowd(n, max, max);
    var s1 := Next(s0, RLock(max));
    var s2 := Next(s1, RLock(max + 1));
    var s3 := Next(s2, RUnlock(0, max));
    var s4 := Next(s3, RUnlock(1, max + 1));
    var s5 := Next(s4, Resume(max));
    assert s5.at == Leaving(n, max, 2).at;
    run := [RLock(max), RLock(max + 1), RUnlock(0, max), RUnlock(1, max + 1), Resume(max)];
    Steps5(s0, run, s1, s2, s3, s4, s5);
  }

  lemma Steps5(s0: State, run: seq<Event>, s1: State, s2: State, s3: State, s4: State, s5: State)
    requires |run| == 5
    requires Enabled(s0, run[0]) && s1 == Next(s0, run[0])
    requires Enabled(s1, run[1]) && s2 == Next(s1, run[1])
    requires Enabled(s2, run[2]) && s3 == Next(s2, run[2])
    requires Enabled(s3, run[3]) && s4 == Next(s3, run[3])
    requires Enabled(s4, run[4]) && s5 == Next(s4, run[4])
    ensures Legal(s0, run) && After(s0, run) == s5
  {
    assert Legal(s5, run[5..]) && After(s5, run[5..]) == s5;
    assert run[4..][1..] == run[5..] && Legal(s4, run[4..]) && After(s4, run[4..]) == s5;
    assert run[3..][1..] == run[4..] && Legal(s3, run[3..]) && After(s3, run[3..]) == s5;
    assert run[2..][1..] == run[3..] && Legal(s2, run[2..]) && After(s2, run[2..]) == s5;
    assert run[1..][1..] == run[2..] && Legal(s1, run[1..]) && After(s1, run[1..]) == s5;
  }

  lemma LostWakeup(n: nat, max: nat) returns (run: seq<Event>)
    requires 2 <= max && max + 2 <= n
    ensures Legal(Fresh(n, max), run) && Stuck(After(Fresh(n, max), run))
  {
    var a := CrowdArrives(n, max, max);
    var b := TwoLeaveAtOnce(n, max);
    var c := CrowdLeaves(n, max, 2);
    Chained(Fresh(n, max), a, b);
    Chained(Fresh(n, max), a + b, c);
    run := a + b + c;
    assert Asleep(After(Fresh(n, max), run).at[max + 1]);
  }

  ghost predicate CanGetStuck(n: nat, max: nat, run: seq<Event>) {
    Legal(Fresh(n, max), run) && Stuck(After(Fresh(n, max), run))
  }

  /**
   A thread can sleep forever with the latch free exactly when there are at
   least two threads more than the limit.
   */
  lemma SafeExactlyUpToOneExtraThread(n: nat, max: nat)
    requires 2 <= max
    ensures n > max + 1 <==> exists run: seq<Event> :: CanGetStuck(n, max, run)
  {
    if n <= max + 1 {
      forall run: seq<Event> | Legal(Fresh(n, max), run) ensures !CanGetStuck(n, max, run) {
        NoLostWakeup(n, max, run);
      }
    } else {
      var run := LostWakeup(n, max);
      assert CanGetStuck(n, max, run);
    }
  }

  // ---------------------------------------------------------------- the class

  /** Each method is one stretch of the code under the mutex, run by thread `t`. */
  class ReaderWriterLatch {
    const maxReaders: nat := MAX_READERS
    var readerCount: nat
    var writerEntered: bool
    // the threads in the two wait sets and around them
    var at: seq<Place>

    constructor (n: nat)
      ensures Now() == Fresh(n, MAX_READERS) && Ok(Now())
    {
      readerCount, writerEntered, at := 0, false, seq(n, _ => Outside);
      new;
      FreshOk(n, MAX_READERS);
    }

    function Now(): State
      reads this
    {
      State(maxReaders, readerCount, writerEntered, at)
    }

    /** Starts WLock, or takes another turn of its first loop after a wait. */
    method WLock(t: nat)
      requires Ok(Now())
      requires t < |at| && (at[t] == Outside || at[t] == WantsWrite(false))
      modifies this
      ensures Ok(Now())
      ensures Now() == old(Next(Now(), if at[t] == Outside then Event.WLock(t) else Resume(t)))
      ensures at == old(at)[t := if old(writerEntered) then WantsWrite(true) else if readerCount > 0 then Draining(true) else Writing]
      ensures writerEntered && readerCount == old(readerCount)
    {
      EnterWriteOk(Now(), t);
      if writerEntered {
        at := at[t := WantsWrite(true)];
        return;
      }
      writerEntered := true;
      if readerCount > 0 {
        at := at[t := Draining(true)];
        return;
      }
      at := at[t := Writing];
    }

    /** Another turn of WLock's second loop after a wait. */
    method ResumeDraining(t: nat)
      requires Ok(Now())
      requires t < |at| && at[t] == Draining(false)
      modifies this`at
      ensures Ok(Now())
      ensures Now() == old(Next(Now(), Resume(t)))
      ensures at == old(at)[t := if readerCount > 0 then Draining(true) else Writing]
    {
      DrainOk(Now(), t);
      if readerCount > 0 {
        at := at[t := Draining(true)];
        return;
      }
      at := at[t := Writing];
    }

    method WUnlock(t: nat)
      requires Ok(Now())
      requires t < |at| && at[t] == Writing
      modifies this`writerEntered, this`at
      ensures Ok(Now())
      ensures Now() == old(Next(Now(), Event.WUnlock(t)))
      ensures !writerEntered && |at| == |old(at)| && at[t] == Outside
      ensures forall u :: 0 <= u < |at| && u != t ==>
                at[u] == match old(at)[u] case WantsWrite(_) => WantsWrite(false) case WantsRead(_) => WantsRead(false) case p => p
    {
      WUnlockOk(Now(), t);
      writerEntered := false;
      at := WakeReaders(at[t := Outside]);
    }

    /** Starts RLock, or takes another turn of its loop after a wait. */
    method RLock(t: nat)
      requires Ok(Now())
      requires t < |at| && (at[t] == Outside || at[t] == WantsRead(false))
      modifies this`readerCount, this`at
      ensures Ok(Now())
      ensures Now() == old(Next(Now(), if at[t] == Outside then Event.RLock(t) else Resume(t)))
      ensures var wait := writerEntered || old(readerCount) == maxReaders;
              && at == old(at)[t := if wait then WantsRead(true) else Reading]
              && readerCount == if wait then old(readerCount) else old(readerCount) + 1
    {
      EnterReadOk(Now(), t);
      if writerEntered || readerCount == maxReaders {
        at := at[t := WantsRead(true)];
        return;
      }
      readerCount := Incremented(Now());
      at := at[t := Reading];
    }

    method RUnlock(t: nat, picked: nat)
      requires Ok(Now())
      requires Enabled(Now(), Event.RUnlock(t, picked))
      modifies this`readerCount, this`at
      ensures Ok(Now())
      ensures Now() == old(Next(Now(), Event.RUnlock(t, picked)))
      ensures readerCount == old(readerCount) - 1
      ensures var left := old(at)[t := Outside];
              at == if picked >= |left| then left
                    else match left[picked]
                    case Draining(true) => if writerEntered && readerCount == 0 then left[picked := Draining(false)] else left
                    case WantsWrite(true) => if !writerEntered && readerCount == maxReaders - 1 then left[picked := WantsWrite(false)] else left
                    case WantsRead(true) => if !writerEntered && readerCount == maxReaders - 1 then left[picked := WantsRead(false)] else left
                    case _ => left
    {
      LeaveReadOk(Now(), t, picked);
      assert t in ReadersOf(at);
      at := at[t := Outside];
      readerCount := Decremented(Now());
      if writerEntered {
        if readerCount == 0 {
          at := Notified(at, picked, SleepsOnWriter);
        }
      } else {
        if readerCount == maxReaders - 1 {
          at := Notified(at, picked, SleepsOnReader);
        }
      }
    }
  }
}
