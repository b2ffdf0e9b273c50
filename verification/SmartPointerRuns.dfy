/** What holds in every state of every run, over any number of threads. */
module SmartPointerRuns {
  import opened RefCounter
  import opened SmartPointers
  import opened SmartPointerSafety
  import opened Wrappers

  /** Threads, all idle, and nothing on the heap. */
  ghost predicate Init(s: State) {
    && s.counters == map[] && s.objects == map[] && s.handles == map[] && s.registered == map[]
    && forall t :: t in s.threads ==> s.threads[t].Idle?
  }

  ghost predicate StepTo(s: State, e: Event, s': State) {
    Enabled(s, e) && Ready(s, s.threads[e.t]) && s' == Next(s, e)
  }

  ghost predicate StepAt(states: seq<State>, events: seq<Event>, i: nat)
    requires i < |events| && |states| == |events| + 1
  {
    StepTo(states[i], events[i], states[i + 1])
  }

  /** A run from an initial state: states[i] steps to states[i + 1] by events[i]. */
  ghost predicate Run(states: seq<State>, events: seq<Event>) {
    && |states| == |events| + 1 && Init(states[0])
    && forall i {:trigger StepAt(states, events, i)} :: 0 <= i < |events| ==> StepAt(states, events, i)
  }

  lemma InitIsInv(s: State)
    requires Init(s)
    ensures Inv(s)
  {}

  /** Every state of a run satisfies the invariant. */
  lemma {:induction false} RunKeepsInv(states: seq<State>, events: seq<Event>, i: nat)
    requires Run(states, events) && i < |states|
    ensures Inv(states[i])
    decreases i
  {
    hide Inv, Next, Ready, Init;
    if i == 0 {
      InitIsInv(states[0]);
    } else {
      RunKeepsInv(states, events, i - 1);
      assert StepAt(states, events, i - 1);
      NextKeeps(states[i - 1], events[i - 1]);
    }
  }

  /** A run never gets stuck on a missing handle or heap cell: whatever callers may do next is defined. */
  lemma RunCanContinue(states: seq<State>, events: seq<Event>, e: Event)
    requires Run(states, events) && Enabled(states[|events|], e)
    ensures Ready(states[|events|], states[|events|].threads[e.t])
  {
    hide Inv, Next, Ready, Init, Run;
    assert |states| == |events| + 1 by { RunLength(states, events); }
    RunKeepsInv(states, events, |events|);
    NextKeeps(states[|events|], e);
  }

  lemma RunLength(states: seq<State>, events: seq<Event>)
    requires Run(states, events)
    ensures |states| == |events| + 1
  {}

  ghost predicate Quiet(s: State) {
    forall t :: t in s.threads ==> s.threads[t].Idle?
  }

  /** The handles of a kind whose m_pRefCount is c. */
  ghost function PointingTo(s: State, c: nat, kind: Kind): set<nat> {
    set h | h in s.handles && s.handles[h].kind == kind && s.handles[h].ref == Some(c)
  }

  /** The counts are the numbers of registered handles at all times, of pointing handles between operations. */
  lemma CountsAreHandles(s: State, c: nat)
    requires Inv(s) && c in s.counters
    ensures s.counters[c].count.active == |Counted(s.registered, c, Active)|
    ensures s.counters[c].count.inactive == |Counted(s.registered, c, Inactive)|
    ensures Quiet(s) ==> s.counters[c].count.active == |PointingTo(s, c, Active)|
    ensures Quiet(s) ==> s.counters[c].count.inactive == |PointingTo(s, c, Inactive)|
  {
    hide Tasks, Heap, PendingOk;
    if Quiet(s) {
      QuietCounted(s, c, Active);
      QuietCounted(s, c, Inactive);
    }
  }

  lemma QuietCounted(s: State, c: nat, kind: Kind)
    requires Handles(s) && Quiet(s)
    ensures Counted(s.registered, c, kind) == PointingTo(s, c, kind)
  {
    forall h ensures h in Counted(s.registered, c, kind) <==> h in PointingTo(s, c, kind) {
      if h in s.handles {
        assert !Written(s, h);
        assert AtRest(s, h);
      }
    }
  }

  /** The object lives exactly as long as some active reference, the counter as long as any. */
  lemma LifetimesFollowCounts(s: State, c: nat)
    requires Inv(s) && c in s.counters
    ensures s.counters[c].obj in s.objects
    ensures var cell := s.counters[c];
            && s.objects[cell.obj] <= 1 && cell.frees <= 1
            && (cell.count.active > 0 ==> s.objects[cell.obj] == 0)
            && (!ShouldBeDeleted(cell.count) ==> cell.frees == 0)
            && (Quiet(s) ==> (s.objects[cell.obj] == 1 <==> cell.count.active == 0))
            && (Quiet(s) ==> (cell.frees == 1 <==> ShouldBeDeleted(cell.count)))
  {
    assert PendingAt(s, c);
    if Quiet(s) {
      assert Deleters(s.threads, c) == {} && Freers(s.threads, c) == {};
    }
  }

  /** A Ptr that no thread is writing is NULL or points to a live object, also when it was promoted. */
  lemma PtrIsNullOrLive(s: State, h: nat)
    requires Inv(s) && h in s.handles && s.handles[h].kind == Active && !Written(s, h)
    ensures s.handles[h].raw.Some? ==> s.handles[h].raw.value in s.objects && s.objects[s.handles[h].raw.value] == 0
    ensures s.handles[h].raw.Some? <==> s.handles[h].ref.Some?
  {
    assert AtRest(s, h);
    if s.handles[h].ref.Some? {
      var c := s.handles[h].ref.value;
      HeldIsCounted(s, h, c);
      LifetimesFollowCounts(s, c);
    }
  }

  /** No statement uses a freed counter, deletes a deleted object or frees a freed counter. */
  lemma NoUseAfterFree(s: State, t: nat)
    requires Inv(s) && t in s.threads && Ready(s, s.threads[t])
    ensures var k := s.threads[t];
            && (k.AtAdjust? || k.AtSubtract? || k.AtFree? ==> s.counters[s.handles[k.h].ref.value].frees == 0)
            && (k.AtDelete? ==> s.objects[s.handles[k.h].raw.value] == 0)
  {
    var k := s.threads[t];
    if k.AtAdjust? {
      SourceIsHeld(s, t);
      HeldIsCounted(s, k.src.value, s.handles[k.h].ref.value);
    } else if !k.Idle? {
      Owns(s, t);
      hide Tasks, Handles, CountsOk, Exclusive;
      if k.AtSubtract? {
        HeldIsCounted(s, k.h, s.handles[k.h].ref.value);
      } else if k.AtDelete? || k.AtFree? {
        PendingIsUnique(s, t, k.counter);
      }
    }
  }

  /** A step never brings an object's active count back from zero. */
  lemma DeadStaysDead(s: State, e: Event, s': State, c: nat)
    requires StepTo(s, e, s') && c in s.counters && s.counters[c].count.active == 0
    ensures c in s'.counters && s'.counters[c].count.active == 0
    ensures s'.counters[c].obj == s.counters[c].obj
  {
    hide Busy, Written;
    if e.Continue? {
      DeadStaysDeadInside(s, e.t, s.threads[e.t], e.counter, c);
    }
  }

  lemma DeadStaysDeadInside(s: State, t: nat, k: Task, counter: nat, c: nat)
    requires Ready(s, k) && c in s.counters && s.counters[c].count.active == 0
    requires k.AtStore? && k.after.Wrap? && k.after.obj.Some? ==> counter != c
    ensures var s' := Run1(s, t, k, counter);
            c in s'.counters && s'.counters[c].count.active == 0 && s'.counters[c].obj == s.counters[c].obj
  {
    match k
    case AtAdjust(_, _) => hide AfterReset;
    case AtSubtract(_, _, _) => hide AfterReset;
    case AtDelete(_, _, _, _, _) => hide AfterReset;
    case AtFree(_, _, _, _) => hide AfterReset;
    case _ =>
  }

  /** Over a whole run: once dead, dead in every later state. */
  lemma {:induction false} DeadForever(states: seq<State>, events: seq<Event>, i: nat, j: nat, c: nat)
    requires Run(states, events) && i <= j < |states|
    requires c in states[i].counters && states[i].counters[c].count.active == 0
    ensures c in states[j].counters && states[j].counters[c].count.active == 0
    decreases j
  {
    if i < j {
      hide StepTo, Init;
      assert StepAt(states, events, j - 1);
      DeadForever(states, events, i, j - 1, c);
      DeadStaysDead(states[j - 1], events[j - 1], states[j], c);
    }
  }

  /** When every handle is NULL and no operation is under way, everything has been released exactly once. */
  lemma NothingLeaks(s: State)
    requires Inv(s) && Quiet(s) && forall h :: h in s.handles ==> s.handles[h].ref == None
    ensures forall c :: c in s.counters ==> s.counters[c].frees == 1
    ensures forall c :: c in s.counters ==> s.counters[c].obj in s.objects && s.objects[s.counters[c].obj] == 1
  {
    forall c | c in s.counters
      ensures s.counters[c].frees == 1 && s.counters[c].obj in s.objects && s.objects[s.counters[c].obj] == 1
    {
      CountsAreHandles(s, c);
      LifetimesFollowCounts(s, c);
      assert PointingTo(s, c, Active) == {} && PointingTo(s, c, Inactive) == {};
    }
  }
}
