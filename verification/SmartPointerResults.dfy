/** What each handle operation has done once its thread is idle again, whatever the other threads did meanwhile. */
module SmartPointerResults {
  import opened RefCounter
  import opened SmartPointers
  import opened SmartPointerSafety
  import opened SmartPointerRuns
  import opened Wrappers

  ghost predicate Working(s: State, t: nat) {
    t in s.threads && !s.threads[t].Idle?
  }

  /** The operation that t starts at states[i] is over at states[j] and not before. */
  ghost predicate Operation(states: seq<State>, t: nat, i: nat, j: nat) {
    && i < j < |states|
    && (forall m :: i < m < j ==> Working(states[m], t))
    && t in states[j].threads && states[j].threads[t].Idle?
  }

  /** The next step of t at states[k] is the counter call that registers h with counter c. */
  ghost predicate CallsCounter(s: State, e: Event, t: nat, h: nat, c: nat) {
    && Working(s, t) && s.threads[t].AtAdjust? && s.threads[t].h == h && e.t == t
    && h in s.handles && s.handles[h].ref == Some(c) && c in s.counters
  }

  /** h points to o through a counter that was not there before, and is its one handle. */
  ghost predicate Wrapped(s: State, s': State, h: nat, o: nat) {
    && h in s'.handles && s'.handles[h].ref.Some?
    && var c := s'.handles[h].ref.value;
       && c !in s.counters && Held(s', h, c) && s'.handles[h].raw == Some(o)
       && s'.counters[c].count.active == 1 && s'.counters[c].count.inactive == 0
       && o in s'.objects && s'.objects[o] == 0
  }

  // ---------------------------------------------------------------- one step

  /** What t's operation is about to do with its handle. */
  ghost function Doing(s: State, k: Task): After
    requires !k.Idle? && k.h in s.handles
  {
    match k
    case AtAdjust(h, _) => Store(s.handles[h].raw, s.handles[h].ref)
    case AtNull(_, _) => Finish
    case _ => k.after
  }

  lemma WorkingHas(s: State, t: nat)
    requires Inv(s) && Working(s, t)
    ensures TaskOk(s, s.threads[t]) && s.threads[t].h in s.handles
  {
    hide Heap, CountsOk, PendingOk, Handles, Apart;
  }

  /** Nothing but handle h and t's own task differs, as far as handles and threads go. */
  ghost predicate Touches(s: State, s': State, t: nat, h: nat) {
    && t in s'.threads && s'.threads == s.threads[t := s'.threads[t]]
    && forall x :: x in s.handles && x != h ==> x in s'.handles && s'.handles[x] == s.handles[x]
  }

  lemma ResetTouches(s: State, t: nat, h: nat, after: After, src: Option<nat>)
    requires h in s.handles && t in s.threads
    ensures Touches(s, StartReset(s, t, h, after, src), t, h) && Touches(s, AfterReset(s, t, h, after, src), t, h)
  {}

  lemma ContinueTouches(s: State, t: nat, k: Task, counter: nat)
    requires t in s.threads && !k.Idle? && Ready(s, k)
    ensures Touches(s, Run1(s, t, k, counter), t, k.h)
  {
    if k.AtClear? { ResetTouches(Fields(s, k.h, None, None), t, k.h, k.after, k.src); }
    hide AfterReset;
  }

  lemma StartTouches(s: State, e: Event)
    requires Enabled(s, e) && !e.Continue? && Ready(s, s.threads[e.t])
    ensures Touches(s, Next(s, e), e.t, e.h)
  {
    match e
    case Assign(t, h, src) => ResetTouches(s, t, h, Store(s.handles[src].raw, s.handles[src].ref), Some(src));
    case AssignRaw(t, h, obj) => ResetTouches(s, t, h, Wrap(obj), None);
    case Reset(t, h) => ResetTouches(s, t, h, Finish, None);
    case Drop(t, h) => ResetTouches(s, t, h, Destroy, None);
    case _ =>
  }

  /** The handle that a step may write is not the one t works on. */
  lemma OtherHandle(s: State, e: Event, t: nat)
    requires Inv(s) && Working(s, t) && Enabled(s, e) && e.t != t
    ensures s.threads[t].h != if e.Continue? then s.threads[e.t].h else e.h
  {
    WorkingHas(s, t);
    hide TaskOk, Heap, CountsOk, PendingOk, Handles;
    assert Target(s.threads[t]) == Some(s.threads[t].h);
    if e.Continue? { assert Apart(s.threads[t], s.threads[e.t]); }
  }

  /** Steps of other threads leave t's handle and its task alone. */
  lemma OtherStep(s: State, e: Event, s': State, t: nat)
    requires Inv(s) && Working(s, t) && StepTo(s, e, s') && e.t != t
    ensures Working(s', t) && s'.threads[t] == s.threads[t]
    ensures var h := s.threads[t].h; h in s.handles && h in s'.handles && s'.handles[h] == s.handles[h]
  {
    hide Inv, TaskOk, Ready, Enabled, Next, Run1;
    WorkingHas(s, t);
    OtherHandle(s, e, t);
    StepTouches(s, e);
  }

  lemma StepTouches(s: State, e: Event)
    requires Enabled(s, e) && Ready(s, s.threads[e.t])
    ensures Touches(s, Next(s, e), e.t, if e.Continue? then s.threads[e.t].h else e.h)
  {
    if e.Continue? {
      ContinueTouches(s, e.t, s.threads[e.t], e.counter);
    } else {
      StartTouches(s, e);
    }
    hide Run1, StartReset;
  }

  lemma AdjustStep(s: State, e: Event, s': State, t: nat)
    requires Inv(s) && Working(s, t) && StepTo(s, e, s') && e.t == t && s.threads[t].AtAdjust?
    ensures var k := s.threads[t];
            && k.h in s.handles && s.handles[k.h].ref.Some? && CallsCounter(s, e, t, k.h, s.handles[k.h].ref.value)
            && s'.handles == s.handles && t in s'.threads
            && var count := s.counters[s.handles[k.h].ref.value].count;
               s'.threads[t] == if count.active > 0 then Idle else AtNull(k.h, k.src)
  {
    hide Inv;
  }

  lemma NullStep(s: State, e: Event, s': State, t: nat)
    requires Working(s, t) && StepTo(s, e, s') && e.t == t && s.threads[t].AtNull?
    ensures var h := s.threads[t].h;
            t in s'.threads && s'.threads[t].Idle? && h in s'.handles && s'.handles[h].ref == None
  {}

  /** The statements of ResetPtr before the fields are nulled. */
  lemma GiveUpStep(s: State, e: Event, s': State, t: nat)
    requires Working(s, t) && StepTo(s, e, s') && e.t == t
    requires s.threads[t].AtSubtract? || s.threads[t].AtDelete? || s.threads[t].AtFree?
    ensures Working(s', t) && s'.handles == s.handles && s.threads[t].h in s.handles
    ensures var k, k' := s.threads[t], s'.threads[t];
            && (k'.AtDelete? || k'.AtFree? || k'.AtClear?)
            && k'.h == k.h && k'.after == k.after
  {}

  lemma ClearStep(s: State, e: Event, s': State, t: nat)
    requires Working(s, t) && StepTo(s, e, s') && e.t == t && s.threads[t].AtClear?
    ensures var k := s.threads[t];
            && t in s'.threads
            && (k.after.Finish? ==> s'.threads[t].Idle? && k.h in s'.handles && s'.handles[k.h].ref == None)
            && (k.after.Destroy? ==> s'.threads[t].Idle? && k.h !in s'.handles)
            && (k.after.Store? || k.after.Wrap? ==> s'.threads[t] == AtStore(k.h, k.after, k.src) && k.h in s'.handles)
  {}

  lemma StoreStep(s: State, e: Event, s': State, t: nat)
    requires Working(s, t) && StepTo(s, e, s') && e.t == t && s.threads[t].AtStore? && s.threads[t].after.Store?
    ensures var k := s.threads[t];
            && t in s'.threads && k.h in s'.handles
            && s'.handles[k.h].raw == k.after.raw && s'.handles[k.h].ref == k.after.ref
            && s'.threads[t] == if k.after.ref.Some? then AtAdjust(k.h, k.src) else Idle
  {}

  /** Wrapping obj gives a fresh counter with the one handle, or NULL. */
  ghost predicate WrappedOrNull(s: State, s': State, h: nat, obj: Option<nat>) {
    && h in s'.handles
    && match obj case None => s'.handles[h].ref == None case Some(o) => Wrapped(s, s', h, o)
  }

  lemma WrapGives(s: State, t: nat, h: nat, obj: Option<nat>, counter: nat)
    requires h in s.handles && s.handles[h].kind == Active && (obj.Some? ==> counter !in s.counters)
    ensures WrappedOrNull(s, WrapObject(s, h, obj, counter), h, obj)
    ensures WrappedOrNull(s, Go(WrapObject(s, h, obj, counter), t, Idle), h, obj)
  {}

  lemma WrapStep(s: State, e: Event, s': State, t: nat)
    requires Inv(s) && Working(s, t) && StepTo(s, e, s') && e.t == t
    requires s.threads[t].AtStore? && s.threads[t].after.Wrap?
    ensures var h, obj := s.threads[t].h, s.threads[t].after.obj;
            t in s'.threads && s'.threads[t].Idle? && WrappedOrNull(s, s', h, obj)
  {
    var h, obj := s.threads[t].h, s.threads[t].after.obj;
    WorkingHas(s, t);
    WrapGives(s, t, h, obj, e.counter);
    hide Inv, WrappedOrNull, Ready, WrapObject;
    assert s' == Go(WrapObject(s, h, obj, e.counter), t, Idle);
  }

  /** A handle that t is done with is NULL or registered. */
  lemma OwnHandleRests(s: State, e: Event, s': State, t: nat)
    requires Inv(s) && Working(s, t) && StepTo(s, e, s') && e.t == t && t in s'.threads && s'.threads[t].Idle?
    ensures Inv(s')
    ensures s.threads[t].h in s'.handles ==> AtRest(s', s.threads[t].h)
  {
    var h := s.threads[t].h;
    NextKeeps(s, e);
    hide Ready, Enabled, Next;
    assert !Written(s', h) by {
      StepTouches(s, e);
      Owns(s, t);
      hide TaskOk, Inv;
    }
  }

  // ---------------------------------------------------------------- whole operations

  /**
    What an operation on h with this goal has come to in state done, right after state last. A stored
    reference depends on the counter call in state call: h is registered if the object was alive
    then, and NULL if not.
   */
  ghost predicate Result(call: State, e: Event, last: State, done: State, t: nat, h: nat, after: After) {
    match after
    case Finish => Null(done, h)
    case Destroy => h !in done.handles
    case Store(_, None) => Null(done, h)
    case Store(_, Some(c)) =>
      && CallsCounter(call, e, t, h, c)
      && if call.counters[c].count.active > 0 then Held(done, h, c) else Null(done, h)
    case Wrap(None) => Null(done, h)
    case Wrap(Some(o)) => Wrapped(last, done, h, o)
  }

  lemma RestsNull(s: State, h: nat)
    requires AtRest(s, h) && h in s.handles && s.handles[h].ref == None
    ensures Null(s, h)
  {}

  lemma RestsHeld(s: State, h: nat, c: nat)
    requires AtRest(s, h) && h in s.handles && s.handles[h].ref == Some(c)
    ensures Held(s, h, c)
  {}

  /** A last step. */
  lemma OwnEnds(s: State, e: Event, s': State, t: nat)
    requires Inv(s) && Working(s, t) && StepTo(s, e, s') && e.t == t && t in s'.threads && s'.threads[t].Idle?
    ensures s.threads[t].h in s.handles
    ensures Result(s, e, s, s', t, s.threads[t].h, Doing(s, s.threads[t]))
  {
    var k := s.threads[t];
    var h := k.h;
    WorkingHas(s, t);
    OwnHandleRests(s, e, s', t);
    TaskOfStore(s, t);
    hide Inv, Ready, Enabled, Next, StepTo, AtRest, Held, Null, Wrapped, TaskOk, CallsCounter, Working;
    match k
    case AtAdjust(_, _) => AdjustStep(s, e, s', t); RestsHeld(s', h, s.handles[h].ref.value);
    case AtNull(_, _) => NullStep(s, e, s', t); RestsNull(s', h);
    case AtSubtract(_, _, _) => GiveUpStep(s, e, s', t); StillWorking(s', t);
    case AtDelete(_, _, _, _, _) => GiveUpStep(s, e, s', t); StillWorking(s', t);
    case AtFree(_, _, _, _) => GiveUpStep(s, e, s', t); StillWorking(s', t);
    case AtClear(_, after, _) =>
      ClearStep(s, e, s', t);
      if after.Finish? { RestsNull(s', h); }
    case AtStore(_, Store(raw, ref), _) =>
      StoreStep(s, e, s', t);
      if ref == None { RestsNull(s', h); }
    case AtStore(_, Wrap(obj), _) =>
      WrapStep(s, e, s', t);
      if obj == None { RestsNull(s', h); }
  }

  lemma StillWorking(s: State, t: nat)
    requires Working(s, t)
    ensures t in s.threads && !s.threads[t].Idle?
  {}

  lemma TaskOfStore(s: State, t: nat)
    requires Working(s, t) && TaskOk(s, s.threads[t])
    ensures s.threads[t].AtStore? ==> s.threads[t].after.Store? || s.threads[t].after.Wrap?
  {}

  /** Any other step of t keeps its goal, but for the counter call on a dead object. */
  lemma OwnGoes(s: State, e: Event, s': State, t: nat)
    requires Inv(s) && Working(s, t) && StepTo(s, e, s') && e.t == t && Working(s', t)
    ensures var k, k' := s.threads[t], s'.threads[t];
            && k.h in s.handles && k.h in s'.handles && k'.h == k.h
            && if k.AtAdjust? then
                 && Doing(s', k') == Finish && s.handles[k.h].ref.Some?
                 && CallsCounter(s, e, t, k.h, s.handles[k.h].ref.value)
                 && s.counters[s.handles[k.h].ref.value].count.active == 0
               else Doing(s', k') == Doing(s, k)
  {
    var k := s.threads[t];
    WorkingHas(s, t);
    hide Inv, Ready, Enabled, Next, StepTo, CallsCounter;
    match k
    case AtAdjust(_, _) => AdjustStep(s, e, s', t);
    case AtNull(_, _) => NullStep(s, e, s', t);
    case AtSubtract(_, _, _) => GiveUpStep(s, e, s', t);
    case AtDelete(_, _, _, _, _) => GiveUpStep(s, e, s', t);
    case AtFree(_, _, _, _) => GiveUpStep(s, e, s', t);
    case AtClear(_, after, _) => ClearStep(s, e, s', t);
    case AtStore(_, Store(raw, ref), _) => StoreStep(s, e, s', t);
    case AtStore(_, Wrap(obj), _) => WrapStep(s, e, s', t);
    case AtStore(_, _, _) =>
  }

  /** From state m to state j of a run, t is at work and then done. */
  ghost predicate Completes(states: seq<State>, events: seq<Event>, t: nat, m: nat, j: nat) {
    && |states| == |events| + 1 && m < j < |states| && (forall x :: m <= x < j ==> Working(states[x], t))
    && t in states[j].threads && states[j].threads[t].Idle?
  }

  lemma RunStep(states: seq<State>, events: seq<Event>, t: nat, m: nat, j: nat)
    requires Run(states, events) && Completes(states, events, t, m, j)
    ensures m < j < |states| == |events| + 1
    ensures Inv(states[m]) && StepTo(states[m], events[m], states[m + 1]) && Working(states[m], t)
    ensures if m + 1 == j then t in states[j].threads && states[j].threads[t].Idle?
            else Working(states[m + 1], t) && Completes(states, events, t, m + 1, j)
  {
    RunKeepsInv(states, events, m);
    assert StepAt(states, events, m);
    hide Inv, Working, Next;
  }

  /** A thread at work in a run finishes what it is doing. */
  lemma {:induction false} Finishes(states: seq<State>, events: seq<Event>, t: nat, m: nat, j: nat) returns (k: nat)
    requires Run(states, events) && Completes(states, events, t, m, j)
    ensures m <= k < j < |states| == |events| + 1 && Working(states[m], t)
    ensures var task := states[m].threads[t];
            && task.h in states[m].handles
            && Result(states[k], events[k], states[j - 1], states[j], t, task.h, Doing(states[m], task))
    decreases j - m
  {
    hide *;
    RunStep(states, events, t, m, j);
    var s, s', e := states[m], states[m + 1], events[m];
    StillWorking(s, t);
    if e.t != t {
      OtherStep(s, e, s', t);
      StillWorking(s', t);
      SameDoing(s, s', s.threads[t]);
      k := Finishes(states, events, t, m + 1, j);
    } else if m + 1 == j {
      OwnEnds(s, e, s', t);
      k := m;
    } else {
      OwnGoes(s, e, s', t);
      k := Finishes(states, events, t, m + 1, j);
      if s.threads[t].AtAdjust? {
        RefusedIsNull(states, events, t, m, k, j);
        k := m;
      }
    }
  }

  lemma SameDoing(s: State, s': State, k: Task)
    requires !k.Idle? && k.h in s.handles && k.h in s'.handles && s.handles[k.h] == s'.handles[k.h]
    ensures Doing(s, k) == Doing(s', k)
  {}

  /** A refused counter call leads to NULL. */
  lemma RefusedIsNull(states: seq<State>, events: seq<Event>, t: nat, m: nat, k: nat, j: nat)
    requires m < k < j < |states| == |events| + 1 && Working(states[m], t)
    requires var task := states[m].threads[t];
             && task.AtAdjust? && task.h in states[m].handles && states[m].handles[task.h].ref.Some?
             && CallsCounter(states[m], events[m], t, task.h, states[m].handles[task.h].ref.value)
             && states[m].counters[states[m].handles[task.h].ref.value].count.active == 0
             && Result(states[k], events[k], states[j - 1], states[j], t, task.h, Finish)
    ensures var task := states[m].threads[t];
            Result(states[m], events[m], states[j - 1], states[j], t, task.h, Doing(states[m], task))
  {
    hide CallsCounter, Null, Held, Working;
  }

  // ---------------------------------------------------------------- the operations

  /** An operation in a run: its first step, and the work after it, if any. */
  lemma OperationStarts(states: seq<State>, events: seq<Event>, i: nat, j: nat)
    requires Run(states, events) && i < |events| && !events[i].Continue? && Operation(states, events[i].t, i, j)
    ensures |states| == |events| + 1 && i < j < |states| && Inv(states[i]) && Inv(states[i + 1]) && Inv(states[j])
    ensures StepTo(states[i], events[i], states[i + 1]) && events[i].t in states[i + 1].threads
    ensures j == i + 1 || Completes(states, events, events[i].t, i + 1, j)
    ensures states[i + 1].threads[events[i].t].Idle? <==> j == i + 1
  {
    RunKeepsInv(states, events, i);
    RunKeepsInv(states, events, i + 1);
    RunKeepsInv(states, events, j);
    assert StepAt(states, events, i);
    hide Inv, Next;
  }

  /** A counter guards the same object for ever. */
  lemma ObjectStaysStep(s: State, e: Event, s': State, c: nat)
    requires StepTo(s, e, s') && c in s.counters
    ensures c in s'.counters && s'.counters[c].obj == s.counters[c].obj
  {
    if e.Continue? {
      ObjectStaysInside(s, e.t, s.threads[e.t], e.counter, c);
      hide Run1;
    }
  }

  lemma ObjectStaysInside(s: State, t: nat, k: Task, counter: nat, c: nat)
    requires Ready(s, k) && c in s.counters
    requires k.AtStore? && k.after.Wrap? && k.after.obj.Some? ==> counter != c
    ensures var s' := Run1(s, t, k, counter); c in s'.counters && s'.counters[c].obj == s.counters[c].obj
  {}

  lemma {:induction false} ObjectStays(states: seq<State>, events: seq<Event>, i: nat, j: nat, c: nat)
    requires Run(states, events) && i <= j < |states| && c in states[i].counters
    ensures c in states[j].counters && states[j].counters[c].obj == states[i].counters[c].obj
    decreases j
  {
    hide Next, Enabled, Ready;
    if i < j {
      ObjectStays(states, events, i, j - 1, c);
      assert StepAt(states, events, j - 1);
      ObjectStaysStep(states[j - 1], events[j - 1], states[j], c);
    }
  }

  /** A source that no thread is writing is NULL, or points to the object of its counter. */
  lemma SourceFields(s: State, src: nat)
    requires Inv(s) && src in s.handles && !Written(s, src)
    ensures var from := s.handles[src];
            match from.ref
            case None => from.raw == None
            case Some(c) => c in s.counters && from.raw == Some(s.counters[c].obj)
  {
    hide Tasks, Heap, CountsOk, PendingOk;
  }

  /**
    What copying the fields of a handle has come to: NULL if they were, and otherwise, by the counter
    call at states[k], the same fields and a registration, or NULL for a dead object.
   */
  ghost predicate Copied(states: seq<State>, events: seq<Event>, i: nat, k: nat, j: nat, t: nat, h: nat,
                         raw: Option<nat>, ref: Option<nat>) {
    && |states| == |events| + 1 && i < j < |states|
    && if ref == None then raw == None && Null(states[j], h)
       else
         && i < k < j && CallsCounter(states[k], events[k], t, h, ref.value)
         && if states[k].counters[ref.value].count.active > 0 then
              Held(states[j], h, ref.value) && states[j].handles[h].raw == raw
            else Null(states[j], h)
  }

  /** The result of storing another handle's fields, in terms of that handle. */
  lemma StoredIsCopied(states: seq<State>, events: seq<Event>, i: nat, k: nat, j: nat, t: nat, h: nat, src: nat)
    requires Run(states, events) && i < k < j < |states| == |events| + 1
    requires Inv(states[i]) && src in states[i].handles && !Written(states[i], src)
    requires var from := states[i].handles[src];
             Result(states[k], events[k], states[j - 1], states[j], t, h, Store(from.raw, from.ref))
    ensures var from := states[i].handles[src];
            Copied(states, events, i, k, j, t, h, from.raw, from.ref)
  {
    SourceFields(states[i], src);
    var ref := states[i].handles[src].ref;
    hide Inv, Written, Null, CallsCounter;
    if ref.Some? { ObjectStays(states, events, i, j, ref.value); }
  }

  lemma CopyStep(s: State, e: Event, s': State)
    requires StepTo(s, e, s') && e.Copy?
    ensures e.src in s.handles && !Written(s, e.src) && e.h in s'.handles && e.t in s'.threads
    ensures var from := s.handles[e.src];
            && s'.handles[e.h] == Handle(e.kind, from.raw, from.ref)
            && s'.registered == s.registered
            && s'.threads[e.t] == if from.ref.Some? then AtAdjust(e.h, Some(e.src)) else Idle
  {}

  /** Copying, promotion included: the new handle has the fields of the source, and comes to what Copied says. */
  lemma CopyResult(states: seq<State>, events: seq<Event>, i: nat, j: nat) returns (k: nat)
    requires Run(states, events) && i < |events| && events[i].Copy? && Operation(states, events[i].t, i, j)
    ensures |states| == |events| + 1 && i < j < |states| && events[i].src in states[i].handles
    ensures var e := events[i];
            var from := states[i].handles[e.src];
            && e.h in states[i + 1].handles && states[i + 1].handles[e.h] == Handle(e.kind, from.raw, from.ref)
            && Copied(states, events, i, k, j, e.t, e.h, from.raw, from.ref)
  {
    hide *;
    OperationStarts(states, events, i, j);
    var e, s, s' := events[i], states[i], states[i + 1];
    CopyStep(s, e, s');
    var from := s.handles[e.src];
    if from.ref == None {
      k := i;
      NullCopy(s, s', e);
      CopiedNothing(states, events, i, k, j, e.t, e.h);
    } else {
      k := Finishes(states, events, e.t, i + 1, j);
      CopyDoing(s', e, from);
      StoredIsCopied(states, events, i, k, j, e.t, e.h, e.src);
    }
  }

  lemma CopyDoing(s: State, e: Event, from: Handle)
    requires e.Copy? && e.h in s.handles && s.handles[e.h] == Handle(e.kind, from.raw, from.ref)
    ensures Doing(s, AtAdjust(e.h, Some(e.src))) == Store(from.raw, from.ref)
  {}

  lemma NullCopy(s: State, s': State, e: Event)
    requires Inv(s) && StepTo(s, e, s') && e.Copy? && s.handles[e.src].ref == None
    ensures s.handles[e.src].raw == None && Null(s', e.h)
  {
    CopyStep(s, e, s');
    SourceFields(s, e.src);
    hide Tasks, Heap, CountsOk, PendingOk, Next;
    assert e.h !in s.registered;
  }

  lemma CopiedNothing(states: seq<State>, events: seq<Event>, i: nat, k: nat, j: nat, t: nat, h: nat)
    requires |states| == |events| + 1 && i < j < |states| && Null(states[j], h)
    ensures Copied(states, events, i, k, j, t, h, None, None)
  {}

  /** The start of ResetPtr and what follows it, at a handle that nobody uses. */
  lemma ResetStarts(s: State, t: nat, h: nat, after: After, src: Option<nat>)
    requires Handles(s) && h in s.handles && !Busy(s, h)
    ensures var s' := StartReset(s, t, h, after, src);
            && t in s'.threads
            && if s'.threads[t].Idle? then
                 (after.Finish? && Null(s', h)) || (after.Destroy? && h !in s'.handles)
               else s'.threads[t].h == h && h in s'.handles && Doing(s', s'.threads[t]) == after
  {
    IsNotBusy(s, t, h);
  }

  /** An operation that begins with ResetPtr comes to the result of its goal. */
  lemma ResetFinishes(states: seq<State>, events: seq<Event>, i: nat, j: nat, h: nat, after: After, src: Option<nat>)
    returns (k: nat)
    requires Run(states, events) && i < |events| && !events[i].Continue? && Operation(states, events[i].t, i, j)
    requires i + 1 < |states| && h in states[i].handles && !Busy(states[i], h)
    requires states[i + 1] == StartReset(states[i], events[i].t, h, after, src)
    ensures |states| == |events| + 1 && i <= k < j < |states| && (after.Store? || after.Wrap? ==> i < k)
    ensures Result(states[k], events[k], states[j - 1], states[j], events[i].t, h, after)
  {
    hide *;
    OperationStarts(states, events, i, j);
    HandlesOf(states[i]);
    ResetStarts(states[i], events[i].t, h, after, src);
    if j == i + 1 {
      k := i;
      EndedAtOnce(states[k], events[k], states[i], states[j], events[i].t, h, after);
    } else {
      k := Finishes(states, events, events[i].t, i + 1, j);
    }
  }

  lemma HandlesOf(s: State)
    requires Inv(s)
    ensures Handles(s)
  {
    hide Handles;
  }

  lemma EndedAtOnce(call: State, e: Event, last: State, done: State, t: nat, h: nat, after: After)
    requires (after.Finish? && Null(done, h)) || (after.Destroy? && h !in done.handles)
    ensures Result(call, e, last, done, t, h, after)
  {}

  lemma ResetFirst(s: State, e: Event, s': State)
    requires StepTo(s, e, s')
    ensures e.Reset? || e.Drop? || e.AssignRaw? || e.Assign? ==> e.h in s.handles && !Busy(s, e.h)
    ensures e.Reset? ==> s' == StartReset(s, e.t, e.h, Finish, None)
    ensures e.Drop? ==> s' == StartReset(s, e.t, e.h, Destroy, None)
    ensures e.AssignRaw? ==> s' == StartReset(s, e.t, e.h, Wrap(e.obj), None)
    ensures e.Assign? ==>
              && e.src in s.handles && !Written(s, e.src)
              && var from := s.handles[e.src];
                 if s.handles[e.h].ref == from.ref then s' == s
                 else s' == StartReset(s, e.t, e.h, Store(from.raw, from.ref), Some(e.src))
  {
    hide StartReset;
  }

  /** ResetPtr leaves a NULL handle that no counter counts. */
  lemma ResetResult(states: seq<State>, events: seq<Event>, i: nat, j: nat)
    requires Run(states, events) && i < |events| && events[i].Reset? && Operation(states, events[i].t, i, j)
    ensures j < |states| && Null(states[j], events[i].h)
  {
    hide *;
    OperationStarts(states, events, i, j);
    ResetFirst(states[i], events[i], states[i + 1]);
    var k := ResetFinishes(states, events, i, j, events[i].h, Finish, None);
    ResultOfFinish(states[k], events[k], states[j - 1], states[j], events[i].t, events[i].h);
  }

  lemma ResultOfFinish(call: State, e: Event, last: State, done: State, t: nat, h: nat)
    ensures Result(call, e, last, done, t, h, Finish) ==> Null(done, h)
    ensures Result(call, e, last, done, t, h, Destroy) ==> h !in done.handles
  {}

  /** The destructor leaves no handle. */
  lemma DropResult(states: seq<State>, events: seq<Event>, i: nat, j: nat)
    requires Run(states, events) && i < |events| && events[i].Drop? && Operation(states, events[i].t, i, j)
    ensures j < |states| && Inv(states[j])
    ensures events[i].h !in states[j].handles && events[i].h !in states[j].registered
  {
    hide *;
    OperationStarts(states, events, i, j);
    ResetFirst(states[i], events[i], states[i + 1]);
    var k := ResetFinishes(states, events, i, j, events[i].h, Destroy, None);
    ResultOfFinish(states[k], events[k], states[j - 1], states[j], events[i].t, events[i].h);
    GoneIsUnregistered(states[j], events[i].h);
  }

  lemma GoneIsUnregistered(s: State, h: nat)
    requires Inv(s) && h !in s.handles
    ensures h !in s.registered
  {
    hide Tasks, Heap, CountsOk, PendingOk;
  }

  /** A raw pointer that is assigned is wrapped in a new counter with this one handle. */
  lemma AssignRawResult(states: seq<State>, events: seq<Event>, i: nat, j: nat)
    requires Run(states, events) && i < |events| && events[i].AssignRaw? && Operation(states, events[i].t, i, j)
    ensures 0 < j < |states|
    ensures match events[i].obj
            case None => Null(states[j], events[i].h)
            case Some(o) => Wrapped(states[j - 1], states[j], events[i].h, o)
  {
    hide *;
    OperationStarts(states, events, i, j);
    ResetFirst(states[i], events[i], states[i + 1]);
    var k := ResetFinishes(states, events, i, j, events[i].h, Wrap(events[i].obj), None);
    ResultOfWrap(states[k], events[k], states[j - 1], states[j], events[i].t, events[i].h, events[i].obj);
  }

  lemma ResultOfWrap(call: State, e: Event, last: State, done: State, t: nat, h: nat, obj: Option<nat>)
    requires Result(call, e, last, done, t, h, Wrap(obj))
    ensures match obj case None => Null(done, h) case Some(o) => Wrapped(last, done, h, o)
  {}

  /**
    Assignment between handles: at the same counter, itself included, nothing changes; otherwise the
    old reference is given up and the handle comes to what Copied says of the source's fields.
   */
  lemma AssignResult(states: seq<State>, events: seq<Event>, i: nat, j: nat) returns (k: nat)
    requires Run(states, events) && i < |events| && events[i].Assign? && Operation(states, events[i].t, i, j)
    ensures |states| == |events| + 1 && i < j < |states|
    ensures events[i].h in states[i].handles && events[i].src in states[i].handles
    ensures var e := events[i];
            var from := states[i].handles[e.src];
            if states[i].handles[e.h].ref == from.ref then j == i + 1 && states[j] == states[i]
            else Copied(states, events, i, k, j, e.t, e.h, from.raw, from.ref)
  {
    hide *;
    OperationStarts(states, events, i, j);
    var e, s := events[i], states[i];
    ResetFirst(s, e, states[i + 1]);
    var from := s.handles[e.src];
    if s.handles[e.h].ref == from.ref {
      k := i;
      IdleAtStart(s, e, states[i + 1]);
    } else {
      k := ResetFinishes(states, events, i, j, e.h, Store(from.raw, from.ref), Some(e.src));
      StoredIsCopied(states, events, i, k, j, e.t, e.h, e.src);
    }
  }

  lemma IdleAtStart(s: State, e: Event, s': State)
    requires StepTo(s, e, s') && !e.Continue?
    ensures e.t in s.threads && s.threads[e.t].Idle?
  {}

  /** No step makes a Ptr of an InactivePtr or the other way round. */
  lemma KindStays(s: State, e: Event, s': State, h: nat)
    requires StepTo(s, e, s') && h in s.handles && h in s'.handles
    ensures s'.handles[h].kind == s.handles[h].kind
  {
    if e.Continue? {
      KindStaysInside(s, e.t, s.threads[e.t], e.counter, h);
      hide Run1;
    }
  }

  lemma KindStaysInside(s: State, t: nat, k: Task, counter: nat, h: nat)
    requires Ready(s, k) && h in s.handles
    ensures var s' := Run1(s, t, k, counter); h in s'.handles ==> s'.handles[h].kind == s.handles[h].kind
  {}

  lemma NewInactiveStep(s: State, e: Event, s': State)
    requires StepTo(s, e, s') && e.NewInactive?
    ensures e.h !in s.handles && e.t in s'.threads && s'.threads[e.t].Idle?
    ensures s'.handles == s.handles[e.h := Handle(Inactive, None, None)] && s'.registered == s.registered
  {
    hide Ready, WrapObject, StartReset, Run1;
  }

  lemma NewActiveStep(s: State, e: Event, s': State)
    requires StepTo(s, e, s') && e.NewActive?
    ensures e.h !in s.handles && e.counter !in s.counters
    ensures var s1 := s.(handles := s.handles[e.h := Handle(Active, None, None)]);
            s' == WrapObject(s1, e.h, e.obj, e.counter)
    ensures e.t in s'.threads && s'.threads[e.t].Idle? && e.h in s'.handles && s'.handles[e.h].kind == Active
    ensures e.obj == None ==> s'.registered == s.registered && s'.handles[e.h].raw == None
  {
    hide Ready, StartReset, Run1;
  }

  lemma SameWrapped(s: State, s1: State, s': State, h: nat, o: nat)
    requires s.counters == s1.counters && Wrapped(s1, s', h, o)
    ensures Wrapped(s, s', h, o)
  {
    hide Held;
  }

  /** A Ptr made from a raw pointer wraps it at once; an InactivePtr starts out NULL. */
  lemma NewResult(s: State, e: Event, s': State)
    requires Inv(s) && StepTo(s, e, s') && (e.NewActive? || e.NewInactive?)
    ensures e.t in s'.threads && s'.threads[e.t].Idle? && e.h in s'.handles
    ensures e.NewInactive? ==> Null(s', e.h) && s'.handles[e.h].kind == Inactive
    ensures e.NewActive? ==> s'.handles[e.h].kind == Active
    ensures e.NewActive? && e.obj == None ==> Null(s', e.h)
    ensures e.NewActive? && e.obj.Some? ==> Wrapped(s, s', e.h, e.obj.value)
  {
    hide Inv, Next, Enabled, Ready, StepTo, WrapObject, Wrapped, Held;
    if e.NewInactive? {
      NewInactiveStep(s, e, s');
      GoneIsUnregistered(s, e.h);
    } else {
      NewActiveStep(s, e, s');
      GoneIsUnregistered(s, e.h);
      var s1 := s.(handles := s.handles[e.h := Handle(Active, None, None)]);
      WrapGives(s1, e.t, e.h, e.obj, e.counter);
      if e.obj.Some? { SameWrapped(s, s1, s', e.h, e.obj.value); }
    }
  }

  // ---------------------------------------------------------------- operations end

  /** At most how many steps a thread still has to take. */
  function StepsLeft(k: Task): nat {
    match k
    case Idle => 0
    case AtNull(_, _) => 1
    case AtAdjust(_, _) => 2
    case AtStore(_, _, _) => 3
    case AtClear(_, _, _) => 4
    case AtFree(_, _, _, _) => 5
    case AtDelete(_, _, _, _, _) => 6
    case AtSubtract(_, _, _) => 7
  }

  /** Every step of a thread at work brings its operation nearer to the end; no lock keeps it waiting. */
  lemma OwnStepIsNearer(s: State, e: Event, s': State, t: nat)
    requires Working(s, t) && StepTo(s, e, s') && e.t == t
    ensures t in s'.threads && StepsLeft(s'.threads[t]) < StepsLeft(s.threads[t])
  {
    NearerInside(s, t, s.threads[t], e.counter);
    hide Run1;
  }

  lemma NearerInside(s: State, t: nat, k: Task, counter: nat)
    requires Ready(s, k) && !k.Idle?
    ensures var s' := Run1(s, t, k, counter); t in s'.threads && StepsLeft(s'.threads[t]) < StepsLeft(k)
  {
    hide WrapObject;
  }

  /** And it can take one, in every state of a run, with any new counter and object. */
  lemma OwnStepIsPossible(states: seq<State>, events: seq<Event>, t: nat, counter: nat)
    requires Run(states, events) && Working(states[|events|], t) && counter !in states[|events|].counters
    requires var k := states[|events|].threads[t];
             k.AtStore? && k.after.Wrap? && k.after.obj.Some? ==> k.after.obj.value !in states[|events|].objects
    ensures exists s' :: StepTo(states[|events|], Continue(t, counter), s')
  {
    hide Next, Ready, Run;
    assert |states| == |events| + 1 by { RunLength(states, events); }
    RunCanContinue(states, events, Continue(t, counter));
    assert StepTo(states[|events|], Continue(t, counter), Next(states[|events|], Continue(t, counter)));
  }

  // ---------------------------------------------------------------- a run

  /** One thread, and nothing else. */
  function OneThread(): State {
    State(map[], map[], map[], map[], map[0 := Idle])
  }

  /** The state after a Ptr has been made of object 7 with counter 3. */
  function OneObject(): State {
    State(map[3 := Cell(Count(1, 0), 7, 0)], map[7 := 0], map[0 := Handle(Active, Some(7), Some(3))],
          map[0 := Registration(3, Active)], map[0 := Idle])
  }

  lemma MakesObject()
    ensures StepTo(OneThread(), NewActive(0, 0, Some(7), 3), OneObject())
  {
    var s := Next(OneThread(), NewActive(0, 0, Some(7), 3));
    assert s.counters == OneObject().counters && s.objects == OneObject().objects;
    assert s.handles == OneObject().handles && s.registered == OneObject().registered;
  }

  /** A Ptr is made of object 7 with counter 3 and copied: both point to it, and the counter counts two. */
  lemma SharedObject() returns (s: State)
    ensures var e0, e1, e2 := NewActive(0, 0, Some(7), 3), Copy(0, 1, Active, 0), Continue(0, 0);
            exists s1, s2 :: Run([OneThread(), s1, s2, s], [e0, e1, e2])
    ensures s.threads == map[0 := Idle] && s.counters == map[3 := Cell(Count(2, 0), 7, 0)] && s.objects == map[7 := 0]
    ensures s.handles == map[0 := Handle(Active, Some(7), Some(3)), 1 := Handle(Active, Some(7), Some(3))]
    ensures s.registered == map[0 := Registration(3, Active), 1 := Registration(3, Active)]
  {
    var s0, e0, e1, e2 := OneThread(), NewActive(0, 0, Some(7), 3), Copy(0, 1, Active, 0), Continue(0, 0);
    var s1 := OneObject();
    MakesObject();
    var s2 := Next(s1, e1);
    assert s2 == s1.(handles := map[0 := Handle(Active, Some(7), Some(3)), 1 := Handle(Active, Some(7), Some(3))],
                     threads := map[0 := AtAdjust(1, Some(0))]);
    s := Next(s2, e2);
    var states, events := [s0, s1, s2, s], [e0, e1, e2];
    forall i | 0 <= i < 3 ensures StepAt(states, events, i) {}
  }
}
