/**
  Active and inactive smart pointers shared by any number of threads, as a transition system.
  A thread runs one handle operation at a time; each counter call is one atomic step, and so is
  every other read or write of a handle, so an execution may switch threads between any two of them.
 */
module SmartPointers {
  import opened RefCounter
  import opened Wrappers

  datatype Kind = Active | Inactive

  /** A Ptr or InactivePtr: its two fields m_pRawPtr and m_pRefCount. */
  datatype Handle = Handle(kind: Kind, raw: Option<nat>, ref: Option<nat>)

  /** A counter on the heap: its value, the object it guards, and how often it has been freed. */
  datatype Cell = Cell(count: Count, obj: nat, frees: nat)

  /** A handle counted by a counter, as an active or inactive reference. */
  datatype Registration = Registration(counter: nat, kind: Kind)

  /** What follows ResetPtr in the operation that called it. */
  datatype After = Finish | Destroy | Store(raw: Option<nat>, ref: Option<nat>) | Wrap(obj: Option<nat>)

  /** The next statement of a thread; src is the handle an operation copies from. */
  datatype Task =
    | Idle
    | AtAdjust(h: nat, src: Option<nat>)
    | AtNull(h: nat, src: Option<nat>)
    | AtSubtract(h: nat, after: After, src: Option<nat>)
    | AtDelete(h: nat, counter: nat, code: int, after: After, src: Option<nat>)
    | AtFree(h: nat, counter: nat, after: After, src: Option<nat>)
    | AtClear(h: nat, after: After, src: Option<nat>)
    | AtStore(h: nat, after: After, src: Option<nat>)

  /**
    objects counts the deletions of each object; registered records which counter currently
    counts each handle, changed only by the atomic counter calls.
   */
  datatype State = State(counters: map<nat, Cell>, objects: map<nat, nat>, handles: map<nat, Handle>,
                         registered: map<nat, Registration>, threads: map<nat, Task>)

  datatype Event =
    | NewActive(t: nat, h: nat, obj: Option<nat>, counter: nat)
    | NewInactive(t: nat, h: nat)
    | Copy(t: nat, h: nat, kind: Kind, src: nat)
    | Assign(t: nat, h: nat, src: nat)
    | AssignRaw(t: nat, h: nat, obj: Option<nat>)
    | Reset(t: nat, h: nat)
    | Drop(t: nat, h: nat)
    | Continue(t: nat, counter: nat)

  function Target(k: Task): Option<nat> {
    if k.Idle? then None else Some(k.h)
  }

  function Source(k: Task): Option<nat> {
    if k.Idle? then None else k.src
  }

  /** Some thread is writing h. */
  predicate Written(s: State, h: nat) {
    exists t :: t in s.threads && Target(s.threads[t]) == Some(h)
  }

  /** Some thread is reading or writing h. */
  predicate Busy(s: State, h: nat) {
    exists t :: t in s.threads && (Target(s.threads[t]) == Some(h) || Source(s.threads[t]) == Some(h))
  }

  /** Callers never write a handle another thread is using, and wrap only fresh objects. */
  predicate Enabled(s: State, e: Event) {
    e.t in s.threads &&
    (e.Continue? <==> !s.threads[e.t].Idle?) &&
    match e
    case NewActive(t, h, obj, counter) =>
      h !in s.handles && counter !in s.counters && (obj.Some? ==> obj.value !in s.objects)
    case NewInactive(t, h) => h !in s.handles
    case Copy(t, h, kind, src) => h !in s.handles && src in s.handles && !Written(s, src)
    case Assign(t, h, src) =>
      && h in s.handles && src in s.handles && !Busy(s, h) && !Written(s, src)
    case AssignRaw(t, h, obj) =>
      && h in s.handles && s.handles[h].kind == Active && !Busy(s, h)
    case Reset(t, h) => h in s.handles && !Busy(s, h)
    case Drop(t, h) => h in s.handles && !Busy(s, h)
    case Continue(t, counter) =>
      var k := s.threads[t];
      k.AtStore? && k.after.Wrap? && k.after.obj.Some? ==>
        counter !in s.counters && k.after.obj.value !in s.objects
  }

  // ---------------------------------------------------------------- the steps

  function Go(s: State, t: nat, k: Task): State {
    s.(threads := s.threads[t := k])
  }

  function Fields(s: State, h: nat, raw: Option<nat>, ref: Option<nat>): State
    requires h in s.handles
  {
    s.(handles := s.handles[h := s.handles[h].(raw := raw, ref := ref)])
  }

  /** ResetPtr on h: nothing to subtract when the reference counter is NULL. */
  function StartReset(s: State, t: nat, h: nat, after: After, src: Option<nat>): State
    requires h in s.handles
  {
    if s.handles[h].ref.Some? then Go(s, t, AtSubtract(h, after, src)) else AfterReset(s, t, h, after, src)
  }

  function AfterReset(s: State, t: nat, h: nat, after: After, src: Option<nat>): State {
    match after
    case Finish => Go(s, t, Idle)
    case Destroy => Go(s.(handles := s.handles - {h}), t, Idle)
    case _ => Go(s, t, AtStore(h, after, src))
  }

  /** A new counter for a raw pointer that h is the first to hold, or NULL. */
  function WrapObject(s: State, h: nat, obj: Option<nat>, counter: nat): State
    requires h in s.handles
  {
    match obj
    case None => Fields(s, h, None, None)
    case Some(o) =>
      Fields(s, h, Some(o), Some(counter)).(
      counters := s.counters[counter := Cell(Count(1, 0), o, 0)],
      objects := s.objects[o := 0],
      registered := s.registered[h := Registration(counter, Active)])
  }

  /** AdjustRefCount: the handle registers, or the refusal is remembered. */
  function Adjust(s: State, t: nat, k: Task): State
    requires k.AtAdjust? && Ready(s, k)
  {
    var hd := s.handles[k.h];
    var c := hd.ref.value;
    var cell := s.counters[c];
    var r := if hd.kind == Active then AddActive(cell.count) else AddInactive(cell.count);
    var s1 := s.(counters := s.counters[c := cell.(count := r.0)]);
    if r.1
    then Go(s1.(registered := s.registered[k.h := Registration(c, hd.kind)]), t, Idle)
    else Go(s1, t, AtNull(k.h, k.src))
  }

  /** The counter call at the head of ResetPtr; the handle is registered until here and no longer. */
  function Subtract(s: State, t: nat, k: Task): State
    requires k.AtSubtract? && Ready(s, k)
  {
    var hd := s.handles[k.h];
    var c := hd.ref.value;
    var cell := s.counters[c];
    if hd.kind == Active then
      var r := SubtractActive(cell.count);
      var s1 := s.(counters := s.counters[c := cell.(count := r.0)], registered := s.registered - {k.h});
      Go(s1, t, if r.1 != 0 then AtDelete(k.h, c, r.1, k.after, k.src) else AtClear(k.h, k.after, k.src))
    else
      var r := SubtractInactive(cell.count);
      var s1 := s.(counters := s.counters[c := cell.(count := r.0)], registered := s.registered - {k.h});
      Go(s1, t, if !r.1 then AtFree(k.h, c, k.after, k.src) else AtClear(k.h, k.after, k.src))
  }

  function Delete(s: State, t: nat, k: Task): State
    requires k.AtDelete? && k.h in s.handles && s.handles[k.h].raw.Some? && s.handles[k.h].raw.value in s.objects
  {
    var o := s.handles[k.h].raw.value;
    Go(s.(objects := s.objects[o := s.objects[o] + 1]), t,
       if k.code == DELETE_REF_COUNTER then AtFree(k.h, k.counter, k.after, k.src) else AtClear(k.h, k.after, k.src))
  }

  function Free(s: State, t: nat, k: Task): State
    requires k.AtFree? && k.h in s.handles && s.handles[k.h].ref.Some? && s.handles[k.h].ref.value in s.counters
  {
    var c := s.handles[k.h].ref.value;
    Go(s.(counters := s.counters[c := s.counters[c].(frees := s.counters[c].frees + 1)]), t,
        AtClear(k.h, k.after, k.src))
  }

  /** The handle and heap cells the next statement of k dereferences are there. */
  predicate Ready(s: State, k: Task) {
    && (!k.Idle? ==> k.h in s.handles)
    && (k.AtAdjust? || k.AtSubtract? || k.AtFree? ==>
          s.handles[k.h].ref.Some? && s.handles[k.h].ref.value in s.counters)
    && (k.AtSubtract? ==>
          var count := s.counters[s.handles[k.h].ref.value].count;
          if s.handles[k.h].kind == Active then count.active > 0 else count.inactive > 0)
    && (k.AtDelete? ==> s.handles[k.h].raw.Some? && s.handles[k.h].raw.value in s.objects)
  }

  function Run1(s: State, t: nat, k: Task, counter: nat): State
    requires Ready(s, k)
  {
    match k
    case Idle => s
    case AtAdjust(_, _) => Adjust(s, t, k)
    case AtNull(h, src) => Go(Fields(s, h, None, None), t, Idle)
    case AtSubtract(_, _, _) => Subtract(s, t, k)
    case AtDelete(_, _, _, _, _) => Delete(s, t, k)
    case AtFree(_, _, _, _) => Free(s, t, k)
    case AtClear(h, after, src) => AfterReset(Fields(s, h, None, None), t, h, after, src)
    case AtStore(h, Store(raw, ref), src) =>
      Go(Fields(s, h, raw, ref), t, if ref.Some? then AtAdjust(h, src) else Idle)
    case AtStore(h, Wrap(obj), src) => Go(WrapObject(s, h, obj, counter), t, Idle)
    case AtStore(h, _, src) => Go(s, t, Idle)
  }

  function Next(s: State, e: Event): State
    requires Enabled(s, e) && Ready(s, s.threads[e.t])
  {
    match e
    case NewActive(t, h, obj, counter) =>
      WrapObject(s.(handles := s.handles[h := Handle(Active, None, None)]), h, obj, counter)
    case NewInactive(t, h) => s.(handles := s.handles[h := Handle(Inactive, None, None)])
    case Copy(t, h, kind, src) =>
      var from := s.handles[src];
      var s1 := s.(handles := s.handles[h := Handle(kind, from.raw, from.ref)]);
      if from.ref.Some? then Go(s1, t, AtAdjust(h, Some(src))) else s1
    case Assign(t, h, src) =>
      var from := s.handles[src];
      if s.handles[h].ref == from.ref then s else StartReset(s, t, h, Store(from.raw, from.ref), Some(src))
    case AssignRaw(t, h, obj) => StartReset(s, t, h, Wrap(obj), None)
    case Reset(t, h) => StartReset(s, t, h, Finish, None)
    case Drop(t, h) => StartReset(s, t, h, Destroy, None)
    case Continue(t, counter) => Run1(s, t, s.threads[t], counter)
  }
}
