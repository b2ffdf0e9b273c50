/**
  What every interleaving of smart-pointer operations keeps: the counts are the numbers of
  registered handles, nothing is deleted or freed twice, too early or not at all, and no counter is
  used after it was freed.
 */
module SmartPointerSafety {
  import opened RefCounter
  import opened SmartPointers
  import opened Wrappers

  // ---------------------------------------------------------------- the invariant

  /** h points to counter c and to the object c guards. */
  ghost predicate Points(s: State, h: nat, c: nat) {
    && h in s.handles && c in s.counters
    && s.handles[h].ref == Some(c) && s.handles[h].raw == Some(s.counters[c].obj)
  }

  /** h points to c and c counts it. */
  ghost predicate Held(s: State, h: nat, c: nat) {
    Points(s, h, c) && h in s.registered && s.registered[h] == Registration(c, s.handles[h].kind)
  }

  ghost predicate Null(s: State, h: nat) {
    h in s.handles && s.handles[h].raw == None && s.handles[h].ref == None && h !in s.registered
  }

  /** A handle no thread is writing: NULL, or counted by the counter it points to. */
  ghost predicate AtRest(s: State, h: nat) {
    Null(s, h) || (h in s.handles && s.handles[h].ref.Some? && Held(s, h, s.handles[h].ref.value))
  }

  ghost predicate AfterOk(s: State, h: nat, after: After, src: Option<nat>) {
    match after
    case Finish => src == None
    case Destroy => src == None
    case Store(raw, ref) =>
      && src.Some? && src.value != h && src.value in s.handles
      && s.handles[src.value].raw == raw && s.handles[src.value].ref == ref
    case Wrap(_) => src == None && h in s.handles && s.handles[h].kind == Active
  }

  ghost predicate TaskOk(s: State, k: Task) {
    match k
    case Idle => true
    case AtAdjust(h, src) =>
      && h !in s.registered && h in s.handles && s.handles[h].ref.Some? && Points(s, h, s.handles[h].ref.value)
      && src.Some? && src.value != h && src.value in s.handles && s.handles[src.value].ref == s.handles[h].ref
    case AtNull(h, src) =>
      h in s.handles && h !in s.registered && src.Some? && src.value != h && src.value in s.handles
    case AtSubtract(h, after, src) =>
      h in s.handles && s.handles[h].ref.Some? && Held(s, h, s.handles[h].ref.value) && AfterOk(s, h, after, src)
    case AtDelete(h, c, code, after, src) =>
      h !in s.registered && Points(s, h, c) && code != 0 && AfterOk(s, h, after, src)
    case AtFree(h, c, after, src) => h !in s.registered && Points(s, h, c) && AfterOk(s, h, after, src)
    case AtClear(h, after, src) => h !in s.registered && h in s.handles && AfterOk(s, h, after, src)
    case AtStore(h, after, src) => Null(s, h) && AfterOk(s, h, after, src) && (after.Store? || after.Wrap?)
  }

  /** While t2 writes a handle, t1 neither writes nor reads it. */
  ghost predicate Apart(k1: Task, k2: Task) {
    Target(k2).Some? ==> Target(k1) != Target(k2) && Source(k1) != Target(k2)
  }

  ghost predicate Tasks(s: State) {
    && (forall t :: t in s.threads ==> TaskOk(s, s.threads[t]))
    && (forall t1, t2 :: t1 in s.threads && t2 in s.threads && t1 != t2 ==> Apart(s.threads[t1], s.threads[t2]))
  }

  ghost predicate Handles(s: State) {
    && (forall h :: h in s.handles && !Written(s, h) ==> AtRest(s, h))
    && s.registered.Keys <= s.handles.Keys
  }

  ghost predicate Heap(s: State) {
    && (forall h :: h in s.registered ==> s.registered[h].counter in s.counters)
    && (forall c :: c in s.counters ==> s.counters[c].obj in s.objects)
    && (forall c1, c2 :: c1 in s.counters && c2 in s.counters && c1 != c2 ==> s.counters[c1].obj != s.counters[c2].obj)
  }

  /** The handles that counter c counts, by kind. */
  ghost function Counted(registered: map<nat, Registration>, c: nat, kind: Kind): set<nat> {
    set h | h in registered && registered[h] == Registration(c, kind)
  }

  ghost predicate CountsOk(s: State) {
    forall c :: c in s.counters ==>
      && s.counters[c].count.active == |Counted(s.registered, c, Active)|
      && s.counters[c].count.inactive == |Counted(s.registered, c, Inactive)|
  }

  ghost predicate WillDelete(k: Task, c: nat) {
    k.AtDelete? && k.counter == c
  }

  ghost predicate WillFree(k: Task, c: nat) {
    (k.AtFree? && k.counter == c) || (k.AtDelete? && k.counter == c && k.code == DELETE_REF_COUNTER)
  }

  /** The threads on their way to delete c's object. */
  ghost function Deleters(threads: map<nat, Task>, c: nat): set<nat> {
    set t | t in threads && WillDelete(threads[t], c)
  }

  /** The threads on their way to free c. */
  ghost function Freers(threads: map<nat, Task>, c: nat): set<nat> {
    set t | t in threads && WillFree(threads[t], c)
  }

  ghost function Bit(b: bool): int {
    if b then 1 else 0
  }

  /** Deletions done and pending are one once nobody active is left, none before; likewise frees. */
  ghost predicate PendingAt(s: State, c: nat)
    requires c in s.counters && s.counters[c].obj in s.objects
  {
    var cell := s.counters[c];
    && s.objects[cell.obj] + |Deleters(s.threads, c)| == Bit(cell.count.active == 0)
    && cell.frees + |Freers(s.threads, c)| == Bit(ShouldBeDeleted(cell.count))
  }

  ghost predicate PendingOk(s: State)
    requires Heap(s)
  {
    forall c :: c in s.counters ==> PendingAt(s, c)
  }

  ghost predicate Inv(s: State) {
    Tasks(s) && Handles(s) && Heap(s) && CountsOk(s) && PendingOk(s)
  }

  // ---------------------------------------------------------------- frames

  /** s' differs from s only in handle h, in new counters, and in counts, frees and deletions. */
  ghost predicate SameElsewhere(s: State, s': State, h: nat) {
    && (forall k :: k != h ==> (k in s.handles <==> k in s'.handles))
    && (forall k :: k != h && k in s.handles && k in s'.handles ==> s'.handles[k] == s.handles[k])
    && (forall k :: k != h ==> (k in s.registered <==> k in s'.registered))
    && (forall k :: k != h && k in s.registered && k in s'.registered ==> s'.registered[k] == s.registered[k])
    && (forall c :: c in s.counters ==> c in s'.counters && s'.counters[c].obj == s.counters[c].obj)
  }

  lemma TaskFrame(s: State, s': State, h: nat, k: Task)
    requires SameElsewhere(s, s', h) && TaskOk(s, k) && Target(k) != Some(h) && Source(k) != Some(h)
    ensures TaskOk(s', k)
  {}

  lemma RestFrame(s: State, s': State, h: nat, k: nat)
    requires SameElsewhere(s, s', h) && AtRest(s, k) && k != h
    ensures AtRest(s', k)
  {}

  /** No thread but t uses h. */
  ghost predicate Exclusive(s: State, t: nat, h: nat) {
    forall t2 :: t2 in s.threads && t2 != t ==> Target(s.threads[t2]) != Some(h) && Source(s.threads[t2]) != Some(h)
  }

  /** No thread writes src. */
  ghost predicate Readable(s: State, src: Option<nat>) {
    src.Some? ==> !Written(s, src.value)
  }

  /** Moving t from one task on h to another on h keeps the structural invariants. */
  lemma StepKeepsTasks(s: State, s': State, t: nat, h: nat, k: Task)
    requires Tasks(s) && t in s.threads && s'.threads == s.threads[t := k]
    requires SameElsewhere(s, s', h) && Exclusive(s, t, h)
    requires Target(k) == None || Target(k) == Some(h)
    requires forall t2 :: t2 in s.threads && t2 != t && Source(k).Some? ==> Target(s.threads[t2]) != Source(k)
    requires TaskOk(s', k)
    ensures Tasks(s')
  {
    hide TaskOk, SameElsewhere;
    forall t2 | t2 in s'.threads ensures TaskOk(s', s'.threads[t2]) {
      if t2 != t { TaskFrame(s, s', h, s.threads[t2]); }
    }
  }

  lemma StepKeepsHandles(s: State, s': State, t: nat, h: nat, k: Task)
    requires Handles(s) && t in s.threads && s'.threads == s.threads[t := k]
    requires SameElsewhere(s, s', h)
    requires Target(s.threads[t]) == None || Target(s.threads[t]) == Some(h)
    requires Target(k) == None && h in s'.handles ==> AtRest(s', h)
    requires Target(k) == None || Target(k) == Some(h)
    requires h in s'.registered ==> h in s'.handles
    ensures Handles(s')
  {
    hide AtRest;
    forall x | x in s'.handles && !Written(s', x) ensures AtRest(s', x) {
      if x == h {
        assert Target(s'.threads[t]) == Target(k);
      } else {
        forall t2 | t2 in s.threads ensures Target(s.threads[t2]) != Some(x) {
          if t2 != t { assert s'.threads[t2] == s.threads[t2]; }
        }
        RestFrame(s, s', h, x);
      }
    }
  }

  lemma CountedAdd(registered: map<nat, Registration>, h: nat, r: Registration, c: nat, kind: Kind)
    requires h !in registered
    ensures |Counted(registered[h := r], c, kind)| ==
            |Counted(registered, c, kind)| + Bit(r == Registration(c, kind))
  {
    if r == Registration(c, kind) {
      assert Counted(registered[h := r], c, kind) == Counted(registered, c, kind) + {h};
    } else {
      assert Counted(registered[h := r], c, kind) == Counted(registered, c, kind);
    }
  }

  lemma CountedRemove(registered: map<nat, Registration>, h: nat, c: nat, kind: Kind)
    requires h in registered
    ensures |Counted(registered - {h}, c, kind)| ==
            |Counted(registered, c, kind)| - Bit(registered[h] == Registration(c, kind))
  {
    if registered[h] == Registration(c, kind) {
      assert Counted(registered - {h}, c, kind) == Counted(registered, c, kind) - {h};
      assert h in Counted(registered, c, kind);
    } else {
      assert Counted(registered - {h}, c, kind) == Counted(registered, c, kind);
    }
  }

  lemma DeletersMove(threads: map<nat, Task>, t: nat, k: Task, c: nat)
    requires t in threads
    ensures |Deleters(threads[t := k], c)| ==
            |Deleters(threads, c)| - Bit(WillDelete(threads[t], c)) + Bit(WillDelete(k, c))
  {
    hide WillDelete;
    var d := Deleters(threads, c) - {t};
    assert Deleters(threads, c) == if WillDelete(threads[t], c) then d + {t} else d;
    assert Deleters(threads[t := k], c) == if WillDelete(k, c) then d + {t} else d;
  }

  lemma FreersMove(threads: map<nat, Task>, t: nat, k: Task, c: nat)
    requires t in threads
    ensures |Freers(threads[t := k], c)| ==
            |Freers(threads, c)| - Bit(WillFree(threads[t], c)) + Bit(WillFree(k, c))
  {
    hide WillFree;
    var f := Freers(threads, c) - {t};
    assert Freers(threads, c) == if WillFree(threads[t], c) then f + {t} else f;
    assert Freers(threads[t := k], c) == if WillFree(k, c) then f + {t} else f;
  }

  /** Pending work after t moves to k, counter by counter, given what the step did to the cell and its object. */
  lemma PendingMove(s: State, s': State, t: nat, k: Task, c: nat)
    requires Heap(s) && PendingOk(s) && t in s.threads && s'.threads == s.threads[t := k]
    requires c in s.counters && c in s'.counters && s'.counters[c].obj == s.counters[c].obj
             && s.counters[c].obj in s'.objects
    requires s'.objects[s.counters[c].obj] + Bit(s.counters[c].count.active == 0) + Bit(WillDelete(k, c)) ==
             s.objects[s.counters[c].obj] + Bit(s'.counters[c].count.active == 0) + Bit(WillDelete(s.threads[t], c))
    requires s'.counters[c].frees + Bit(ShouldBeDeleted(s.counters[c].count)) + Bit(WillFree(k, c)) ==
             s.counters[c].frees + Bit(ShouldBeDeleted(s'.counters[c].count)) + Bit(WillFree(s.threads[t], c))
    ensures PendingAt(s', c)
  {
    hide Deleters, Freers, WillDelete, WillFree, ShouldBeDeleted;
    assert PendingAt(s, c);
    DeletersMove(s.threads, t, k, c);
    FreersMove(s.threads, t, k, c);
  }

  /** What a running thread may rely on: its handle is its own and its source is not being written. */
  lemma Owns(s: State, t: nat)
    requires Tasks(s) && t in s.threads && !s.threads[t].Idle?
    ensures TaskOk(s, s.threads[t])
    ensures Exclusive(s, t, s.threads[t].h)
    ensures forall t2 :: t2 in s.threads && t2 != t && Source(s.threads[t]).Some? ==>
                           Target(s.threads[t2]) != Source(s.threads[t])
  {
    forall t2 | t2 in s.threads && t2 != t
      ensures Target(s.threads[t2]) != Some(s.threads[t].h) && Source(s.threads[t2]) != Some(s.threads[t].h)
      ensures Source(s.threads[t]).Some? ==> Target(s.threads[t2]) != Source(s.threads[t])
    {
      assert Apart(s.threads[t], s.threads[t2]) && Apart(s.threads[t2], s.threads[t]);
    }
  }

  /** A registered handle is counted, so its counter is neither dead in its kind nor freed. */
  lemma HeldIsCounted(s: State, h: nat, c: nat)
    requires Heap(s) && CountsOk(s) && PendingOk(s) && Held(s, h, c)
    ensures s.handles[h].kind == Active ==> s.counters[c].count.active > 0
    ensures s.handles[h].kind == Inactive ==> s.counters[c].count.inactive > 0
    ensures s.counters[c].frees == 0
  {
    assert PendingAt(s, c);
    assert h in Counted(s.registered, c, s.handles[h].kind);
  }

  /** The source of a copy is counted by the counter being copied. */
  lemma SourceIsHeld(s: State, t: nat)
    requires Inv(s) && t in s.threads && s.threads[t].AtAdjust?
    ensures TaskOk(s, s.threads[t]) && Held(s, s.threads[t].src.value, s.handles[s.threads[t].h].ref.value)
  {
    hide CountsOk, PendingOk, Heap;
    Owns(s, t);
    var src := s.threads[t].src.value;
    assert !Written(s, src);
    assert AtRest(s, src);
  }

  /** Every statement finds the handle and the heap cells it dereferences. */
  lemma InvIsReady(s: State, t: nat)
    requires Inv(s) && t in s.threads
    ensures Ready(s, s.threads[t])
  {
    hide CountsOk, PendingOk;
    var k := s.threads[t];
    if !k.Idle? { Owns(s, t); }
    if k.AtSubtract? { HeldIsCounted(s, k.h, s.handles[k.h].ref.value); }
  }

  // ---------------------------------------------------------------- each step keeps the invariant

  lemma InvParts(s: State)
    requires Tasks(s) && Handles(s) && Heap(s) && CountsOk(s) && PendingOk(s)
    ensures Inv(s)
  {}

  /** The structural half of a step of t on its own handle h. */
  lemma StepKeepsStructure(s: State, s': State, t: nat, h: nat, k: Task)
    requires Tasks(s) && Handles(s) && t in s.threads && s'.threads == s.threads[t := k]
    requires SameElsewhere(s, s', h) && Exclusive(s, t, h)
    requires Target(s.threads[t]) == None || Target(s.threads[t]) == Some(h)
    requires Target(k) == None || Target(k) == Some(h)
    requires forall t2 :: t2 in s.threads && t2 != t && Source(k).Some? ==> Target(s.threads[t2]) != Source(k)
    requires TaskOk(s', k)
    requires Target(k) == None && h in s'.handles ==> AtRest(s', h)
    requires h in s'.registered ==> h in s'.handles
    ensures Tasks(s') && Handles(s')
  {
    hide *;
    StepKeepsTasks(s, s', t, h, k);
    StepKeepsHandles(s, s', t, h, k);
  }

  lemma CountsFrame(s: State, s': State)
    requires CountsOk(s) && s'.registered == s.registered && s'.counters.Keys == s.counters.Keys
    requires forall c :: c in s.counters ==> s'.counters[c].count == s.counters[c].count
    ensures CountsOk(s')
  {}

  /** A running thread takes its next step on its handle, with the same source or none. */
  lemma StepOfOwner(s: State, s': State, t: nat, k: Task, k': Task)
    requires Tasks(s) && Handles(s) && t in s.threads && k == s.threads[t] && !k.Idle?
    requires s'.threads == s.threads[t := k'] && SameElsewhere(s, s', k.h)
    requires k'.Idle? || (k'.h == k.h && k'.src == k.src)
    requires TaskOk(s', k') && (k'.Idle? && k.h in s'.handles ==> AtRest(s', k.h))
    requires k.h in s'.registered ==> k.h in s'.handles
    ensures Tasks(s') && Handles(s')
  {
    hide Tasks, Handles, SameElsewhere, TaskOk, AtRest, Exclusive;
    Owns(s, t);
    StepKeepsStructure(s, s', t, k.h, k');
  }

  /** Only the registration of h may have changed. */
  lemma RegistrationFrame(s: State, s': State, h: nat)
    requires Heap(s) && s'.handles == s.handles && s'.counters.Keys == s.counters.Keys && s'.objects == s.objects
    requires forall c :: c in s.counters ==> s'.counters[c].obj == s.counters[c].obj
    requires s'.registered == s.registered - {h} || s'.registered == s.registered ||
             (h in s'.registered && s'.registered[h].counter in s.counters
                 && s'.registered == s.registered[h := s'.registered[h]])
    ensures SameElsewhere(s, s', h) && Heap(s')
  {}

  /** Counters keep their objects, and registrations stay on counters that exist. */
  lemma HeapFrame(s: State, s': State)
    requires Heap(s) && s'.counters.Keys == s.counters.Keys && s.objects.Keys <= s'.objects.Keys
    requires forall c :: c in s.counters ==> s'.counters[c].obj == s.counters[c].obj
    requires forall h :: h in s'.registered ==> s'.registered[h].counter in s.counters
    ensures Heap(s')
  {}

  /** The three places a thread may go after its counter call in ResetPtr. */
  ghost predicate Leaves(k: Task, h: nat, c: nat, after: After, src: Option<nat>) {
    || k == AtClear(h, after, src)
    || k == AtFree(h, c, after, src)
    || (k.AtDelete? && k.code != 0 && k == AtDelete(h, c, k.code, after, src))
  }

  lemma LeavingTaskOk(s: State, s': State, h: nat, c: nat, after: After, src: Option<nat>, k: Task)
    requires s'.handles == s.handles && s'.registered == s.registered - {h} && s'.counters.Keys == s.counters.Keys
    requires c in s.counters ==> s'.counters[c].obj == s.counters[c].obj
    requires Points(s, h, c) && AfterOk(s, h, after, src) && Leaves(k, h, c, after, src)
    ensures TaskOk(s', k) && !k.Idle? && k.h == h && k.src == src
  {}

  /** A step that touches no counter, object or registration, and is on its way to neither deletion nor free. */
  lemma QuietStep(s: State, s': State, t: nat, k: Task)
    requires Heap(s) && CountsOk(s) && PendingOk(s) && t in s.threads
    requires s' == s.(handles := s'.handles, threads := s.threads[t := k])
    requires forall c ::
               !WillDelete(s.threads[t], c) && !WillFree(s.threads[t], c) && !WillDelete(k, c) && !WillFree(k, c)
    ensures Heap(s') && CountsOk(s') && PendingOk(s')
  {
    hide CountsOk, WillDelete, WillFree, Deleters, Freers;
    forall c | c in s'.counters ensures PendingAt(s', c) {
      PendingMove(s, s', t, k, c);
    }
    CountsFrame(s, s');
  }

  /** The counter call adds the registration, or is refused because the object is already dead. */
  lemma AdjustMoves(s: State, t: nat, k: Task)
    requires t in s.threads && k == s.threads[t] && k.AtAdjust? && Ready(s, k)
    ensures var c := s.handles[k.h].ref.value;
            var s' := Adjust(s, t, k);
            && s'.objects == s.objects && s'.handles == s.handles && s'.counters.Keys == s.counters.Keys
            && (forall x :: x in s.counters ==> s'.counters[x].obj == s.counters[x].obj)
            && t in s'.threads && s'.threads == s.threads[t := s'.threads[t]]
            && (s'.threads[t] == Idle || s'.threads[t] == AtNull(k.h, k.src))
            && s'.registered == (if s'.threads[t].Idle? then s.registered[k.h := Registration(c, s.handles[k.h].kind)]
              else s.registered)
  {}

  /** Neither outcome brings a dead count back or takes a live one down. */
  lemma AdjustCodes(s: State, t: nat, k: Task, x: nat)
    requires t in s.threads && k == s.threads[t] && k.AtAdjust? && Ready(s, k) && x in s.counters
    ensures var s' := Adjust(s, t, k);
            && t in s'.threads && x in s'.counters && s'.counters[x].frees == s.counters[x].frees
            && Bit(s'.counters[x].count.active == 0) == Bit(s.counters[x].count.active == 0)
            && Bit(ShouldBeDeleted(s'.counters[x].count)) == Bit(ShouldBeDeleted(s.counters[x].count))
            && !WillDelete(k, x) && !WillFree(k, x) && !WillDelete(s'.threads[t], x) && !WillFree(s'.threads[t], x)
  {}

  lemma AdjustKeeps(s: State, t: nat, k: Task)
    requires Inv(s) && t in s.threads && k == s.threads[t] && k.AtAdjust? && Ready(s, k)
    ensures Inv(Adjust(s, t, k))
  {
    var s' := Adjust(s, t, k);
    AdjustKeepsStructure(s, t, k);
    AdjustKeepsCounts(s, t, k);
    AdjustMoves(s, t, k);
    hide Tasks, Handles, CountsOk, ShouldBeDeleted, PendingAt, Adjust, Ready, WillDelete, WillFree;
    forall x | x in s'.counters ensures PendingAt(s', x) {
      AdjustCodes(s, t, k, x);
      PendingMove(s, s', t, s'.threads[t], x);
    }
  }

  lemma AdjustKeepsStructure(s: State, t: nat, k: Task)
    requires Tasks(s) && Handles(s) && Heap(s) && t in s.threads && k == s.threads[t] && k.AtAdjust? && Ready(s, k)
    ensures var s' := Adjust(s, t, k); Tasks(s') && Handles(s') && Heap(s')
  {
    var s' := Adjust(s, t, k);
    AdjustMoves(s, t, k);
    hide Tasks, Handles, Heap, Adjust, Ready, SameElsewhere, Exclusive;
    Owns(s, t);
    RegistrationFrame(s, s', k.h);
    StepOfOwner(s, s', t, k, s'.threads[t]);
  }

  lemma AdjustKeepsCounts(s: State, t: nat, k: Task)
    requires Tasks(s) && CountsOk(s) && t in s.threads && k == s.threads[t] && k.AtAdjust? && Ready(s, k)
    ensures CountsOk(Adjust(s, t, k))
  {
    var c, kind := s.handles[k.h].ref.value, s.handles[k.h].kind;
    var s' := Adjust(s, t, k);
    Owns(s, t);
    hide Tasks, Counted, Exclusive;
    forall x | x in s'.counters
      ensures s'.counters[x].count.active == |Counted(s'.registered, x, Active)|
      ensures s'.counters[x].count.inactive == |Counted(s'.registered, x, Inactive)|
    {
      CountedAdd(s.registered, k.h, Registration(c, kind), x, Active);
      CountedAdd(s.registered, k.h, Registration(c, kind), x, Inactive);
    }
  }

  /** The counter call drops the registration and decides where the thread goes next. */
  lemma SubtractMoves(s: State, t: nat, k: Task)
    requires t in s.threads && k == s.threads[t] && k.AtSubtract? && Ready(s, k)
    ensures var c := s.handles[k.h].ref.value;
            var s' := Subtract(s, t, k);
            && s'.objects == s.objects && s'.handles == s.handles && s'.counters.Keys == s.counters.Keys
            && (forall x :: x in s.counters ==> s'.counters[x].obj == s.counters[x].obj)
            && s'.registered == s.registered - {k.h}
            && t in s'.threads && s'.threads == s.threads[t := s'.threads[t]]
            && Leaves(s'.threads[t], k.h, c, k.after, k.src)
  {}

  /** The code the counter returns announces exactly the work that the new count calls for. */
  lemma SubtractCodes(s: State, t: nat, k: Task, x: nat)
    requires t in s.threads && k == s.threads[t] && k.AtSubtract? && Ready(s, k) && x in s.counters
    ensures var s' := Subtract(s, t, k);
            && t in s'.threads && x in s'.counters && s'.counters[x].frees == s.counters[x].frees
            && Bit(s'.counters[x].count.active == 0)
               == Bit(s.counters[x].count.active == 0) + Bit(WillDelete(s'.threads[t], x))
            && Bit(ShouldBeDeleted(s'.counters[x].count)) ==
               Bit(ShouldBeDeleted(s.counters[x].count)) + Bit(WillFree(s'.threads[t], x))
            && !WillDelete(k, x) && !WillFree(k, x)
  {}

  lemma SubtractKeeps(s: State, t: nat, k: Task)
    requires Inv(s) && t in s.threads && k == s.threads[t] && k.AtSubtract? && Ready(s, k)
    ensures Inv(Subtract(s, t, k))
  {
    var s' := Subtract(s, t, k);
    SubtractKeepsStructure(s, t, k);
    SubtractKeepsCounts(s, t, k);
    SubtractMoves(s, t, k);
    hide Tasks, Handles, CountsOk, ShouldBeDeleted, PendingAt, Ready, Subtract, WillDelete, WillFree, Leaves;
    forall x | x in s'.counters ensures PendingAt(s', x) {
      SubtractCodes(s, t, k, x);
      PendingMove(s, s', t, s'.threads[t], x);
    }
  }

  lemma SubtractKeepsStructure(s: State, t: nat, k: Task)
    requires Tasks(s) && Handles(s) && Heap(s) && t in s.threads && k == s.threads[t] && k.AtSubtract? && Ready(s, k)
    ensures var s' := Subtract(s, t, k); Tasks(s') && Handles(s') && Heap(s')
  {
    var s' := Subtract(s, t, k);
    SubtractMoves(s, t, k);
    hide Tasks, Handles, Heap, Subtract, Ready, SameElsewhere, Exclusive, Leaves;
    Owns(s, t);
    RegistrationFrame(s, s', k.h);
    LeavingTaskOk(s, s', k.h, s.handles[k.h].ref.value, k.after, k.src, s'.threads[t]);
    StepOfOwner(s, s', t, k, s'.threads[t]);
  }

  lemma SubtractKeepsCounts(s: State, t: nat, k: Task)
    requires Tasks(s) && CountsOk(s) && t in s.threads && k == s.threads[t] && k.AtSubtract? && Ready(s, k)
    ensures CountsOk(Subtract(s, t, k))
  {
    var s' := Subtract(s, t, k);
    Owns(s, t);
    hide Tasks, Counted, Exclusive;
    forall x | x in s'.counters
      ensures s'.counters[x].count.active == |Counted(s'.registered, x, Active)|
      ensures s'.counters[x].count.inactive == |Counted(s'.registered, x, Inactive)|
    {
      CountedRemove(s.registered, k.h, x, Active);
      CountedRemove(s.registered, k.h, x, Inactive);
    }
  }

  /** A pending deletion is the only one for its object and has not happened yet; likewise a pending free. */
  lemma PendingIsUnique(s: State, t: nat, c: nat)
    requires Heap(s) && PendingOk(s) && t in s.threads && c in s.counters
    ensures WillDelete(s.threads[t], c) ==>
              s.objects[s.counters[c].obj] == 0 && s.counters[c].count.active == 0 && Deleters(s.threads, c) == {t}
    ensures WillFree(s.threads[t], c) ==>
              s.counters[c].frees == 0 && ShouldBeDeleted(s.counters[c].count) && Freers(s.threads, c) == {t}
  {
    assert PendingAt(s, c);
    if WillDelete(s.threads[t], c) {
      assert t in Deleters(s.threads, c);
      assert |Deleters(s.threads, c) - {t}| == 0;
    }
    if WillFree(s.threads[t], c) {
      assert t in Freers(s.threads, c);
      assert |Freers(s.threads, c) - {t}| == 0;
    }
  }

  lemma DeleteMoves(s: State, t: nat, k: Task)
    requires t in s.threads && k == s.threads[t] && k.AtDelete? && Ready(s, k)
    ensures var s' := Delete(s, t, k);
            && s'.counters == s.counters && s'.handles == s.handles && s'.registered == s.registered
            && s'.objects.Keys == s.objects.Keys && t in s'.threads && s'.threads == s.threads[t := s'.threads[t]]
            && (s'.threads[t] == AtClear(k.h, k.after, k.src)
              || s'.threads[t] == AtFree(k.h, k.counter, k.after, k.src))
  {}

  /** The pending deletion is carried out, on this object only. */
  lemma DeleteCodes(s: State, t: nat, k: Task, x: nat)
    requires Heap(s) && t in s.threads && k == s.threads[t] && k.AtDelete? && Ready(s, k) && x in s.counters
    requires Points(s, k.h, k.counter)
    ensures var s' := Delete(s, t, k);
            && t in s'.threads && s'.objects.Keys == s.objects.Keys
            && s'.objects[s.counters[x].obj] + Bit(WillDelete(s'.threads[t], x)) ==
               s.objects[s.counters[x].obj] + Bit(WillDelete(k, x))
            && Bit(WillFree(s'.threads[t], x)) == Bit(WillFree(k, x))
  {}

  lemma DeleteKeeps(s: State, t: nat, k: Task)
    requires Inv(s) && t in s.threads && k == s.threads[t] && k.AtDelete? && Ready(s, k)
    ensures Inv(Delete(s, t, k))
  {
    var s' := Delete(s, t, k);
    assert Tasks(s) && Handles(s) && Heap(s) && CountsOk(s) && PendingOk(s);
    hide Inv, Tasks, Handles, CountsOk, Exclusive, Delete, Ready, WillDelete, WillFree, PendingAt, ShouldBeDeleted;
    Owns(s, t);
    DeleteMoves(s, t, k);
    DeleteKeepsStructure(s, t, k);
    forall x | x in s'.counters ensures PendingAt(s', x) {
      DeleteCodes(s, t, k, x);
      PendingMove(s, s', t, s'.threads[t], x);
    }
    CountsFrame(s, s');
    InvParts(s');
  }

  lemma DeleteKeepsStructure(s: State, t: nat, k: Task)
    requires Tasks(s) && Handles(s) && Heap(s) && t in s.threads && k == s.threads[t] && k.AtDelete? && Ready(s, k)
    ensures var s' := Delete(s, t, k); Tasks(s') && Handles(s') && Heap(s')
  {
    var s' := Delete(s, t, k);
    hide Tasks, Handles, Exclusive, Delete, Ready;
    Owns(s, t);
    DeleteMoves(s, t, k);
    HeapFrame(s, s');
    hide Heap;
    assert SameElsewhere(s, s', k.h);
    hide SameElsewhere;
    StepOfOwner(s, s', t, k, s'.threads[t]);
  }

  lemma FreeMoves(s: State, t: nat, k: Task)
    requires t in s.threads && k == s.threads[t] && k.AtFree? && Ready(s, k)
    ensures var s' := Free(s, t, k);
            && s'.objects == s.objects && s'.handles == s.handles && s'.registered == s.registered
            && s'.counters.Keys == s.counters.Keys && s'.threads == s.threads[t := AtClear(k.h, k.after, k.src)]
            && (forall x :: x in s.counters ==>
                  s'.counters[x].obj == s.counters[x].obj && s'.counters[x].count == s.counters[x].count)
  {}

  /** The pending free is carried out, on this counter only. */
  lemma FreeCodes(s: State, t: nat, k: Task, x: nat)
    requires t in s.threads && k == s.threads[t] && k.AtFree? && Ready(s, k) && x in s.counters
    requires Points(s, k.h, k.counter)
    ensures var s' := Free(s, t, k);
            && x in s'.counters && !WillDelete(k, x)
            && s'.counters[x].frees == s.counters[x].frees + Bit(WillFree(k, x))
            && !WillDelete(AtClear(k.h, k.after, k.src), x) && !WillFree(AtClear(k.h, k.after, k.src), x)
  {}

  lemma FreeKeeps(s: State, t: nat, k: Task)
    requires Inv(s) && t in s.threads && k == s.threads[t] && k.AtFree? && Ready(s, k)
    ensures Inv(Free(s, t, k))
  {
    var s' := Free(s, t, k);
    assert Tasks(s) && Handles(s) && Heap(s) && CountsOk(s) && PendingOk(s);
    hide Inv, Tasks, Handles, CountsOk, Exclusive, Free, Ready, WillDelete, WillFree, PendingAt, ShouldBeDeleted;
    Owns(s, t);
    FreeMoves(s, t, k);
    FreeKeepsStructure(s, t, k);
    forall x | x in s'.counters ensures PendingAt(s', x) {
      FreeCodes(s, t, k, x);
      PendingMove(s, s', t, AtClear(k.h, k.after, k.src), x);
    }
    CountsFrame(s, s');
    InvParts(s');
  }

  lemma FreeKeepsStructure(s: State, t: nat, k: Task)
    requires Tasks(s) && Handles(s) && Heap(s) && t in s.threads && k == s.threads[t] && k.AtFree? && Ready(s, k)
    ensures var s' := Free(s, t, k); Tasks(s') && Handles(s') && Heap(s')
  {
    var s' := Free(s, t, k);
    hide Tasks, Handles, Exclusive, Free, Ready;
    Owns(s, t);
    FreeMoves(s, t, k);
    HeapFrame(s, s');
    hide Heap;
    assert SameElsewhere(s, s', k.h);
    hide SameElsewhere;
    StepOfOwner(s, s', t, k, s'.threads[t]);
  }

  lemma IsNotBusy(s: State, t: nat, h: nat)
    requires !Busy(s, h)
    ensures Exclusive(s, t, h) && !Written(s, h)
  {}

  lemma FreshIsExclusive(s: State, t: nat, h: nat)
    requires Tasks(s) && h !in s.handles
    ensures Exclusive(s, t, h)
  {
    forall t2 | t2 in s.threads
      ensures Target(s.threads[t2]) != Some(h) && Source(s.threads[t2]) != Some(h)
    {
      assert TaskOk(s, s.threads[t2]);
    }
  }

  /** Nulling the fields of an unregistered handle that t is writing, before t moves on. */
  lemma FieldsKeep(s: State, t: nat, h: nat)
    requires Inv(s) && t in s.threads && (s.threads[t].AtClear? || s.threads[t].AtNull?) && s.threads[t].h == h
             && h in s.handles
    ensures Inv(Fields(s, h, None, None)) && Null(Fields(s, h, None, None), h)
    ensures TaskOk(Fields(s, h, None, None), s.threads[t])
  {
    var s', k := Fields(s, h, None, None), s.threads[t];
    hide Heap, CountsOk, PendingOk;
    Owns(s, t);
    assert s'.threads == s.threads[t := k];
    assert s' == s.(handles := s'.handles, threads := s.threads[t := k]);
    QuietStep(s, s', t, k);
    hide Tasks, Handles, Exclusive;
    StepKeepsStructure(s, s', t, h, k);
  }

  lemma AfterResetMoves(s: State, t: nat, h: nat, after: After, src: Option<nat>)
    requires Null(s, h) && AfterOk(s, h, after, src)
    ensures var s' := AfterReset(s, t, h, after, src);
            && t in s'.threads && s' == s.(handles := s'.handles, threads := s.threads[t := s'.threads[t]])
            && (s'.threads[t] == Idle || s'.threads[t] == AtStore(h, after, src))
            && SameElsewhere(s, s', h) && TaskOk(s', s'.threads[t])
            && (s'.threads[t].Idle? && h in s'.handles ==> AtRest(s', h)) && h !in s'.registered
  {}

  /** What t does after ResetPtr, whether or not there was anything to reset. */
  lemma AfterResetKeeps(s: State, t: nat, h: nat, after: After, src: Option<nat>)
    requires Inv(s) && t in s.threads && Exclusive(s, t, h) && Null(s, h) && AfterOk(s, h, after, src)
    requires s.threads[t].Idle? || (s.threads[t].AtClear? && s.threads[t].h == h)
    requires Readable(s, src)
    ensures Inv(AfterReset(s, t, h, after, src))
  {
    var s' := AfterReset(s, t, h, after, src);
    AfterResetMoves(s, t, h, after, src);
    var k' := s'.threads[t];
    assert Tasks(s) && Handles(s) && Heap(s) && CountsOk(s) && PendingOk(s);
    hide Inv, Tasks, Handles, Exclusive, Heap, CountsOk, PendingOk, SameElsewhere, TaskOk, AtRest, AfterReset, AfterOk,
      Null;
    hide Readable;
    assert Readable(s, Source(k')) by { NoSource(s); }
    ReadableSource(s, t, k');
    QuietStep(s, s', t, k');
    StepKeepsStructure(s, s', t, h, k');
    InvParts(s');
  }

  /** t, idle so far, enters ResetPtr on a handle nobody uses. */
  lemma StartResetKeeps(s: State, t: nat, h: nat, after: After, src: Option<nat>)
    requires Inv(s) && t in s.threads && s.threads[t].Idle? && h in s.handles && !Busy(s, h)
    requires AfterOk(s, h, after, src) && Readable(s, src)
    ensures Inv(StartReset(s, t, h, after, src))
  {
    IsNotBusy(s, t, h);
    assert AtRest(s, h) by { hide Tasks, Heap, CountsOk, PendingOk, AtRest; }
    hide Exclusive, Busy, Written, AfterReset;
    if s.handles[h].ref.Some? {
      hide Inv, Readable;
      SubtractIsNext(s, t, h, after, src);
    } else {
      AfterResetKeeps(s, t, h, after, src);
    }
  }

  lemma SubtractIsNext(s: State, t: nat, h: nat, after: After, src: Option<nat>)
    requires Inv(s) && t in s.threads && s.threads[t].Idle? && Exclusive(s, t, h)
    requires h in s.handles && s.handles[h].ref.Some? && Held(s, h, s.handles[h].ref.value)
    requires AfterOk(s, h, after, src) && Readable(s, src)
    ensures Inv(Go(s, t, AtSubtract(h, after, src)))
  {
    var k' := AtSubtract(h, after, src);
    var s' := Go(s, t, k');
    assert Tasks(s) && Handles(s) && Heap(s) && CountsOk(s) && PendingOk(s);
    hide Inv, Tasks, Handles, Exclusive, Heap, CountsOk, PendingOk, SameElsewhere, TaskOk, Held, AfterOk, Readable;
    GoIsSame(s, t, h, after, src);
    ReadableSource(s, t, k');
    QuietStep(s, s', t, k');
    StepKeepsStructure(s, s', t, h, k');
    InvParts(s');
  }

  lemma GoIsSame(s: State, t: nat, h: nat, after: After, src: Option<nat>)
    requires h in s.handles && s.handles[h].ref.Some? && Held(s, h, s.handles[h].ref.value) && AfterOk(s, h, after, src)
    ensures var s' := Go(s, t, AtSubtract(h, after, src));
            SameElsewhere(s, s', h) && TaskOk(s', AtSubtract(h, after, src)) && (h in s'.registered ==> h in s'.handles)
  {}

  lemma NoSource(s: State)
    ensures Readable(s, None)
  {}

  lemma ReadableSource(s: State, t: nat, k: Task)
    requires Readable(s, Source(k))
    ensures forall t2 :: t2 in s.threads && t2 != t && Source(k).Some? ==> Target(s.threads[t2]) != Source(k)
  {}

  lemma StoreMoves(s: State, t: nat, k: Task, raw: Option<nat>, ref: Option<nat>, k': Task)
    requires k.AtStore? && k.after == Store(raw, ref) && k.h in s.handles && t in s.threads
    requires TaskOk(s, k) && AtRest(s, k.src.value)
    requires k' == if ref.Some? then AtAdjust(k.h, k.src) else Idle
    ensures var s' := Go(Fields(s, k.h, raw, ref), t, k');
            && s' == s.(handles := s'.handles, threads := s.threads[t := k'])
            && SameElsewhere(s, s', k.h) && TaskOk(s', k')
            && (k'.Idle? && k.h in s'.handles ==> AtRest(s', k.h)) && k.h !in s'.registered
  {}

  lemma StoreKeeps(s: State, t: nat, k: Task, raw: Option<nat>, ref: Option<nat>)
    requires Inv(s) && t in s.threads && k == s.threads[t] && k.AtStore? && k.after == Store(raw, ref)
             && k.h in s.handles
    ensures Inv(Go(Fields(s, k.h, raw, ref), t, if ref.Some? then AtAdjust(k.h, k.src) else Idle))
  {
    var k' := if ref.Some? then AtAdjust(k.h, k.src) else Idle;
    var s' := Go(Fields(s, k.h, raw, ref), t, k');
    assert Tasks(s) && Handles(s) && Heap(s) && CountsOk(s) && PendingOk(s);
    hide Inv, Tasks, Handles, Heap, CountsOk, PendingOk, TaskOk, AtRest, SameElsewhere, Fields;
    SourceAtRest(s, t);
    StoreMoves(s, t, k, raw, ref, k');
    QuietStep(s, s', t, k');
    StepOfOwner(s, s', t, k, k');
    InvParts(s');
  }

  lemma SourceAtRest(s: State, t: nat)
    requires Tasks(s) && Handles(s) && t in s.threads && s.threads[t].AtStore? && s.threads[t].after.Store?
    ensures TaskOk(s, s.threads[t]) && AtRest(s, s.threads[t].src.value)
  {
    hide AtRest;
    Owns(s, t);
    assert !Written(s, s.threads[t].src.value);
  }

  lemma WrapMoves(s: State, t: nat, h: nat, obj: Option<nat>, counter: nat)
    requires Null(s, h) && s.handles[h].kind == Active && (obj.Some? ==> counter !in s.counters)
    ensures var s' := Go(WrapObject(s, h, obj, counter), t, Idle);
            SameElsewhere(s, s', h) && AtRest(s', h) && (h in s'.registered ==> h in s'.handles)
  {
    var s' := Go(WrapObject(s, h, obj, counter), t, Idle);
    if obj.Some? {
      assert Held(s', h, counter);
    } else {
      assert Null(s', h);
    }
  }

  /** A new counter for a fresh object, held by the one handle h. */
  lemma WrapKeeps(s: State, t: nat, h: nat, obj: Option<nat>, counter: nat)
    requires Inv(s) && t in s.threads && Exclusive(s, t, h) && Null(s, h) && s.handles[h].kind == Active
    requires s.threads[t].Idle? || (s.threads[t].AtStore? && s.threads[t].h == h)
    requires obj.Some? ==> counter !in s.counters && obj.value !in s.objects
    ensures Inv(Go(WrapObject(s, h, obj, counter), t, Idle))
  {
    var s' := Go(WrapObject(s, h, obj, counter), t, Idle);
    assert Tasks(s) && Handles(s) && Heap(s);
    hide Tasks, Handles, Exclusive, Heap, CountsOk, PendingOk, SameElsewhere, AtRest;
    WrapMoves(s, t, h, obj, counter);
    if obj.Some? {
      WrapKeepsHeap(s, t, h, obj.value, counter);
      WrapKeepsCounts(s, t, h, obj.value, counter);
      WrapKeepsPending(s, t, h, obj.value, counter);
    } else {
      QuietStep(s, s', t, Idle);
    }
    hide Inv, Null, WrapObject;
    assert Tasks(s') && Handles(s') by {
      assert s'.threads == s.threads[t := Idle];
      StepKeepsStructure(s, s', t, h, Idle);
    }
    assert Inv(s') by { assert Tasks(s') && Handles(s') && Heap(s') && CountsOk(s') && PendingOk(s'); InvParts(s'); }
  }

  lemma WrapKeepsHeap(s: State, t: nat, h: nat, o: nat, counter: nat)
    requires Heap(s) && h in s.handles && counter !in s.counters && o !in s.objects
    ensures Heap(Go(WrapObject(s, h, Some(o), counter), t, Idle))
  {}

  lemma WrapKeepsCounts(s: State, t: nat, h: nat, o: nat, counter: nat)
    requires Heap(s) && CountsOk(s) && Null(s, h) && counter !in s.counters
    ensures CountsOk(Go(WrapObject(s, h, Some(o), counter), t, Idle))
  {
    var s' := Go(WrapObject(s, h, Some(o), counter), t, Idle);
    assert Counted(s.registered, counter, Active) == {} && Counted(s.registered, counter, Inactive) == {};
    hide Counted, Heap;
    forall x | x in s'.counters
      ensures s'.counters[x].count.active == |Counted(s'.registered, x, Active)|
      ensures s'.counters[x].count.inactive == |Counted(s'.registered, x, Inactive)|
    {
      CountedAdd(s.registered, h, Registration(counter, Active), x, Active);
      CountedAdd(s.registered, h, Registration(counter, Active), x, Inactive);
    }
  }

  lemma WrapKeepsPending(s: State, t: nat, h: nat, o: nat, counter: nat)
    requires Tasks(s) && Heap(s) && PendingOk(s) && t in s.threads && h in s.handles
    requires s.threads[t].Idle? || s.threads[t].AtStore?
    requires counter !in s.counters && o !in s.objects
    requires Heap(Go(WrapObject(s, h, Some(o), counter), t, Idle))
    ensures PendingOk(Go(WrapObject(s, h, Some(o), counter), t, Idle))
  {
    var s' := Go(WrapObject(s, h, Some(o), counter), t, Idle);
    NobodyPending(s, counter);
    hide Tasks, Deleters, Freers;
    forall x | x in s'.counters ensures PendingAt(s', x) {
      if x == counter {
        DeletersMove(s.threads, t, Idle, counter);
        FreersMove(s.threads, t, Idle, counter);
      } else {
        PendingMove(s, s', t, Idle, x);
      }
    }
  }

  /** No thread is on its way to delete or free what is not there. */
  lemma NobodyPending(s: State, c: nat)
    requires Tasks(s) && c !in s.counters
    ensures Deleters(s.threads, c) == {} && Freers(s.threads, c) == {}
  {
    forall t | t in s.threads ensures !WillDelete(s.threads[t], c) && !WillFree(s.threads[t], c) {
      assert TaskOk(s, s.threads[t]);
    }
  }

  lemma NullMoves(s: State, t: nat, h: nat)
    requires Null(s, h)
    ensures SameElsewhere(s, Go(s, t, Idle), h) && AtRest(Go(s, t, Idle), h) && h !in s.registered
  {}

  lemma NullKeeps(s: State, t: nat)
    requires Inv(s) && t in s.threads && s.threads[t].AtNull? && s.threads[t].h in s.handles
    ensures Inv(Go(Fields(s, s.threads[t].h, None, None), t, Idle))
  {
    var k := s.threads[t];
    hide Inv;
    FieldsKeep(s, t, k.h);
    var s1 := Fields(s, k.h, None, None);
    var s' := Go(s1, t, Idle);
    assert t in s1.threads && s1.threads[t] == k;
    hide Fields, Null, SameElsewhere, AtRest, Tasks, Handles, Heap, CountsOk, PendingOk;
    assert Tasks(s1) && Handles(s1) && Heap(s1) && CountsOk(s1) && PendingOk(s1) by { PartsOfInv(s1); }
    NullMoves(s1, t, k.h);
    QuietStep(s1, s', t, Idle);
    StepOfOwner(s1, s', t, k, Idle);
    InvParts(s');
  }

  lemma PartsOfInv(s: State)
    requires Inv(s)
    ensures Tasks(s) && Handles(s) && Heap(s) && CountsOk(s) && PendingOk(s)
  {}

  lemma ClearKeeps(s: State, t: nat)
    requires Inv(s) && t in s.threads && s.threads[t].AtClear? && s.threads[t].h in s.handles
    ensures var k := s.threads[t]; Inv(AfterReset(Fields(s, k.h, None, None), t, k.h, k.after, k.src))
  {
    var k := s.threads[t];
    FieldsKeep(s, t, k.h);
    var s1 := Fields(s, k.h, None, None);
    assert Exclusive(s1, t, k.h) && Readable(s1, k.src) && AfterOk(s1, k.h, k.after, k.src) by {
      hide Handles, Heap, CountsOk, PendingOk;
      Owns(s1, t);
    }
    hide *;
    AfterResetKeeps(s1, t, k.h, k.after, k.src);
  }

  lemma WrapStepKeeps(s: State, t: nat, counter: nat)
    requires Inv(s) && Enabled(s, Continue(t, counter)) && s.threads[t].AtStore? && s.threads[t].after.Wrap?
    ensures s.threads[t].h in s.handles
            && Inv(Go(WrapObject(s, s.threads[t].h, s.threads[t].after.obj, counter), t, Idle))
  {
    var k := s.threads[t];
    assert Tasks(s);
    hide Inv, Tasks;
    Owns(s, t);
    hide Exclusive;
    WrapKeeps(s, t, k.h, k.after.obj, counter);
  }

  lemma ContinueKeeps(s: State, t: nat, counter: nat)
    requires Inv(s) && Enabled(s, Continue(t, counter)) && Ready(s, s.threads[t])
    ensures Inv(Run1(s, t, s.threads[t], counter))
  {
    var k := s.threads[t];
    assert TaskOk(s, k);
    assert k.AtStore? ==> k.after.Store? || k.after.Wrap?;
    hide Inv, TaskOk, Adjust, Subtract, Delete, Free, Fields, AfterReset, WrapObject;
    match k
    case Idle =>
    case AtAdjust(_, _) => AdjustKeeps(s, t, k);
    case AtNull(_, _) => NullKeeps(s, t);
    case AtSubtract(_, _, _) => SubtractKeeps(s, t, k);
    case AtDelete(_, _, _, _, _) => DeleteKeeps(s, t, k);
    case AtFree(_, _, _, _) => FreeKeeps(s, t, k);
    case AtClear(_, _, _) => ClearKeeps(s, t);
    case AtStore(_, after, _) =>
      if after.Store? { StoreKeeps(s, t, k, after.raw, after.ref); } else { WrapStepKeeps(s, t, counter); }
  }

  lemma NewMoves(s: State, t: nat, h: nat, kind: Kind)
    requires h !in s.handles && h !in s.registered && t in s.threads && s.threads[t].Idle?
    ensures var s' := s.(handles := s.handles[h := Handle(kind, None, None)]);
            SameElsewhere(s, s', h) && Null(s', h) && AtRest(s', h) && s'.threads == s.threads[t := Idle]
  {}

  /** A handle that starts out NULL. */
  lemma NewKeeps(s: State, t: nat, h: nat, kind: Kind)
    requires Inv(s) && t in s.threads && s.threads[t].Idle? && h !in s.handles
    ensures var s' := s.(handles := s.handles[h := Handle(kind, None, None)]);
            Inv(s') && Null(s', h) && Exclusive(s', t, h)
  {
    var s' := s.(handles := s.handles[h := Handle(kind, None, None)]);
    assert Tasks(s) && Handles(s) && Heap(s) && CountsOk(s) && PendingOk(s) && h !in s.registered;
    hide Inv, Tasks, Handles, Heap, CountsOk, PendingOk, Exclusive, SameElsewhere, AtRest, Null;
    NewMoves(s, t, h, kind);
    FreshIsExclusive(s, t, h);
    QuietStep(s, s', t, Idle);
    StepKeepsStructure(s, s', t, h, Idle);
    ExclusiveFrame(s, s', t, h);
    InvParts(s');
  }

  lemma ExclusiveFrame(s: State, s': State, t: nat, h: nat)
    requires Exclusive(s, t, h) && s'.threads == s.threads
    ensures Exclusive(s', t, h)
  {}

  lemma CopyMoves(s: State, t: nat, h: nat, kind: Kind, src: nat, k': Task)
    requires AtRest(s, src) && src != h && h !in s.handles && h !in s.registered
    requires k' == if s.handles[src].ref.Some? then AtAdjust(h, Some(src)) else Idle
    ensures var s' := Go(s.(handles := s.handles[h := Handle(kind, s.handles[src].raw, s.handles[src].ref)]), t, k');
            SameElsewhere(s, s', h) && TaskOk(s', k') && (k'.Idle? ==> AtRest(s', h))
  {}

  lemma CopyKeeps(s: State, t: nat, h: nat, kind: Kind, src: nat)
    requires Inv(s) && Enabled(s, Copy(t, h, kind, src))
    ensures Inv(Next(s, Copy(t, h, kind, src)))
  {
    var s' := Next(s, Copy(t, h, kind, src));
    var k' := if s.handles[src].ref.Some? then AtAdjust(h, Some(src)) else Idle;
    assert AtRest(s, src) && h !in s.registered by { hide Tasks, Heap, CountsOk, PendingOk, AtRest; }
    assert forall t2 :: t2 in s.threads ==> Target(s.threads[t2]) != Some(src) by { hide Inv; }
    hide Tasks, Handles, Heap, CountsOk, PendingOk, Exclusive, AtRest, Written, Busy;
    assert s.threads[t := Idle] == s.threads;
    assert s' == Go(s.(handles := s.handles[h := Handle(kind, s.handles[src].raw, s.handles[src].ref)]), t, k');
    FreshIsExclusive(s, t, h);
    QuietStep(s, s', t, k');
    hide Next, Enabled, SameElsewhere, TaskOk;
    CopyMoves(s, t, h, kind, src, k');
    StepKeepsStructure(s, s', t, h, k');
  }

  lemma AssignKeeps(s: State, t: nat, h: nat, src: nat)
    requires Inv(s) && Enabled(s, Assign(t, h, src))
    ensures Inv(Next(s, Assign(t, h, src)))
  {
    hide Inv, StartReset;
    var from := s.handles[src];
    if s.handles[h].ref != from.ref {
      StartResetKeeps(s, t, h, Store(from.raw, from.ref), Some(src));
    }
  }

  /** Every step that callers may take keeps the invariant, and none dereferences anything missing. */
  lemma NextKeeps(s: State, e: Event)
    requires Inv(s) && Enabled(s, e)
    ensures Ready(s, s.threads[e.t]) && Inv(Next(s, e))
  {
    InvIsReady(s, e.t);
    hide Inv, StartReset, WrapObject, Run1, Busy, Written;
    match e
    case NewActive(t, h, obj, counter) =>
      NewKeeps(s, t, h, Active);
      var s1 := s.(handles := s.handles[h := Handle(Active, None, None)]);
      WrapKeeps(s1, t, h, obj, counter);
      GoNowhere(WrapObject(s1, h, obj, counter), s1, t, h, obj, counter);
    case NewInactive(t, h) => NewKeeps(s, t, h, Inactive);
    case Copy(t, h, kind, src) => CopyKeeps(s, t, h, kind, src);
    case Assign(t, h, src) => AssignKeeps(s, t, h, src);
    case AssignRaw(t, h, obj) => StartResetKeeps(s, t, h, Wrap(obj), None);
    case Reset(t, h) => StartResetKeeps(s, t, h, Finish, None);
    case Drop(t, h) => StartResetKeeps(s, t, h, Destroy, None);
    case Continue(t, counter) => ContinueKeeps(s, t, counter);
  }

  lemma GoNowhere(s': State, s: State, t: nat, h: nat, obj: Option<nat>, counter: nat)
    requires h in s.handles && s' == WrapObject(s, h, obj, counter) && t in s.threads && s.threads[t].Idle?
    ensures Go(s', t, Idle) == s'
  {
    assert s'.threads[t := Idle] == s'.threads;
  }
}
