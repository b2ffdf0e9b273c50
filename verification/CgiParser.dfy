/** The form parser working in place: decoded strings in one storage array, fields pointing into it. */
module CgiParser {
  import opened Bytes
  import opened CgiForm
  import opened CgiLimits
  import opened CStrings
  import opened Wrappers

  // ---------------------------------------------------------------- where the strings are

  /** The beginnings of names and values, in order. */
  function Starts(fs: seq<Field>): seq<nat> {
    if fs == [] then [] else
    [fs[0].name] + (if fs[0].value.Some? then [fs[0].value.value] else []) + Starts(fs[1..])
  }

  lemma {:induction false} StartsAppend(fs: seq<Field>, f: Field)
    ensures Starts(fs + [f]) == Starts(fs) + Starts([f])
  {
    if fs == [] {
      assert fs + [f] == [f];
    } else {
      assert (fs + [f])[1..] == fs[1..] + [f];
      StartsAppend(fs[1..], f);
    }
  }

  /** Every string but the first begins behind a NUL, and each behind the ones before it. */
  ghost predicate Laid(storage: seq<byte>, starts: seq<nat>) {
    && (forall i, j :: 0 <= i < j < |starts| ==> starts[i] < starts[j])
    && (forall i :: 0 <= i < |starts| ==> starts[i] <= |storage|)
    && (forall i :: 0 < i < |starts| ==> starts[i] > 0 && storage[starts[i] - 1] == NUL)
  }

  /** The next string can begin at the end of the storage. */
  ghost predicate Fresh(storage: seq<byte>, starts: seq<nat>) {
    starts != [] ==>
      && storage != [] && storage[|storage| - 1] == NUL
      && forall i :: 0 <= i < |starts| ==> starts[i] < |storage|
  }

  ghost predicate LaidOut(st: State) {
    && CgiForm.Valid(st)
    && Laid(st.storage, Starts(st.fields))
    && (st.phase == 0 || st.phase == 2 ==> Fresh(st.storage, Starts(st.fields)))
    && (st.phase == 1 || st.phase == 2 ==> st.fields[|st.fields| - 1].value.None?)
  }

  lemma LaidMore(storage: seq<byte>, starts: seq<nat>)
    requires Laid(storage, starts) && Fresh(storage, starts)
    ensures Laid(storage, starts + [|storage|])
  {}

  lemma LaidPut(storage: seq<byte>, starts: seq<nat>, c: byte)
    requires Laid(storage, starts)
    ensures Laid(storage + [c], starts) && (c == NUL ==> Fresh(storage + [c], starts))
  {}

  lemma LaidEnter(st: State)
    requires LaidOut(st)
    ensures LaidOut(Enter(st))
  {
    if st.phase == 0 {
      StartsAppend(st.fields, Field(|st.storage|, None));
      assert Starts([Field(|st.storage|, None)]) == [|st.storage|];
      LaidMore(st.storage, Starts(st.fields));
    } else if st.phase == 2 {
      var k := |st.fields| - 1;
      var f := st.fields[k];
      var g := f.(value := Some(|st.storage|));
      assert st.fields == st.fields[..k] + [f] && st.fields[k := g] == st.fields[..k] + [g];
      StartsAppend(st.fields[..k], f);
      StartsAppend(st.fields[..k], g);
      assert Starts([f]) == [f.name] && Starts([g]) == [f.name, |st.storage|];
      assert Starts(st.fields[k := g]) == Starts(st.fields) + [|st.storage|];
      LaidMore(st.storage, Starts(st.fields));
    }
    hide Laid, Fresh;
  }

  /** The state after one token. */
  function After(st: State, t: Token): State {
    match t
    case Char(c, _) => Put(st, c)
    case Equals => Put(st, NUL).(phase := 2)
    case And => Put(st, NUL).(phase := 0)
  }

  lemma LaidAfter(st: State, t: Token)
    requires LaidOut(st) && (st.phase == 1 || st.phase == 3) && (t == Equals ==> st.phase == 1)
    ensures LaidOut(After(st, t))
  {
    hide Laid, Fresh;
    LaidPut(st.storage, Starts(st.fields), if t.Char? then t.c else NUL);
  }

  // ---------------------------------------------------------------- fixing one string after another

  /** The strings ts are where starts says, none reaching into the next. */
  ghost predicate HoldsAll(s: seq<byte>, starts: seq<nat>, ts: seq<seq<byte>>) {
    && |ts| == |starts|
    && (forall m :: 0 <= m < |ts| ==> Holds(s, starts[m], ts[m]))
    && (forall m, k :: 0 <= m < k < |ts| ==> starts[m] + |ts[m]| < starts[k])
  }

  function Texts(s: seq<byte>, starts: seq<nat>): (ts: seq<seq<byte>>)
    ensures |ts| == |starts| && forall m :: 0 <= m < |ts| ==> ts[m] == StringAt(s, starts[m])
  {
    seq(|starts|, m requires 0 <= m < |starts| => StringAt(s, starts[m]))
  }

  lemma HoldsLonger(s: seq<byte>, p: nat, t: seq<byte>, rest: seq<byte>)
    requires Holds(s, p, t)
    ensures Holds(s + rest, p, t)
  {
    assert (s + rest)[p..p + |t|] == s[p..p + |t|];
  }

  lemma BeforeNul(s: seq<byte>, p: nat, t: seq<byte>, q: nat)
    requires Holds(s, p, t) && p <= q < |s| && s[q] == NUL
    ensures p + |t| <= q
  {
    assert forall i :: 0 <= i < |t| ==> s[p + i] == s[p..p + |t|][i] == t[i];
  }

  lemma NulsBefore(storage: seq<byte>, starts: seq<nat>)
    requires Laid(storage, starts)
    ensures var s := storage + [NUL];
            && (forall m :: 0 <= m < |starts| ==> starts[m] < |s|)
            && (forall m, k :: 0 <= m < k < |starts| ==> starts[m] <= starts[k] - 1 < |s| && s[starts[k] - 1] == NUL)
  {}

  /** What the scan leaves in the storage: the strings, with whatever is behind them. */
  lemma LaidHolds(storage: seq<byte>, starts: seq<nat>, rest: seq<byte>)
    requires Laid(storage, starts)
    ensures HoldsAll(storage + [NUL] + rest, starts, Texts(storage + [NUL], starts))
  {
    var s, ts := storage + [NUL], Texts(storage + [NUL], starts);
    NulsBefore(storage, starts);
    hide Laid, Holds, StringAt, Texts;
    forall m | 0 <= m < |ts| ensures Holds(s, starts[m], ts[m]) && Holds(s + rest, starts[m], ts[m]) {
      StringHolds(s, starts[m]);
      HoldsLonger(s, starts[m], ts[m], rest);
    }
    forall m, k | 0 <= m < k < |ts| ensures starts[m] + |ts[m]| < starts[k] {
      BeforeNul(s, starts[m], ts[m], starts[k] - 1);
    }
  }

  /** One string changed to a shorter one, nothing else. */
  lemma HoldsAllUpdate(s: seq<byte>, s': seq<byte>, starts: seq<nat>, ts: seq<seq<byte>>, k: nat, t: seq<byte>)
    requires HoldsAll(s, starts, ts) && k < |ts| && Holds(s', starts[k], t) && |t| <= |ts[k]| && |s'| == |s|
    requires forall i :: 0 <= i < starts[k] || starts[k] + |ts[k]| <= i < |s| ==> s'[i] == s[i]
    ensures HoldsAll(s', starts, ts[k := t])
  {
    forall m | 0 <= m < |ts| ensures Holds(s', starts[m], ts[k := t][m]) {
      if m != k {
        assert if m < k then starts[m] + |ts[m]| < starts[k] else starts[k] + |ts[k]| < starts[m];
        HoldsSame(s, s', starts[m], ts[m]);
      }
    }
  }

  lemma {:induction false} StartsAt(fs: seq<Field>, i: nat)
    requires i < |fs| && forall j :: 0 <= j <= i ==> fs[j].value.Some?
    ensures |Starts(fs)| > 2 * i + 1 && Starts(fs)[2 * i] == fs[i].name && Starts(fs)[2 * i + 1] == fs[i].value.value
  {
    if i > 0 { StartsAt(fs[1..], i - 1); }
  }

  lemma {:induction false} ReadFieldsAt(s: seq<byte>, fs: seq<Field>, i: nat)
    requires i < |fs| && forall j :: 0 <= j < |fs| ==> fs[j].value.Some?
    ensures |ReadFields(s, fs)| == |fs|
    ensures ReadFields(s, fs)[i] == Pair(StringAt(s, fs[i].name), Fixed(StringAt(s, fs[i].value.value)))
  {
    hide Fixed, StringAt;
    if |fs| > 1 { ReadFieldsAt(s, fs[1..], if i > 0 then i - 1 else 0); }
  }

  /** The first n texts, the values among them fixed. */
  function FixedUpto(ts: seq<seq<byte>>, n: nat): (r: seq<seq<byte>>)
    ensures |r| == |ts|
  {
    seq(|ts|, m requires 0 <= m < |ts| => if m < n && m % 2 == 1 then Fixed(ts[m]) else ts[m])
  }

  lemma NoneFixed(ts: seq<seq<byte>>)
    ensures FixedUpto(ts, 0) == ts
  {}

  lemma FixedMore(ts: seq<seq<byte>>, i: nat)
    requires 2 * i + 1 < |ts|
    ensures var now := FixedUpto(ts, 2 * i); FixedUpto(ts, 2 * i + 2) == now[2 * i + 1 := Fixed(now[2 * i + 1])]
  {
    hide Fixed;
  }

  lemma HoldsAllAt(s: seq<byte>, starts: seq<nat>, ts: seq<seq<byte>>, k: nat)
    requires HoldsAll(s, starts, ts) && k < |starts|
    ensures |ts| == |starts| && Holds(s, starts[k], ts[k])
  {}

  lemma LaidOutIsLaid(st: State)
    requires LaidOut(st)
    ensures Laid(st.storage, Starts(st.fields))
  {}

  lemma NoneUnset(fs: seq<Field>)
    ensures (exists f :: f in fs && f.value.None?) <==> !(forall i :: 0 <= i < |fs| ==> fs[i].value.Some?)
  {}

  /** What is read after the fix is what the parse says. */
  lemma PairsAreRead(now: seq<byte>, s: seq<byte>, fs: seq<Field>, pairs: seq<Pair>)
    requires forall i :: 0 <= i < |fs| ==> fs[i].value.Some?
    requires HoldsAll(now, Starts(fs), FixedUpto(Texts(s, Starts(fs)), 2 * |fs|)) && |pairs| == |fs|
    requires forall i :: 0 <= i < |fs| ==> pairs[i] == Pair(StringAt(now, fs[i].name), StringAt(now, fs[i].value.value))
    ensures pairs == ReadFields(s, fs)
  {
    hide *;
    if fs == [] {
      ReadNothing(s);
    } else {
      PairIsRead(now, s, fs, 0);
    }
    var r := ReadFields(s, fs);
    forall i | 0 <= i < |pairs| ensures pairs[i] == r[i] {
      PairIsRead(now, s, fs, i);
      assert pairs[i] == Pair(StringAt(now, fs[i].name), StringAt(now, fs[i].value.value));
    }
  }

  lemma ReadNothing(s: seq<byte>)
    ensures ReadFields(s, []) == []
  {}

  lemma PairIsRead(now: seq<byte>, s: seq<byte>, fs: seq<Field>, i: nat)
    requires i < |fs| && forall i :: 0 <= i < |fs| ==> fs[i].value.Some?
    requires HoldsAll(now, Starts(fs), FixedUpto(Texts(s, Starts(fs)), 2 * |fs|))
    ensures |ReadFields(s, fs)| == |fs|
    ensures ReadFields(s, fs)[i] == Pair(StringAt(now, fs[i].name), StringAt(now, fs[i].value.value))
  {
    hide *;
    var starts := Starts(fs);
    var ts := Texts(s, starts);
    var fixed := FixedUpto(ts, 2 * |fs|);
    StartsAt(fs, i);
    ReadFieldsAt(s, fs, i);
    HoldsAllAt(now, starts, fixed, 2 * i);
    HoldsAllAt(now, starts, fixed, 2 * i + 1);
    HoldsString(now, starts[2 * i], fixed[2 * i]);
    HoldsString(now, starts[2 * i + 1], fixed[2 * i + 1]);
    FixedUptoAt(ts, 2 * |fs|, i);
  }

  lemma FixedUptoAt(ts: seq<seq<byte>>, n: nat, i: nat)
    requires 2 * i + 1 < n && 2 * i + 1 < |ts|
    ensures FixedUpto(ts, n)[2 * i] == ts[2 * i] && FixedUpto(ts, n)[2 * i + 1] == Fixed(ts[2 * i + 1])
  {
    hide Fixed;
  }

  // ---------------------------------------------------------------- the scan

  function RunOn(s: seq<byte>, st: State, maxFields: nat): Option<State> {
    if st.phase <= 3 && (st.phase > 0 ==> st.fields != []) then Run(s, st, maxFields) else None
  }

  lemma LaidIsValid(st: State)
    requires LaidOut(st)
    ensures CgiForm.Valid(st)
  {}

  /** One token of the source. */
  lemma RunToken(s: seq<byte>, st: State, maxFields: nat)
    requires CgiForm.Valid(st) && s != []
    ensures var st1 := Enter(st);
            var t := TokenOf(s, st1.phase);
            && (t == Equals ==> st1.phase == 1)
            && CgiForm.Valid(After(st1, t))
            && RunOn(s, st, maxFields)
               == if t == And && |st1.fields| > maxFields then None
                  else RunOn(s[if t.Char? then t.n else 1..], After(st1, t), maxFields)
  {}

  lemma RunEnds(st: State, maxFields: nat)
    requires CgiForm.Valid(st)
    ensures RunOn([], st, maxFields) == Some(if st.phase == 2 then Enter(st) else st)
  {}

  /** A form as it is allocated for its source; the last slot of fields stands for the memory behind that array. */
  class Form {
    const source: seq<byte>
    const storage: array<byte>
    const fields: array<Field>
    const maxFields: nat
    var nfields: nat

    /** The source is the string in s, up to its first NUL. */
    constructor (s: seq<byte>)
      ensures source == CString(s) && NUL !in source && maxFields == MaxFields(source) && nfields == 0 && Allocated()
      ensures fresh(storage) && fresh(fields)
    {
      var t := CString(s);
      source, maxFields, nfields := t, MaxFields(t), 0;
      storage := new byte[|t| + 1];
      fields := new Field[MaxFields(t) + 1];
    }

    ghost predicate Allocated() {
      storage.Length == |source| + 1 && maxFields == MaxFields(source) && fields.Length == maxFields + 1
    }

    ghost function Now(phase: nat, to: nat): State
      requires to <= storage.Length && nfields <= fields.Length
      reads this, storage, fields
    {
      State(phase, storage[..to], fields[..nfields])
    }

    /** Notes the beginning of a name or value. */
    method BeginString(phase: nat, to: nat) returns (phase': nat)
      requires to <= storage.Length && nfields <= fields.Length && (phase == 0 ==> nfields < fields.Length)
      requires CgiForm.Valid(Now(phase, to))
      modifies this`nfields, fields
      ensures nfields <= fields.Length && Now(phase', to) == Enter(old(Now(phase, to)))
      ensures nfields == if phase == 0 then old(nfields) + 1 else old(nfields)
    {
      phase' := phase;
      if phase == 0 {
        fields[nfields] := Field(to, None);
        nfields := nfields + 1;
        phase' := 1;
      }
      if phase == 2 {
        fields[nfields - 1] := fields[nfields - 1].(value := Some(to));
        phase' := 3;
      }
    }

    /** The scan is at start, in the given phase, with the next byte to be stored at to. */
    ghost predicate At(start: nat, phase: nat, to: nat)
      reads this, storage, fields
    {
      && Allocated() && to <= start <= |source| && nfields <= fields.Length && (phase == 0 ==> nfields < fields.Length)
      && LaidOut(Now(phase, to))
    }

    /** One token; false when it is one & too many, which is after a field was begun behind the array. */
    method ScanToken(start: nat, phase: nat, to: nat) returns (ok: bool, start': nat, phase': nat, to': nat)
      requires At(start, phase, to) && start < |source|
      modifies this`nfields, storage, fields
      ensures ok ==> At(start', phase', to') && start < start'
      ensures nfields <= fields.Length && (!ok ==> nfields == maxFields + 1)
      ensures old(RunOn(source[start..], Now(phase, to), maxFields))
              == if ok then RunOn(source[start'..], Now(phase', to'), maxFields) else None
    {
      ghost var st, rest := Now(phase, to), source[start..];
      hide Run, LaidOut, Enter, TokenOf, MaxFields, RunOn;
      LaidIsValid(st);
      RunToken(rest, st, maxFields);
      LaidEnter(st);
      phase' := BeginString(phase, to);
      ghost var entered := Now(phase', to);
      assert entered == Enter(st);
      var token := TokenOf(source[start..], phase');
      LaidAfter(entered, token);
      storage[to] := if token.Char? then token.c else NUL;
      to' := to + 1;
      assert storage[..to'] == entered.storage + [storage[to]];
      start' := start + if token.Char? then token.n else 1;
      assert source[start'..] == rest[if token.Char? then token.n else 1..];
      match token {
        case Char(c, n) =>
        case Equals =>
          phase' := 2;
        case And =>
          if nfields > maxFields {
            return false, start', phase', to';
          }
          phase' := 0;
      }
      assert Now(phase', to') == After(entered, token);
      ok := true;
    }

    /** Decodes the source into the storage; false when there are too many fields. */
    method Scan() returns (ok: bool, to: nat)
      requires Allocated()
      modifies this`nfields, storage, fields
      ensures nfields <= fields.Length && to < storage.Length && (!ok ==> nfields == maxFields + 1)
      ensures match Run(source, State(0, [], []), maxFields)
              case None => !ok
              case Some(st) =>
                ok && storage[to] == NUL && st.storage == storage[..to] && st.fields == fields[..nfields] && LaidOut(st)
    {
      var start, phase := 0, 0;
      to, nfields := 0, 0;
      assert Now(0, 0) == State(0, [], []) && source[0..] == source;
      hide Run, Enter, MaxFields;
      ghost var all := RunOn(source, State(0, [], []), maxFields);
      ok := true;
      while ok && start < |source| && to < storage.Length
        invariant nfields <= fields.Length && (if ok then At(start, phase, to) else nfields == maxFields + 1)
        invariant all == if ok then RunOn(source[start..], Now(phase, to), maxFields) else None
        decreases ok, |source| - start
      {
        hide RunOn, At, LaidOut;
        ok, start, phase, to := ScanToken(start, phase, to);
      }
      if !ok {
        return false, 0;
      }
      assert At(start, phase, to) && start == |source|;
      assert source[start..] == [];
      Finish(phase, to);
    }

    /** Ends the last string. */
    method Finish(phase: nat, to: nat)
      requires At(|source|, phase, to)
      modifies this`nfields, storage, fields
      ensures nfields <= fields.Length && to < storage.Length && storage[to] == NUL
      ensures var st := State(if phase == 2 then 3 else phase, storage[..to], fields[..nfields]);
              LaidOut(st) && Some(st) == old(RunOn([], Now(phase, to), maxFields))
    {
      ghost var st := Now(phase, to);
      LaidIsValid(st);
      RunEnds(st, maxFields);
      LaidEnter(st);
      hide Run, LaidOut, MaxFields, RunOn;
      storage[to] := NUL;
      assert Now(phase, to) == st;
      if phase == 2 {
        var phase' := BeginString(phase, to);
      }
    }

    /** Fixes the value of field i; false when it was never set. */
    method FixValue(i: nat, ghost starts: seq<nat>, ghost ts: seq<seq<byte>>) returns (ok: bool)
      requires i < nfields <= fields.Length && forall j :: 0 <= j < i ==> fields[j].value.Some?
      requires starts == Starts(fields[..nfields]) && HoldsAll(storage[..], starts, FixedUpto(ts, 2 * i))
      modifies storage
      ensures ok <==> fields[i].value.Some?
      ensures ok ==> HoldsAll(storage[..], starts, FixedUpto(ts, 2 * i + 2))
    {
      ghost var now, k, before := FixedUpto(ts, 2 * i), 2 * i + 1, storage[..];
      if fields[i].value.None? {
        return false;
      }
      hide *;
      StartsAt(fields[..nfields], i);
      HoldsAllAt(before, starts, now, k);
      FixCrlf(storage, fields[i].value.value, now[k]);
      HoldsAllUpdate(before, storage[..], starts, now, k, Fixed(now[k]));
      FixedMore(ts, i);
      ok := true;
    }

    method FixValues(ghost starts: seq<nat>, ghost ts: seq<seq<byte>>) returns (ok: bool)
      requires nfields <= fields.Length
      requires starts == Starts(fields[..nfields]) && HoldsAll(storage[..], starts, ts)
      modifies storage
      ensures ok <==> forall i :: 0 <= i < nfields ==> fields[i].value.Some?
      ensures ok ==> HoldsAll(storage[..], starts, FixedUpto(ts, 2 * nfields))
    {
      hide *;
      NoneFixed(ts);
      var i := 0;
      while i < nfields
        invariant i <= nfields && forall j :: 0 <= j < i ==> fields[j].value.Some?
        invariant HoldsAll(storage[..], starts, FixedUpto(ts, 2 * i))
      {
        ok := FixValue(i, starts, ts);
        if !ok {
          return;
        }
        i := i + 1;
      }
      ok := true;
    }

    /** The fields as a reader of the form sees them. */
    method ReadBack() returns (pairs: seq<Pair>)
      requires nfields <= fields.Length && forall i :: 0 <= i < nfields ==> fields[i].value.Some?
      ensures |pairs| == nfields
      ensures forall i :: 0 <= i < nfields ==>
                pairs[i] == Pair(StringAt(storage[..], fields[i].name), StringAt(storage[..], fields[i].value.value))
    {
      hide StringAt;
      pairs := [];
      for i := 0 to nfields
        invariant |pairs| == i
        invariant forall j :: 0 <= j < i ==>
                    pairs[j]
                    == Pair(StringAt(storage[..], fields[j].name), StringAt(storage[..], fields[j].value.value))
      {
        pairs := pairs + [Pair(StringAt(storage[..], fields[i].name), StringAt(storage[..], fields[i].value.value))];
      }
    }

    /**
      Reads the form; what it then holds is what Parse says, for every source. The pieces of the
      source between its & bytes tell beforehand whether a field is begun behind the array, in the
      slot that stands for that memory, be the source refused or not, and which error it runs into.
     */
    method ParseForm(specials: seq<Pair>) returns (outcome: Outcome)
      requires Allocated()
      modifies this`nfields, storage, fields
      ensures outcome == Parse(source, specials)
      ensures nfields == maxFields + 1 <==> |Begun(source)| > maxFields
      ensures nfields == maxFields + 1 <==> LeavesArray(outcome)
      ensures outcome == TooMany <==> |Pieces(source)| > maxFields + 1
      ensures outcome == Overrun <==> |Pieces(source)| == |Begun(source)| == maxFields + 1
      ensures outcome == Unset <==> |Begun(source)| <= maxFields && exists p :: p in Begun(source) && EQUALS !in p
      ensures outcome.Parsed? <==> |Begun(source)| <= maxFields && forall p :: p in Begun(source) ==> EQUALS in p
    {
      ParseStaysInsideIff(source, specials);
      outcome := ParseFields(specials);
    }

    method ParseFields(specials: seq<Pair>) returns (outcome: Outcome)
      requires Allocated()
      modifies this`nfields, storage, fields
      ensures outcome == Parse(source, specials)
      ensures nfields == maxFields + 1 <==> LeavesArray(outcome)
    {
      hide Run, LaidOut, MaxFields, HoldsAll;
      var ok, to := Scan();
      if !ok {
        return TooMany;
      }
      ghost var st := Run(source, State(0, [], []), maxFields).value;
      if nfields > maxFields {
        return Overrun;
      }
      ghost var starts, s := Starts(st.fields), st.storage + [NUL];
      ghost var ts := Texts(s, starts);
      assert Laid(st.storage, starts) by { LaidOutIsLaid(st); }
      LaidHolds(st.storage, starts, storage[to + 1..]);
      assert storage[..] == s + storage[to + 1..];
      ok := FixValues(starts, ts);
      NoneUnset(st.fields);
      if !ok {
        return Unset;
      }
      var pairs := ReadBack();
      PairsAreRead(storage[..], s, st.fields, pairs);
      outcome := Parsed(pairs + if maxFields - nfields > 4 then specials else []);
    }
  }
}
