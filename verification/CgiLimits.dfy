/** When parsing a form stays inside the memory allocated for it, read off the bytes of the query. */
module CgiLimits {
  import opened Bytes
  import opened CgiForm
  import opened CStrings
  import opened Wrappers

  // ---------------------------------------------------------------- the pieces of a query

  /** The text before, between and after the & bytes. */
  function Pieces(s: seq<byte>): (ps: seq<seq<byte>>)
    ensures ps != []
  {
    if s == [] then [[]]
    else
      var ps := Pieces(s[1..]);
      if s[0] == AMPERSAND then [[]] + ps else [[s[0]] + ps[0]] + ps[1..]
  }

  /** Those that begin a field: all but an empty one at the end. */
  function Begun(s: seq<byte>): (ps: seq<seq<byte>>) {
    var ps := Pieces(s);
    if ps[|ps| - 1] == [] then ps[..|ps| - 1] else ps
  }

  /** There is one more piece than there are & bytes. */
  lemma {:induction false} PiecesCountAnds(s: seq<byte>)
    ensures |Pieces(s)| == multiset(s)[AMPERSAND] + 1
  {
    if s != [] {
      PiecesCountAnds(s[1..]);
      assert s == [s[0]] + s[1..];
    }
  }

  /** The last piece is empty exactly for an empty query and one that ends in &. */
  lemma {:induction false} LastPiece(s: seq<byte>)
    ensures var ps := Pieces(s); ps[|ps| - 1] == [] <==> s == [] || s[|s| - 1] == AMPERSAND
  {
    if s != [] {
      LastPiece(s[1..]);
      if |s| == 1 { assert Pieces(s[1..]) == [[]]; }
    }
  }

  // ---------------------------------------------------------------- what the fields get

  /** Whether each field, from the one the scan is in, gets its value. */
  function Sets(s: seq<byte>, phase: nat): seq<bool>
    decreases |s|
  {
    if s == [] then (if phase == 0 then [] else [phase >= 2]) else
    var phase' := if phase == 0 then 1 else if phase == 2 then 3 else phase;
    if s[0] == AMPERSAND then [phase' == 3] + Sets(s[1..], 0)
    else if s[0] == EQUALS && phase' == 1 then Sets(s[1..], 2)
    else Sets(s[1..], phase')
  }

  /** all says for each piece whether it holds a =, the first having had one already from phase 2 on. */
  ghost predicate SetBy(ps: seq<seq<byte>>, phase: nat, all: seq<bool>)
    requires ps != []
  {
    && |all| == |ps| - (if ps[|ps| - 1] == [] && (|ps| > 1 || phase == 0) then 1 else 0)
    && forall i :: 0 <= i < |all| ==> (all[i] <==> (i == 0 && phase >= 2) || EQUALS in ps[i])
  }

  /** A field gets its value exactly when its piece holds a =. */
  lemma {:induction false} SetsOfPieces(s: seq<byte>, phase: nat)
    requires phase <= 3
    ensures SetBy(Pieces(s), phase, Sets(s, phase))
    decreases |s|
  {
    if s != [] {
      var phase' := if phase == 0 then 1 else if phase == 2 then 3 else phase;
      var next := if s[0] == AMPERSAND then 0 else if s[0] == EQUALS && phase' == 1 then 2 else phase';
      SetsOfPieces(s[1..], next);
      var ps, all := Pieces(s[1..]), Sets(s[1..], next);
      hide SetBy;
      if s[0] == AMPERSAND {
        SetByAnd(ps, phase, all);
      } else {
        SetByChar(s[0], ps, phase, next, all);
      }
    }
  }

  lemma SetByAnd(ps: seq<seq<byte>>, phase: nat, all: seq<bool>)
    requires ps != [] && SetBy(ps, 0, all)
    ensures SetBy([[]] + ps, phase, [phase >= 2] + all)
  {}

  lemma SetByChar(c: byte, ps: seq<seq<byte>>, phase: nat, next: nat, all: seq<bool>)
    requires ps != [] && SetBy(ps, next, all) && next > 0
    requires next >= 2 <==> phase >= 2 || c == EQUALS
    ensures SetBy([[c] + ps[0]] + ps[1..], phase, all)
  {
    var qs := [[c] + ps[0]] + ps[1..];
    assert forall i :: 0 < i < |ps| ==> qs[i] == ps[i];
    assert EQUALS in qs[0] <==> c == EQUALS || EQUALS in ps[0];
  }

  lemma SetsOfBegun(s: seq<byte>)
    ensures |Sets(s, 0)| == |Begun(s)|
    ensures forall i :: 0 <= i < |Begun(s)| ==> (Sets(s, 0)[i] <==> EQUALS in Begun(s)[i])
  {
    SetsOfPieces(s, 0);
    hide Sets, Pieces;
  }

  /** A character written with several bytes holds no separator. */
  lemma TokenIsPlain(s: seq<byte>, phase: nat)
    requires s != [] && (phase == 1 || phase == 3)
    ensures var t := TokenOf(s, phase);
            && (t.Char? ==> |Pieces(s)| == |Pieces(s[t.n..])| && Sets(s, phase) == Sets(s[t.n..], phase))
            && (t.Equals? ==> phase == 1 && |Pieces(s)| == |Pieces(s[1..])| && Sets(s, phase) == Sets(s[1..], 2))
            && (t.And? ==> |Pieces(s)| == |Pieces(s[1..])| + 1 && Sets(s, phase) == [phase == 3] + Sets(s[1..], 0))
  {
    var t := TokenOf(s, phase);
    if t.Char? {
      PlainByte(s, phase);
      if t.n >= 2 {
        assert s[1..][1..] == s[2..];
        PlainByte(s[1..], phase);
      }
      if t.n >= 3 {
        assert s[2..][1..] == s[3..];
        PlainByte(s[2..], phase);
      }
    }
  }

  lemma PlainByte(s: seq<byte>, phase: nat)
    requires s != [] && (phase == 1 || phase == 3) && s[0] != AMPERSAND && (s[0] == EQUALS ==> phase == 3)
    ensures |Pieces(s)| == |Pieces(s[1..])| && Sets(s, phase) == Sets(s[1..], phase)
  {}

  function Flags(fs: seq<Field>): (r: seq<bool>)
    ensures |r| == |fs|
  {
    seq(|fs|, i requires 0 <= i < |fs| => fs[i].value.Some?)
  }

  /** How many fields are behind the scan. */
  function Behind(st: State): nat
    requires Valid(st)
  {
    if st.phase == 0 then |st.fields| else |st.fields| - 1
  }

  /** A state whose current field has its value exactly from phase 3 on. */
  ghost predicate Orderly(st: State, maxFields: nat) {
    && Valid(st) && Behind(st) <= maxFields
    && (st.phase > 0 ==> (st.fields[|st.fields| - 1].value.Some? <==> st.phase == 3))
  }

  /** How a run from any state ends. */
  ghost predicate Ends(s: seq<byte>, st: State, maxFields: nat, r: Option<State>)
    requires Valid(st)
  {
    if Behind(st) + |Pieces(s)| - 1 > maxFields then r == None
    else r.Some? && Flags(r.value.fields) == Flags(st.fields)[..Behind(st)] + Sets(s, st.phase)
  }

  lemma EnterKeeps(s: seq<byte>, st: State, maxFields: nat)
    requires Orderly(st, maxFields)
    ensures Orderly(Enter(st), maxFields) && Behind(Enter(st)) == Behind(st)
    ensures Flags(Enter(st).fields)[..Behind(st)] == Flags(st.fields)[..Behind(st)]
    ensures s != [] ==> Sets(s, Enter(st).phase) == Sets(s, st.phase)
  {
    if st.phase == 2 {
      assert forall i :: 0 <= i < Behind(st) ==> Enter(st).fields[i] == st.fields[i];
    }
  }

  lemma AtEnd(st: State, maxFields: nat)
    requires Orderly(st, maxFields)
    ensures Ends([], st, maxFields, Run([], st, maxFields))
  {
    var r := Run([], st, maxFields).value;
    assert Pieces([]) == [[]];
    assert |r.fields| == |st.fields|;
    var all := Flags(st.fields)[..Behind(st)] + Sets([], st.phase);
    assert |all| == |r.fields|;
    forall i | 0 <= i < |all| ensures Flags(r.fields)[i] == all[i] {}
  }

  lemma EndsChar(s: seq<byte>, n: nat, st: State, c: byte, max: nat, r: Option<State>)
    requires n <= |s| && Orderly(st, max) && |Pieces(s)| == |Pieces(s[n..])|
             && Sets(s, st.phase) == Sets(s[n..], st.phase)
    requires Ends(s[n..], Put(st, c), max, r)
    ensures Ends(s, st, max, r)
  {
    hide Sets, Pieces;
  }

  lemma EndsEquals(s: seq<byte>, st: State, max: nat, r: Option<State>)
    requires s != [] && Orderly(st, max) && st.phase == 1
    requires |Pieces(s)| == |Pieces(s[1..])| && Sets(s, 1) == Sets(s[1..], 2)
    ensures Orderly(Put(st, NUL).(phase := 2), max)
    ensures Ends(s[1..], Put(st, NUL).(phase := 2), max, r) ==> Ends(s, st, max, r)
  {
    hide Sets, Pieces;
  }

  lemma EndsAnd(s: seq<byte>, st: State, max: nat, r: Option<State>)
    requires s != [] && Orderly(st, max) && st.phase in {1, 3}
    requires |Pieces(s)| == |Pieces(s[1..])| + 1 && Sets(s, st.phase) == [st.phase == 3] + Sets(s[1..], 0)
    ensures |st.fields| > max ==> Ends(s, st, max, None)
    ensures |st.fields| <= max ==> Orderly(Put(st, NUL).(phase := 0), max)
    ensures |st.fields| <= max && Ends(s[1..], Put(st, NUL).(phase := 0), max, r) ==> Ends(s, st, max, r)
  {
    hide Sets, Pieces;
    assert Flags(st.fields) == Flags(st.fields)[..Behind(st)] + [st.phase == 3];
  }

  lemma EndsEntered(s: seq<byte>, st: State, max: nat, r: Option<State>)
    requires s != [] && Orderly(st, max) && Ends(s, Enter(st), max, r)
    ensures Ends(s, st, max, r)
  {
    EnterKeeps(s, st, max);
    hide Sets, Pieces, Enter, Flags;
  }

  /** One token of the run. */
  lemma TokenRuns(s: seq<byte>, st: State, max: nat)
    requires s != [] && Valid(st)
    ensures var st1 := Enter(st);
            var t := TokenOf(s, st1.phase);
            && (st1.phase == 1 || st1.phase == 3) && Valid(st1)
            && (t.Char? ==> Run(s, st, max) == Run(s[t.n..], Put(st1, t.c), max))
            && (t.Equals? ==> st1.phase == 1 && Run(s, st, max) == Run(s[1..], Put(st1, NUL).(phase := 2), max))
            && (t.And? ==>
                  Run(s, st, max) == if |st1.fields| > max then None else Run(s[1..], Put(st1, NUL).(phase := 0), max))
  {}

  lemma {:induction false} RunCounts(s: seq<byte>, st: State, maxFields: nat)
    requires Orderly(st, maxFields)
    ensures Ends(s, st, maxFields, Run(s, st, maxFields))
    decreases |s|
  {
    hide Sets, Pieces, Enter, Run, Ends, TokenOf, Flags;
    if s == [] {
      AtEnd(st, maxFields);
    } else {
      EnterKeeps(s, st, maxFields);
      TokenRuns(s, st, maxFields);
      var st1, r := Enter(st), Run(s, st, maxFields);
      TokenIsPlain(s, st1.phase);
      match TokenOf(s, st1.phase) {
        case Char(c, n) =>
          RunCounts(s[n..], Put(st1, c), maxFields);
          EndsChar(s, n, st1, c, maxFields, r);
        case Equals =>
          EndsEquals(s, st1, maxFields, r);
          RunCounts(s[1..], Put(st1, NUL).(phase := 2), maxFields);
        case And =>
          EndsAnd(s, st1, maxFields, r);
          if |st1.fields| <= maxFields {
            RunCounts(s[1..], Put(st1, NUL).(phase := 0), maxFields);
          }
      }
      EndsEntered(s, st, maxFields, r);
    }
  }

  // ---------------------------------------------------------------- what becomes of a query

  /**
    For every query, refused or not, by its pieces: it begins a field behind the array exactly when
    more pieces than maxfields begin one, with an error exactly when there are two pieces more. It is
    parsed inside what was allocated, reading only values that were set, exactly when at most
    maxfields pieces begin a field and each of these has a =.
   */
  lemma ParseStaysInsideIff(source: seq<byte>, specials: seq<Pair>)
    ensures var max, outcome := MaxFields(source), Parse(source, specials);
            && (LeavesArray(outcome) <==> |Begun(source)| > max)
            && (outcome == TooMany <==> |Pieces(source)| > max + 1)
            && (outcome == Overrun <==> |Pieces(source)| == |Begun(source)| == max + 1)
            && (outcome == Unset <==> |Begun(source)| <= max && exists p :: p in Begun(source) && EQUALS !in p)
            && (outcome.Parsed? <==> |Begun(source)| <= max && forall p :: p in Begun(source) ==> EQUALS in p)
            && (outcome.Parsed? ==>
                  |outcome.pairs| == |Begun(source)| + if max - |Begun(source)| > 4 then |specials| else 0)
  {
    var max := MaxFields(source);
    var r := Run(source, State(0, [], []), max);
    FieldsBegun(source, max);
    BegunSize(source);
    hide Run, Begun, Pieces, MaxFields;
    if r.Some? {
      var fs, begun := r.value.fields, Begun(source);
      SomeUnset(fs, begun);
      if forall f :: f in fs ==> f.value.Some? {
        assert forall i :: 0 <= i < |fs| ==> fs[i] in fs;
        ReadFieldsSize(r.value.storage + [NUL], fs);
      }
    }
  }

  lemma BegunSize(s: seq<byte>)
    ensures |Begun(s)| <= |Pieces(s)| <= |Begun(s)| + 1
  {
    hide Pieces;
  }

  /** A run that is not refused begins one field for each piece, set when that holds a =. */
  lemma FieldsBegun(source: seq<byte>, max: nat)
    ensures var r, begun := Run(source, State(0, [], []), max), Begun(source);
            && (r == None <==> |Pieces(source)| > max + 1)
            && (r.Some? ==>
                  && |r.value.fields| == |begun|
                  && forall i :: 0 <= i < |begun| ==> (r.value.fields[i].value.Some? <==> EQUALS in begun[i]))
  {
    var start := State(0, [], []);
    var r := Run(source, start, max);
    hide Run, Sets, Pieces, Begun;
    RunCounts(source, start, max);
    if r.Some? {
      assert Flags(r.value.fields) == Flags([])[..0] + Sets(source, 0);
      SetsOfBegun(source);
      FlagsAre(r.value.fields, Begun(source), Sets(source, 0));
    }
  }

  lemma FlagsAre(fs: seq<Field>, begun: seq<seq<byte>>, all: seq<bool>)
    requires Flags(fs) == Flags([])[..0] + all && |all| == |begun|
    requires forall i :: 0 <= i < |begun| ==> (all[i] <==> EQUALS in begun[i])
    ensures |fs| == |begun| && forall i :: 0 <= i < |begun| ==> (fs[i].value.Some? <==> EQUALS in begun[i])
  {
    assert Flags([])[..0] + all == all;
    assert forall i :: 0 <= i < |fs| ==> (fs[i].value.Some? <==> Flags(fs)[i]);
  }

  lemma SomeUnset(fs: seq<Field>, begun: seq<seq<byte>>)
    requires |fs| == |begun| && forall i :: 0 <= i < |fs| ==> (fs[i].value.Some? <==> EQUALS in begun[i])
    ensures (exists f :: f in fs && f.value.None?) <==> exists p :: p in begun && EQUALS !in p
  {
    if f :| f in fs && f.value.None? {
      var i :| 0 <= i < |fs| && fs[i] == f;
      assert begun[i] in begun;
    }
    if p :| p in begun && EQUALS !in p {
      var i :| 0 <= i < |fs| && begun[i] == p;
      assert fs[i] in fs;
    }
  }

  lemma {:induction false} ReadFieldsSize(storage: seq<byte>, fs: seq<Field>)
    requires forall i :: 0 <= i < |fs| ==> fs[i].value.Some?
    ensures |ReadFields(storage, fs)| == |fs|
  {
    if fs != [] { ReadFieldsSize(storage, fs[1..]); }
  }

  /** Concretely: for the query a the value is never set. */
  lemma NameAloneIsUnset()
    ensures Parse([97], []) == Unset
  {}

  /** Concretely: the query =&=&= begins a third field, and there is memory for two. */
  lemma ThreeFieldsOverrun()
    ensures Parse([EQUALS, AMPERSAND, EQUALS, AMPERSAND, EQUALS], []) == Overrun
  {
    var source := [EQUALS, AMPERSAND, EQUALS, AMPERSAND, EQUALS];
    PiecesCountAnds(source);
    LastPiece(source);
    hide Pieces;
    ParseStaysInsideIff(source, []);
  }

  /** Concretely: the query &&&&& is refused, but only once it has begun a third field, with memory for two. */
  lemma RefusedTooLate()
    ensures var source := [AMPERSAND, AMPERSAND, AMPERSAND, AMPERSAND, AMPERSAND];
            && Parse(source, []) == TooMany && LeavesArray(TooMany)
            && MaxFields(source) == 2 && |Begun(source)| == 5
  {
    var source := [AMPERSAND, AMPERSAND, AMPERSAND, AMPERSAND, AMPERSAND];
    PiecesCountAnds(source);
    LastPiece(source);
    hide Pieces;
    ParseStaysInsideIff(source, []);
  }
}
