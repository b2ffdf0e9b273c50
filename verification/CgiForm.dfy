/** Writing name/value pairs in the URL form encoding and reading them back. */
module CgiForm {
  import opened Bytes
  import opened CStrings
  import opened Sequences
  import opened Wrappers

  const PERCENT: byte := 37
  const AMPERSAND: byte := 38
  const PLUS: byte := 43
  const EQUALS: byte := 61

  // ---------------------------------------------------------------- writing

  predicate IsAlnum(c: byte) {
    48 <= c <= 57 || 65 <= c <= 90 || 97 <= c <= 122
  }

  /** Characters written as they are: letters, digits and / : $ - _ @ . */
  predicate IsSafe(c: byte) {
    IsAlnum(c) || c in [47, 58, 36, 45, 95, 64, 46]
  }

  function HexDigit(d: int): byte
    requires 0 <= d < 16
  {
    if d < 10 then 48 + d else 87 + d
  }

  /** Two hexadecimal digits; a byte from 128 up is a negative char, of which %x prints eight. */
  function Hex(c: byte): seq<byte> {
    (if c < 128 then [] else seq(6, _ => 102)) + [HexDigit(c / 16), HexDigit(c % 16)]
  }

  function UrlOf(c: byte): (r: seq<byte>)
    ensures r != []
  {
    if c == SPACE then [PLUS] else if IsSafe(c) then [c] else [PERCENT] + Hex(c)
  }

  function Url(s: seq<byte>): seq<byte> {
    if s == [] then [] else UrlOf(s[0]) + Url(s[1..])
  }

  lemma {:induction false} UrlAppend(s: seq<byte>, c: byte)
    ensures Url(s + [c]) == Url(s) + UrlOf(c)
  {
    if s == [] {
      assert s + [c] == [c];
    } else {
      assert (s + [c])[1..] == s[1..] + [c];
      UrlAppend(s[1..], c);
    }
  }

  /** Letters, digits, the seven marks, and the blank take one byte; every other byte begins with percent. */
  lemma OneByteFor(c: byte)
    ensures |UrlOf(c)| == 1 <==>
            || 'A' as int <= c <= 'Z' as int || 'a' as int <= c <= 'z' as int || '0' as int <= c <= '9' as int
            || c in Ascii("/:$-_@. ")
    ensures |UrlOf(c)| == 1 ==> UrlOf(c) == [if c == ' ' as int then '+' as int else c]
    ensures |UrlOf(c)| > 1 ==> UrlOf(c)[0] == '%' as int
  {
    assert Ascii("/:$-_@. ") == [47, 58, 36, 45, 95, 64, 46, 32];
    hide HexDigit;
  }

  method String2Url(s: seq<byte>) returns (out: seq<byte>)
    ensures out == Url(s)
  {
    out := [];
    for i := 0 to |s|
      invariant out == Url(s[..i])
    {
      assert s[..i + 1] == s[..i] + [s[i]];
      UrlAppend(s[..i], s[i]);
      if s[i] == SPACE {
        out := out + [PLUS];
      } else if IsSafe(s[i]) {
        out := out + [s[i]];
      } else {
        out := out + ([PERCENT] + Hex(s[i]));
      }
    }
    assert s[..|s|] == s;
  }

  datatype Pair = Pair(name: seq<byte>, value: seq<byte>)

  /** The pairs as a query: names and values written with Url, joined by = and &. */
  function Printed(ps: seq<Pair>): seq<byte> {
    if ps == [] then [] else
    Url(ps[0].name) + [EQUALS] + Url(ps[0].value) + if |ps| == 1 then [] else [AMPERSAND] + Printed(ps[1..])
  }

  // ---------------------------------------------------------------- reading

  /** Where the name and value of a field begin in the storage; the value may never be set. */
  datatype Field = Field(name: nat, value: Option<nat>)

  /** phase 0: before a name, 1: in a name, 2: before a value, 3: in a value. */
  datatype State = State(phase: nat, storage: seq<byte>, fields: seq<Field>)

  ghost predicate Valid(st: State) {
    st.phase <= 3 && (st.phase > 0 ==> st.fields != [])
  }

  predicate IsHex(c: byte) {
    48 <= c <= 57 || 65 <= c <= 70 || 97 <= c <= 102
  }

  function HexValue(c: byte): (v: int)
    requires IsHex(c)
    ensures 0 <= v < 16
  {
    if c <= 57 then c - 48 else if c <= 70 then c - 55 else c - 87
  }

  function At(s: seq<byte>, i: nat): byte {
    if i < |s| then s[i] else NUL
  }

  /** At the first character of a name or value its beginning is noted. */
  function Enter(st: State): (r: State)
    requires Valid(st)
    ensures Valid(r) && r.storage == st.storage && r.phase == if st.phase <= 1 then 1 else 3
  {
    if st.phase == 0 then State(1, st.storage, st.fields + [Field(|st.storage|, None)])
    else if st.phase == 2 then
      var k := |st.fields| - 1;
      State(3, st.storage, st.fields[k := st.fields[k].(value := Some(|st.storage|))])
    else st
  }

  function Put(st: State, c: byte): State {
    st.(storage := st.storage + [c])
  }

  /** What stands at the beginning of s: a character written with n bytes, or a separator. */
  datatype Token = Char(c: byte, n: nat) | Equals | And

  function TokenOf(s: seq<byte>, phase: nat): (t: Token)
    requires s != []
    ensures t.Char? ==> 1 <= t.n <= |s|
  {
    if s[0] == PERCENT && IsHex(At(s, 1)) then
      if IsHex(At(s, 2)) then Char(16 * HexValue(s[1]) + HexValue(s[2]), 3) else Char(HexValue(s[1]), 2)
    else if s[0] == PLUS then Char(SPACE, 1)
    else if phase == 1 && s[0] == EQUALS then Equals
    else if s[0] == AMPERSAND then And
    else Char(s[0], 1)
  }

  /** The state after the source s; none when a & comes with more than maxFields fields begun. */
  function Run(s: seq<byte>, st: State, maxFields: nat): (r: Option<State>)
    requires Valid(st)
    ensures r.Some? ==> Valid(r.value) && |r.value.storage| <= |st.storage| + |s|
    decreases |s|
  {
    if s == [] then Some(if st.phase == 2 then Enter(st) else st) else
    var st := Enter(st);
    match TokenOf(s, st.phase)
    case Char(c, n) => Run(s[n..], Put(st, c), maxFields)
    case Equals => Run(s[1..], Put(st, NUL).(phase := 2), maxFields)
    case And => if |st.fields| > maxFields then None else Run(s[1..], Put(st, NUL).(phase := 0), maxFields)
  }

  /** What a string comes back as: only the first two digits of a byte from 128 up are read as such. */
  function Back(s: seq<byte>): seq<byte> {
    if s == [] then [] else BackOf(s[0]) + Back(s[1..])
  }

  function BackOf(c: byte): seq<byte> {
    if c < 128 then [c] else [255, 102, 102, 102, 102, HexDigit(c / 16), HexDigit(c % 16)]
  }

  lemma RunEnters(s: seq<byte>, st: State, maxFields: nat)
    requires Valid(st) && (s != [] || st.phase != 0)
    ensures Run(s, st, maxFields) == Run(s, Enter(st), maxFields)
  {}

  // ---------------------------------------------------------------- spellings

  /** c is a hexadecimal digit of value d, with a small or a capital letter. */
  predicate IsDigitOf(c: byte, d: int) {
    (0 <= d < 10 && c == 48 + d) || (10 <= d < 16 && (c == 87 + d || c == 55 + d))
  }

  /** No digit stands at i in e. */
  ghost predicate NoDigit(e: seq<byte>, i: nat) {
    i < |e| ==> forall d :: !IsDigitOf(e[i], d)
  }

  /**
    A query spells w as e: a plus for a blank, percent and one or two digits for any byte, and other
    bytes as they are, percent before no digit among them. Only a value has an equals sign in it.
   */
  ghost predicate Spells(e: seq<byte>, w: seq<byte>, inValue: bool)
    decreases |e|
  {
    if e == [] || w == [] then e == [] && w == [] else
    || (e[0] == 43 && w[0] == 32 && Spells(e[1..], w[1..], inValue))
    || (e[0] == w[0] && e[0] !in [37, 38, 43] && (inValue || e[0] != 61) && Spells(e[1..], w[1..], inValue))
    || (e[0] == 37 && w[0] == 37 && NoDigit(e, 1) && Spells(e[1..], w[1..], inValue))
    || (e[0] == 37 && |e| > 1 && IsDigitOf(e[1], w[0]) && NoDigit(e, 2) && Spells(e[2..], w[1..], inValue))
    || (e[0] == 37 && |e| > 2 && IsDigitOf(e[1], w[0] / 16) && IsDigitOf(e[2], w[0] % 16)
        && Spells(e[3..], w[1..], inValue))
  }

  lemma DigitIsHex(c: byte, d: int)
    ensures IsDigitOf(c, d) <==> IsHex(c) && HexValue(c) == d
  {}

  lemma NoDigitIsNoHex(e: seq<byte>, i: nat, rest: seq<byte>)
    requires i <= |e| && (rest == [] || rest[0] == EQUALS || rest[0] == AMPERSAND)
    ensures NoDigit(e, i) <==> !IsHex(At(e + rest, i))
  {
    if i < |e| {
      assert (e + rest)[i] == e[i];
      if IsHex(e[i]) { DigitIsHex(e[i], HexValue(e[i])); }
      forall d | IsDigitOf(e[i], d) ensures IsHex(e[i]) { DigitIsHex(e[i], d); }
    } else if rest != [] {
      assert (e + rest)[i] == rest[0];
    }
  }

  /** Two hexadecimal digits, each written in either way, are the byte they name. */
  lemma RunHex(a: int, b: int, c: byte, d: byte, rest: seq<byte>, st: State, maxFields: nat)
    requires Valid(st) && (st.phase == 1 || st.phase == 3) && IsDigitOf(c, a) && IsDigitOf(d, b)
    ensures 0 <= 16 * a + b < 256
    ensures Run([37, c, d] + rest, st, maxFields) == Run(rest, st.(storage := st.storage + [16 * a + b]), maxFields)
  {
    DigitIsHex(c, a);
    DigitIsHex(d, b);
    hide IsHex, HexValue;
    var s := [PERCENT, c, d] + rest;
    assert s[3..] == rest;
  }

  /** The first character of a spelling, and how many bytes it takes. */
  lemma SpelledToken(e: seq<byte>, w: seq<byte>, rest: seq<byte>, phase: nat) returns (n: nat)
    requires phase == 1 || phase == 3
    requires e != [] && Spells(e, w, phase == 3) && (rest == [] || rest[0] == EQUALS || rest[0] == AMPERSAND)
    ensures 1 <= n <= |e| && w != [] && TokenOf(e + rest, phase) == Char(w[0], n)
    ensures Spells(e[n..], w[1..], phase == 3)
  {
    NoDigitIsNoHex(e, 1, rest);
    if |e| > 1 {
      NoDigitIsNoHex(e, 2, rest);
      forall d ensures IsDigitOf(e[1], d) <==> IsHex(e[1]) && HexValue(e[1]) == d { DigitIsHex(e[1], d); }
    }
    if |e| > 2 {
      forall d ensures IsDigitOf(e[2], d) <==> IsHex(e[2]) && HexValue(e[2]) == d { DigitIsHex(e[2], d); }
    }
    hide IsHex, HexValue, IsDigitOf, NoDigit;
    assert forall i :: 0 <= i < |e| ==> (e + rest)[i] == e[i];
    var t := TokenOf(e + rest, phase);
    n := if t.Char? then t.n else 1;
  }

  lemma RunChar(s: seq<byte>, st: State, maxFields: nat)
    requires Valid(st) && (st.phase == 1 || st.phase == 3) && s != [] && TokenOf(s, st.phase).Char?
    ensures var t := TokenOf(s, st.phase); Run(s, st, maxFields) == Run(s[t.n..], Put(st, t.c), maxFields)
  {
    hide TokenOf;
  }

  /** However a string is spelled, it is read. */
  lemma {:induction false} RunSpelled(e: seq<byte>, w: seq<byte>, rest: seq<byte>, st: State, maxFields: nat)
    requires Valid(st) && (st.phase == 1 || st.phase == 3)
    requires Spells(e, w, st.phase == 3) && (rest == [] || rest[0] == EQUALS || rest[0] == AMPERSAND)
    ensures Run(e + rest, st, maxFields) == Run(rest, st.(storage := st.storage + w), maxFields)
    decreases |e|
  {
    hide Run, TokenOf, IsDigitOf, NoDigit;
    if e == [] {
      assert w == [] && e + rest == rest && st.storage + w == st.storage;
    } else {
      hide Spells;
      var n := SpelledToken(e, w, rest, st.phase);
      RunChar(e + rest, st, maxFields);
      assert (e + rest)[n..] == e[n..] + rest;
      RunSpelled(e[n..], w[1..], rest, Put(st, w[0]), maxFields);
      assert st.storage + [w[0]] + w[1..] == st.storage + w;
    }
  }

  /** Any text without separators spells something. */
  lemma {:induction false} EverySpells(e: seq<byte>, inValue: bool) returns (w: seq<byte>)
    requires 38 !in e && (inValue || 61 !in e)
    ensures Spells(e, w, inValue)
    decreases |e|
  {
    if e == [] {
      w := [];
    } else {
      var phase := if inValue then 3 else 1;
      assert e + [] == e;
      NoDigitIsNoHex(e, 1, []);
      if |e| > 1 { NoDigitIsNoHex(e, 2, []); }
      var t := TokenOf(e, phase);
      var rest := EverySpells(e[t.n..], inValue);
      w := [t.c] + rest;
      assert w[1..] == rest;
      if t.n > 1 { TokenDigits(e, phase); }
      hide IsHex, HexValue, IsDigitOf, NoDigit;
    }
  }

  lemma TokenDigits(e: seq<byte>, phase: nat)
    requires e != [] && TokenOf(e, phase).Char? && TokenOf(e, phase).n > 1
    ensures var t := TokenOf(e, phase);
            && (t.n == 2 ==> IsDigitOf(e[1], t.c))
            && (t.n == 3 ==> IsDigitOf(e[1], t.c / 16) && IsDigitOf(e[2], t.c % 16))
  {
    var t := TokenOf(e, phase);
    DigitIsHex(e[1], HexValue(e[1]));
    if t.n == 3 {
      DigitIsHex(e[2], HexValue(e[2]));
      assert t.c / 16 == HexValue(e[1]) && t.c % 16 == HexValue(e[2]);
    }
  }

  /** And nothing else. */
  lemma SpellsOnce(e: seq<byte>, w: seq<byte>, w': seq<byte>, inValue: bool)
    requires Spells(e, w, inValue) && Spells(e, w', inValue)
    ensures w == w'
  {
    hide Spells, Run;
    var st := State(if inValue then 3 else 1, [], [Field(0, None)]);
    RunSpelled(e, w, [], st, 1);
    RunSpelled(e, w', [], st, 1);
    RunDone(st.(storage := [] + w), 1);
    RunDone(st.(storage := [] + w'), 1);
    assert [] + w == w && [] + w' == w';
  }

  lemma RunDone(st: State, maxFields: nat)
    requires Valid(st) && (st.phase == 1 || st.phase == 3)
    ensures Run([], st, maxFields) == Some(st)
  {}

  lemma HexDigitIsDigit(d: int)
    requires 0 <= d < 16
    ensures IsDigitOf(HexDigit(d), d) && HexDigit(d) !in [37, 38, 43, 61]
  {}

  lemma SafeIsLiteral(c: byte)
    requires IsSafe(c)
    ensures c < 128 && c !in [37, 38, 43, 61]
  {}

  lemma SpellsLiteral(c: byte, e: seq<byte>, w: seq<byte>, inValue: bool)
    requires Spells(e, w, inValue) && c !in [37, 38, 43, 61]
    ensures Spells([c] + e, [c] + w, inValue)
  {
    assert ([c] + e)[1..] == e && ([c] + w)[1..] == w;
  }

  lemma SpellsHex(a: int, b: int, e: seq<byte>, w: seq<byte>, inValue: bool)
    requires Spells(e, w, inValue) && 0 <= a < 16 && 0 <= b < 16
    ensures Spells([PERCENT, HexDigit(a), HexDigit(b)] + e, [16 * a + b] + w, inValue)
  {
    HexDigitIsDigit(a);
    HexDigitIsDigit(b);
    hide HexDigit, IsDigitOf;
    var e', w' := [PERCENT, HexDigit(a), HexDigit(b)] + e, [16 * a + b] + w;
    assert e'[3..] == e && w'[1..] == w && w'[0] / 16 == a && w'[0] % 16 == b;
  }

  /** What is written for a byte spells what it comes back as. */
  lemma UrlOfSpells(c: byte, e: seq<byte>, w: seq<byte>, inValue: bool)
    requires Spells(e, w, inValue)
    ensures Spells(UrlOf(c) + e, BackOf(c) + w, inValue)
  {
    if c == SPACE {
      assert ([PLUS] + e)[1..] == e && ([SPACE] + w)[1..] == w;
    } else if IsSafe(c) {
      SafeIsLiteral(c);
      hide IsSafe, Spells;
      SpellsLiteral(c, e, w, inValue);
    } else if c < 128 {
      hide IsSafe, Spells;
      SpellsHex(c / 16, c % 16, e, w, inValue);
      assert UrlOf(c) == [PERCENT, HexDigit(c / 16), HexDigit(c % 16)];
    } else {
      HighSpells(c, e, w, inValue);
    }
  }

  lemma HighSpells(c: byte, e: seq<byte>, w: seq<byte>, inValue: bool)
    requires Spells(e, w, inValue) && c >= 128 && !IsSafe(c)
    ensures Spells(UrlOf(c) + e, BackOf(c) + w, inValue)
  {
    hide Spells, IsSafe;
    var a, b := HexDigit(c / 16), HexDigit(c % 16);
    HexDigitIsDigit(c / 16);
    HexDigitIsDigit(c % 16);
    LiteralsSpell([102, 102, 102, 102, a, b], e, w, inValue);
    var tail := [102, 102, 102, 102, a, b];
    SpellsHex(15, 15, tail + e, tail + w, inValue);
    assert HexDigit(15) == 102;
    assert UrlOf(c) + e == [PERCENT, 102, 102] + (tail + e);
    assert BackOf(c) + w == [255] + (tail + w);
  }

  lemma {:induction false} LiteralsSpell(x: seq<byte>, e: seq<byte>, w: seq<byte>, inValue: bool)
    requires Spells(e, w, inValue) && forall i :: 0 <= i < |x| ==> x[i] !in [37, 38, 43, 61]
    ensures Spells(x + e, x + w, inValue)
  {
    hide Spells;
    if x == [] {
      assert x + e == e && x + w == w;
    } else {
      LiteralsSpell(x[1..], e, w, inValue);
      SpellsLiteral(x[0], x[1..] + e, x[1..] + w, inValue);
      assert [x[0]] + (x[1..] + e) == x + e && [x[0]] + (x[1..] + w) == x + w;
    }
  }

  /** A written string spells what it comes back as. */
  lemma {:induction false} UrlSpells(x: seq<byte>, inValue: bool)
    ensures Spells(Url(x), Back(x), inValue)
  {
    if x != [] {
      hide UrlOf, BackOf, Spells;
      UrlSpells(x[1..], inValue);
      UrlOfSpells(x[0], Url(x[1..]), Back(x[1..]), inValue);
    }
  }

  // ---------------------------------------------------------------- reading a query

  /** e spells the pair p. */
  ghost predicate SpellsPair(e: Pair, p: Pair) {
    Spells(e.name, p.name, false) && Spells(e.value, p.value, true)
  }

  ghost predicate SpellsAll(es: seq<Pair>, ps: seq<Pair>) {
    |es| == |ps| && forall i :: 0 <= i < |es| ==> SpellsPair(es[i], ps[i])
  }

  /** A query of names and values that are spelled already. */
  function Query(es: seq<Pair>): seq<byte> {
    if es == [] then [] else
    es[0].name + [EQUALS] + es[0].value + if |es| == 1 then [] else [AMPERSAND] + Query(es[1..])
  }

  /** A name and its value: the state after them. */
  function AfterPair(st: State, p: Pair): State {
    var name, value := |st.storage|, |st.storage| + |p.name| + 1;
    State(3, st.storage + p.name + [NUL] + p.value, st.fields + [Field(name, Some(value))])
  }

  lemma RunPair(e: Pair, p: Pair, rest: seq<byte>, st: State, maxFields: nat)
    requires SpellsPair(e, p) && Valid(st) && st.phase == 0 && (rest == [] || rest[0] == AMPERSAND)
    ensures Run(e.name + [EQUALS] + e.value + rest, st, maxFields) == Run(rest, AfterPair(st, p), maxFields)
  {
    hide Run, Spells, Enter, AfterPair;
    var later := e.value + rest;
    var s := e.name + ([EQUALS] + later);
    assert e.name + [EQUALS] + e.value + rest == s;
    RunEnters(s, st, maxFields);
    var st1 := Enter(st);
    RunSpelled(e.name, p.name, [EQUALS] + later, st1, maxFields);
    var st2 := st1.(storage := st1.storage + p.name);
    RunEquals(later, st2, maxFields);
    var st3 := Put(st2, NUL).(phase := 2);
    RunEnters(later, st3, maxFields);
    RunSpelled(e.value, p.value, rest, Enter(st3), maxFields);
    PairIsEntered(st, p);
  }

  lemma PairIsEntered(st: State, p: Pair)
    requires Valid(st) && st.phase == 0
    ensures var st1 := Enter(st);
            var st2 := st1.(storage := st1.storage + p.name);
            var st3 := Enter(Put(st2, NUL).(phase := 2));
            st3.(storage := st3.storage + p.value) == AfterPair(st, p)
  {
    var name, value := |st.storage|, |st.storage| + |p.name| + 1;
    var k := |st.fields|;
    assert (st.fields + [Field(name, None)])[k := Field(name, Some(value))] == st.fields + [Field(name, Some(value))];
  }

  lemma RunEquals(rest: seq<byte>, st: State, maxFields: nat)
    requires Valid(st) && st.phase == 1
    ensures Run([EQUALS] + rest, st, maxFields) == Run(rest, Put(st, NUL).(phase := 2), maxFields)
  {
    assert ([EQUALS] + rest)[1..] == rest;
  }

  /** The state before the name after a pair. */
  function AfterAnd(st: State): State {
    Put(st, NUL).(phase := 0)
  }

  function AfterPairs(st: State, ps: seq<Pair>): State
    requires ps != []
    decreases |ps|
  {
    var st := AfterPair(st, ps[0]);
    if |ps| == 1 then st else AfterPairs(AfterAnd(st), ps[1..])
  }

  lemma RunAnd(rest: seq<byte>, st: State, maxFields: nat)
    requires Valid(st) && st.phase == 3
    ensures Run([AMPERSAND] + rest, st, maxFields)
            == if |st.fields| > maxFields then None else Run(rest, AfterAnd(st), maxFields)
  {
    assert ([AMPERSAND] + rest)[1..] == rest;
  }

  lemma {:induction false} RunPairs(es: seq<Pair>, ps: seq<Pair>, st: State, maxFields: nat)
    requires SpellsAll(es, ps) && es != [] && Valid(st) && st.phase == 0 && |st.fields| <= maxFields
    ensures Run(Query(es), st, maxFields)
            == if |st.fields| + |ps| <= maxFields + 1 then Some(AfterPairs(st, ps)) else None
    decreases |es|
  {
    hide Run, SpellsPair;
    var e, p, st1 := es[0], ps[0], AfterPair(st, ps[0]);
    if |es| == 1 {
      assert Query(es) == e.name + [EQUALS] + e.value + [];
      RunPair(e, p, [], st, maxFields);
      RunDone(st1, maxFields);
    } else {
      RunPair(e, p, [AMPERSAND] + Query(es[1..]), st, maxFields);
      RunAnd(Query(es[1..]), st1, maxFields);
      if |st1.fields| <= maxFields { RunPairs(es[1..], ps[1..], AfterAnd(st1), maxFields); }
      assert Query(es) == e.name + [EQUALS] + e.value + ([AMPERSAND] + Query(es[1..]));
    }
  }

  // ---------------------------------------------------------------- the fields read

  /** Every CR LF, and every CR by itself, as a newline. */
  function Fixed(s: seq<byte>): seq<byte> {
    if s == [] then []
    else if s[0] != CR then [s[0]] + Fixed(s[1..])
    else if |s| > 1 && s[1] == NL then Fixed(s[1..])
    else [NL] + Fixed(s[1..])
  }

  /** Up to a first CR nothing changes; a CR becomes a newline, together with one that follows. */
  lemma {:induction false} FixedAtReturn(u: seq<byte>, b: seq<byte>)
    requires 13 !in u
    ensures b == [] || b[0] != 10 ==> Fixed(u + [13] + b) == u + [10] + Fixed(b)
    ensures Fixed(u + [13, 10] + b) == u + [10] + Fixed(b)
  {
    assert u + [13] + b == u + ([13] + b) && u + [13, 10] + b == u + ([13, 10] + b);
    FixedAt(u, [13] + b);
    FixedAt(u, [13, 10] + b);
    assert ([13] + b)[1..] == b && ([13, 10] + b)[1..] == [10] + b && ([10] + b)[1..] == b;
    assert Fixed([13, 10] + b) == Fixed([10] + b) == [10] + Fixed(b);
  }

  function ReadFields(storage: seq<byte>, fs: seq<Field>): seq<Pair>
    requires forall i :: 0 <= i < |fs| ==> fs[i].value.Some?
  {
    if fs == [] then [] else
    [Pair(StringAt(storage, fs[0].name), Fixed(StringAt(storage, fs[0].value.value)))] + ReadFields(storage, fs[1..])
  }

  /**
    TooMany: one field was begun behind the array of fields, and the & that ends it is reported as an
    error. Overrun: one was begun there, and nothing is reported. Unset: the value of some field was
    never set, and the original follows a wild pointer.
   */
  datatype Outcome = TooMany | Overrun | Unset | Parsed(pairs: seq<Pair>)

  /** The outcomes that come with a field begun behind the array. */
  predicate LeavesArray(outcome: Outcome) {
    outcome == TooMany || outcome == Overrun
  }

  function MaxFields(source: seq<byte>): nat {
    (|source| + 1) / 4 + 1
  }

  function Result(st: State, maxFields: nat, specials: seq<Pair>): Outcome {
    if |st.fields| > maxFields then Overrun
    else if exists f :: f in st.fields && f.value.None? then Unset
    else
      assert forall i :: 0 <= i < |st.fields| ==> st.fields[i] in st.fields;
      Parsed(ReadFields(st.storage + [NUL], st.fields) + if maxFields - |st.fields| > 4 then specials else [])
  }

  function Parse(source: seq<byte>, specials: seq<Pair>): Outcome {
    match Run(source, State(0, [], []), MaxFields(source))
    case None => TooMany
    case Some(st) => Result(st, MaxFields(source), specials)
  }

  // ---------------------------------------------------------------- the round trip

  /** The pairs as they are handed on, their values fixed. */
  function AllFixed(ps: seq<Pair>): (r: seq<Pair>)
    ensures |r| == |ps| && forall i :: 0 <= i < |ps| ==> r[i] == Pair(ps[i].name, Fixed(ps[i].value))
  {
    if ps == [] then [] else [Pair(ps[0].name, Fixed(ps[0].value))] + AllFixed(ps[1..])
  }

  function Cells(p: Pair): seq<byte> {
    p.name + [NUL] + p.value + [NUL]
  }

  function AllCells(ps: seq<Pair>): seq<byte> {
    if ps == [] then [] else Cells(ps[0]) + AllCells(ps[1..])
  }

  function FieldOf(p: Pair, base: nat): Field {
    Field(base, Some(base + |p.name| + 1))
  }

  function FieldsOf(ps: seq<Pair>, base: nat): (r: seq<Field>)
    ensures |r| == |ps| && forall f :: f in r ==> f.value.Some?
  {
    if ps == [] then [] else [FieldOf(ps[0], base)] + FieldsOf(ps[1..], base + |Cells(ps[0])|)
  }

  lemma {:induction false} AfterPairsIs(st: State, ps: seq<Pair>)
    requires ps != []
    ensures AfterPairs(st, ps).storage + [NUL] == st.storage + AllCells(ps)
    ensures AfterPairs(st, ps).fields == st.fields + FieldsOf(ps, |st.storage|)
    decreases |ps|
  {
    AfterPairCells(st, ps[0]);
    hide Cells, FieldOf, AfterPair;
    var st1 := AfterPair(st, ps[0]);
    if |ps| == 1 {
      assert ps[1..] == [];
      assert AllCells(ps) == Cells(ps[0]) + [] && FieldsOf(ps, |st.storage|) == [FieldOf(ps[0], |st.storage|)] + [];
    } else {
      AfterPairsIs(AfterAnd(st1), ps[1..]);
      Chain(st.storage, Cells(ps[0]), AllCells(ps[1..]));
      Chain(st.fields, [FieldOf(ps[0], |st.storage|)], FieldsOf(ps[1..], |st.storage| + |Cells(ps[0])|));
    }
  }

  lemma AfterPairCells(st: State, p: Pair)
    ensures AfterPair(st, p).storage + [NUL] == st.storage + Cells(p)
    ensures AfterPair(st, p).fields == st.fields + [FieldOf(p, |st.storage|)]
  {}

  lemma {:induction false} BackHasNoNul(s: seq<byte>)
    requires NUL !in s
    ensures NUL !in Back(s)
  {
    if s != [] { BackHasNoNul(s[1..]); }
  }

  lemma StringThen(pre: seq<byte>, x: seq<byte>, post: seq<byte>)
    requires NUL !in x
    ensures StringAt(pre + x + [NUL] + post, |pre|) == x
  {
    CStringThen(x, post);
    hide CString;
    assert (pre + x + [NUL] + post)[|pre|..] == x + [NUL] + post;
  }

  lemma CellsText(pre: seq<byte>, p: Pair, post: seq<byte>)
    ensures var n, v := p.name, p.value;
            && pre + Cells(p) + post == pre + n + [NUL] + (v + [NUL] + post)
            && pre + Cells(p) + post == (pre + n + [NUL]) + v + [NUL] + post
  {}

  /** A field read where its pair's cells are. */
  lemma {:induction false} ReadCell(pre: seq<byte>, p: Pair, post: seq<byte>)
    requires NUL !in p.name && NUL !in p.value
    ensures var f, storage := FieldOf(p, |pre|), pre + Cells(p) + post;
            StringAt(storage, f.name) == p.name && StringAt(storage, f.value.value) == p.value
  {
    var n, v := p.name, p.value;
    hide StringAt, Cells;
    CellsText(pre, p, post);
    StringThen(pre, n, v + [NUL] + post);
    StringThen(pre + n + [NUL], v, post);
    assert |pre + n + [NUL]| == FieldOf(p, |pre|).value.value;
  }

  ghost predicate Strings(ps: seq<Pair>) {
    forall i :: 0 <= i < |ps| ==> NUL !in ps[i].name && NUL !in ps[i].value
  }

  lemma {:induction false} ReadCells(pre: seq<byte>, ps: seq<Pair>)
    requires Strings(ps)
    ensures ReadFields(pre + AllCells(ps), FieldsOf(ps, |pre|)) == AllFixed(ps)
    decreases |ps|
  {
    if ps != [] {
      var p, rest := ps[0], ps[1..];
      ReadCell(pre, p, AllCells(rest));
      ReadCells(pre + Cells(p), rest);
      CellsGo(pre, ps);
      hide *;
      ReadOne(pre, ps, pre + AllCells(ps));
    }
  }

  lemma ReadOne(pre: seq<byte>, ps: seq<Pair>, storage: seq<byte>)
    requires ps != []
    requires var f := FieldOf(ps[0], |pre|);
             StringAt(storage, f.name) == ps[0].name && StringAt(storage, f.value.value) == ps[0].value
    requires ReadFields(storage, FieldsOf(ps[1..], |pre + Cells(ps[0])|)) == AllFixed(ps[1..])
    ensures ReadFields(storage, FieldsOf(ps, |pre|)) == AllFixed(ps)
  {
    hide Cells, StringAt, FieldOf, Fixed;
    var fs := FieldsOf(ps, |pre|);
    assert fs[0] == FieldOf(ps[0], |pre|) && fs[1..] == FieldsOf(ps[1..], |pre + Cells(ps[0])|);
  }

  lemma CellsGo(pre: seq<byte>, ps: seq<Pair>)
    requires ps != []
    ensures pre + AllCells(ps) == pre + Cells(ps[0]) + AllCells(ps[1..])
  {
    hide Cells;
  }

  lemma {:induction false} ResultIs(st: State, ps: seq<Pair>, max: nat, specials: seq<Pair>)
    requires Strings(ps)
    requires st.storage + [NUL] == AllCells(ps) && st.fields == FieldsOf(ps, 0)
    ensures Result(st, max, specials)
            == if |ps| <= max then Parsed(AllFixed(ps) + if max - |ps| > 4 then specials else []) else Overrun
  {
    ReadCells([], ps);
    hide ReadFields, FieldsOf, AllCells, AllFixed;
    assert [] + AllCells(ps) == AllCells(ps);
  }

  /**
    However the pairs of C strings are spelled: what reading makes of their query. They come back, up
    to CRs in values, exactly when there are at most MaxFields of them.
   */
  lemma SpelledIsParsed(es: seq<Pair>, ps: seq<Pair>, specials: seq<Pair>)
    requires SpellsAll(es, ps) && Strings(ps)
    ensures var max := MaxFields(Query(es));
            Parse(Query(es), specials)
            == if |ps| <= max then Parsed(AllFixed(ps) + if max - |ps| > 4 then specials else [])
               else if |ps| == max + 1 then Overrun
               else TooMany
  {
    var max, start := MaxFields(Query(es)), State(0, [], []);
    if ps == [] {
      assert Run([], start, max) == Some(start);
    } else {
      RunPairs(es, ps, start, max);
      AfterPairsIs(start, ps);
      hide Run, AfterPairs, Query, FieldsOf, AllCells, Result, MaxFields, AllFixed, SpellsAll;
      assert [] + AllCells(ps) == AllCells(ps) && [] + FieldsOf(ps, 0) == FieldsOf(ps, 0);
      if |ps| <= max + 1 {
        ResultIs(AfterPairs(start, ps), ps, max, specials);
      }
    }
  }

  /** A query of one field, its name and value spelled in any way. */
  lemma FieldIsParsed(name: seq<byte>, value: seq<byte>, n: seq<byte>, v: seq<byte>, specials: seq<Pair>)
    requires Spells(name, n, false) && Spells(value, v, true) && NUL !in n && NUL !in v
    ensures Parse(name + [61] + value, specials)
         == Parsed([Pair(n, Fixed(v))] + if (|name| + |value| + 2) / 4 > 4 then specials else [])
  {
    var es, ps := [Pair(name, value)], [Pair(n, v)];
    assert SpellsPair(es[0], ps[0]) by { hide Spells; }
    hide Spells, Fixed, Parse;
    SpelledIsParsed(es, ps, specials);
    assert Query(es) == name + [61] + value;
    assert AllFixed(ps) == [Pair(n, Fixed(v))];
    assert MaxFields(Query(es)) == (|name| + |value| + 2) / 4 + 1;
  }

  lemma SlashSpells(e: seq<byte>)
    requires e == [37, 50, 70] || e == [37, 50, 102]
    ensures Spells(e, [47], true) && Spells([97], [97], false)
  {
    assert IsDigitOf(50, 2) && IsDigitOf(70, 15) && IsDigitOf(102, 15);
    assert e[3..] == [] && [47][1..] == [] && [97][1..] == [];
    hide IsDigitOf, NoDigit;
    assert Spells([], [], true) && Spells([], [], false);
  }

  /** The query a=%2F is a slash, and so is a=%2f. */
  lemma SlashIsParsed(specials: seq<Pair>)
    ensures Parse(Ascii("a=%2F"), specials) == Parsed([Pair(Ascii("a"), Ascii("/"))])
    ensures Parse(Ascii("a=%2f"), specials) == Parsed([Pair(Ascii("a"), Ascii("/"))])
  {
    hide Spells, Parse, Fixed;
    var big, small := [37, 50, 70], [37, 50, 102];
    SlashSpells(big);
    SlashSpells(small);
    FixedHasNoReturn([47]);
    FieldIsParsed([97], big, [97], [47], specials);
    FieldIsParsed([97], small, [97], [47], specials);
    assert Ascii("a=%2F") == [97] + [61] + big && Ascii("a=%2f") == [97] + [61] + small;
    assert Ascii("a") == [97] && Ascii("/") == [47];
  }

  /** A pair as it comes back. */
  function Returned(p: Pair): Pair {
    Pair(Back(p.name), Fixed(Back(p.value)))
  }

  function AllReturned(ps: seq<Pair>): (r: seq<Pair>)
    ensures |r| == |ps| && forall i :: 0 <= i < |ps| ==> r[i] == Returned(ps[i])
  {
    seq(|ps|, i requires 0 <= i < |ps| => Returned(ps[i]))
  }

  /** The names and values as they are written. */
  function AllUrls(ps: seq<Pair>): seq<Pair> {
    seq(|ps|, i requires 0 <= i < |ps| => Pair(Url(ps[i].name), Url(ps[i].value)))
  }

  lemma {:induction false} PrintedIsQuery(ps: seq<Pair>)
    ensures Printed(ps) == Query(AllUrls(ps))
    decreases |ps|
  {
    hide Url;
    if ps != [] {
      PrintedIsQuery(ps[1..]);
      assert AllUrls(ps)[1..] == AllUrls(ps[1..]);
    }
  }

  /**
    For all pairs of C strings: what reading makes of their query. They come back, up to bytes from
    128 up in names and values and CRs in values, exactly when there are at most MaxFields of them.
   */
  lemma QueryIsParsed(ps: seq<Pair>, specials: seq<Pair>)
    requires Strings(ps)
    ensures var max := MaxFields(Printed(ps));
            Parse(Printed(ps), specials)
            == if |ps| <= max then Parsed(AllReturned(ps) + if max - |ps| > 4 then specials else [])
               else if |ps| == max + 1 then Overrun
               else TooMany
    ensures LeavesArray(Parse(Printed(ps), specials)) <==> |ps| > MaxFields(Printed(ps))
  {
    hide Back, Url, Spells, Fixed, Printed, Query, Parse, MaxFields;
    var es, bs := AllUrls(ps), seq(|ps|, i requires 0 <= i < |ps| => Pair(Back(ps[i].name), Back(ps[i].value)));
    forall i | 0 <= i < |ps| ensures SpellsPair(es[i], bs[i]) && NUL !in bs[i].name && NUL !in bs[i].value {
      UrlSpells(ps[i].name, false);
      UrlSpells(ps[i].value, true);
      BackHasNoNul(ps[i].name);
      BackHasNoNul(ps[i].value);
    }
    PrintedIsQuery(ps);
    SpelledIsParsed(es, bs, specials);
    assert AllFixed(bs) == AllReturned(ps);
  }

  lemma {:induction false} BackLength(s: seq<byte>)
    ensures |Back(s)| >= |s|
    ensures Back(s) == s <==> SevenBit(s)
    ensures |Back(s)| == |s| ==> SevenBit(s)
  {
    if s != [] {
      BackLength(s[1..]);
      assert s == [s[0]] + s[1..];
      if s[0] < 128 {
        assert Back(s)[1..] == Back(s[1..]);
      }
    }
  }

  lemma {:induction false} BackKeepsReturns(s: seq<byte>)
    ensures CR in Back(s) <==> CR in s
  {
    if s != [] {
      BackKeepsReturns(s[1..]);
      assert CR in BackOf(s[0]) <==> s[0] == CR;
    }
  }

  lemma {:induction false} FixedHasNoReturn(s: seq<byte>)
    ensures CR !in Fixed(s) && (CR !in s ==> Fixed(s) == s)
  {
    if s != [] { FixedHasNoReturn(s[1..]); }
  }

  lemma ValueReturns(v: seq<byte>)
    ensures Fixed(Back(v)) == v <==> SevenBit(v) && CR !in v
  {
    BackLength(v);
    BackKeepsReturns(v);
    FixedHasNoReturn(Back(v));
  }

  /** What a pair needs to come back as it was. */
  predicate Plain(p: Pair) {
    SevenBit(p.name) && SevenBit(p.value) && CR !in p.value
  }

  lemma PairReturns(p: Pair)
    ensures Returned(p) == p <==> Plain(p)
  {
    BackLength(p.name);
    ValueReturns(p.value);
  }

  /**
    Printing pairs of C strings and parsing the query gives the same pairs exactly when they are
    Plain and not too many.
   */
  lemma {:induction false} RoundTrip(ps: seq<Pair>, specials: seq<Pair>)
    requires Strings(ps)
    ensures var max := MaxFields(Printed(ps));
            Parse(Printed(ps), specials) == Parsed(ps + if max - |ps| > 4 then specials else [])
            <==> |ps| <= max && forall i :: 0 <= i < |ps| ==> Plain(ps[i])
  {
    hide Parse, MaxFields, Plain, Returned, Printed, Strings;
    QueryIsParsed(ps, specials);
    var max, r := MaxFields(Printed(ps)), AllReturned(ps);
    forall i | 0 <= i < |ps| ensures r[i] == ps[i] <==> Plain(ps[i]) { PairReturns(ps[i]); }
    var rest := if max - |ps| > 4 then specials else [];
    assert r + rest == ps + rest ==> r == (r + rest)[..|ps|] == (ps + rest)[..|ps|] == ps;
    if forall i :: 0 <= i < |ps| ==> Plain(ps[i]) { assert r == ps; }
  }

  lemma {:induction false} UrlLength(s: seq<byte>)
    ensures |Url(s)| >= |s|
  {
    if s != [] { UrlLength(s[1..]); }
  }

  lemma {:induction false} PrintedLength(ps: seq<Pair>)
    requires forall i :: 0 <= i < |ps| ==> ps[i].name != [] && ps[i].value != []
    ensures ps != [] ==> |Printed(ps)| >= 4 * |ps| - 1
    decreases |ps|
  {
    if ps != [] {
      UrlLength(ps[0].name);
      UrlLength(ps[0].value);
      PrintedLength(ps[1..]);
    }
  }

  /** The fields of a query whose names and values are all non-empty always fit. */
  lemma NonEmptyFits(ps: seq<Pair>)
    requires forall i :: 0 <= i < |ps| ==> ps[i].name != [] && ps[i].value != []
    ensures |ps| <= MaxFields(Printed(ps))
  {
    PrintedLength(ps);
  }

  // ---------------------------------------------------------------- the CR/LF fix in place

  /** strcpy of the string after p to p, which leaves the byte at p out. */
  method CloseUp(a: array<byte>, p: nat, ghost rest: seq<byte>)
    requires p < a.Length && Holds(a[..], p + 1, rest)
    modifies a
    ensures Holds(a[..], p, rest)
    ensures forall i :: 0 <= i < p || p + 1 + |rest| <= i < a.Length ==> a[i] == old(a[i])
  {
    ghost var before := a[..];
    assert forall j :: 0 <= j < |rest| ==> before[p + 1 + j] == rest[j] != NUL by {
      assert forall j :: 0 <= j < |rest| ==> before[p + 1..p + 1 + |rest|][j] == rest[j];
    }
    var i := p;
    while a[i + 1] != NUL
      invariant p <= i <= p + |rest|
      invariant forall j :: p <= j < i ==> a[j] == before[j + 1]
      invariant forall j :: 0 <= j < p || i <= j < a.Length ==> a[j] == before[j]
      decreases p + |rest| - i
    {
      a[i] := a[i + 1];
      i := i + 1;
    }
    assert a[i + 1] == before[p + 1 + (i - p)];
    a[i] := NUL;
    assert a[..][p..p + |rest|] == rest;
  }

  /** A string with its first CR. */
  lemma {:induction false} FixedAt(u: seq<byte>, b: seq<byte>)
    requires CR !in u
    ensures Fixed(u + b) == u + Fixed(b)
  {
    if u == [] {
      assert u + b == b;
    } else {
      assert (u + b)[1..] == u[1..] + b;
      FixedAt(u[1..], b);
    }
  }

  /** What one round of the fix makes of the string t whose first CR is at k. */
  function FixOne(t: seq<byte>, k: nat): seq<byte>
    requires k < |t|
  {
    if k + 1 < |t| && t[k + 1] == NL then t[..k] + t[k + 1..] else t[k := NL]
  }

  lemma FixOneKeeps(t: seq<byte>, k: nat)
    requires k < |t| && t[k] == CR && CR !in t[..k] && NUL !in t
    ensures Fixed(FixOne(t, k)) == Fixed(t) && NUL !in FixOne(t, k)
    ensures forall j :: 0 <= j < |FixOne(t, k)| && FixOne(t, k)[j] == CR ==> j >= k && |FixOne(t, k)| - j < |t| - k
  {
    var u, b := t[..k], t[k + 1..];
    assert t == u + ([CR] + b);
    FixedAt(u, [CR] + b);
    assert ([CR] + b)[1..] == b;
    if b != [] && b[0] == NL {
      FixedAt(u, b);
      assert FixOne(t, k) == u + b;
    } else {
      FixedAt(u, [NL] + b);
      assert ([NL] + b)[1..] == b;
      assert t[k := NL] == u + ([NL] + b);
    }
    assert forall j :: 0 <= j < k ==> FixOne(t, k)[j] == u[j] != CR;
  }

  /** The string when the part from k on has been closed up. */
  lemma ClosedUp(before: seq<byte>, s: seq<byte>, p: nat, t: seq<byte>, k: nat)
    requires Holds(before, p, t) && k < |t| && |s| == |before|
    requires Holds(s, p + k, t[k + 1..]) && forall i :: 0 <= i < p + k ==> s[i] == before[i]
    ensures Holds(s, p, t[..k] + t[k + 1..])
  {
    assert s[p..p + k] == before[p..p + |t|][..k] == t[..k];
    assert s[p..p + |t| - 1] == s[p..p + k] + s[p + k..p + |t| - 1];
  }

  lemma Replaced(before: seq<byte>, s: seq<byte>, p: nat, t: seq<byte>, k: nat)
    requires Holds(before, p, t) && k < |t| && s == before[p + k := NL]
    ensures Holds(s, p, t[k := NL])
  {
    assert s[p..p + |t|] == before[p..p + |t|][k := NL];
  }

  lemma TailHolds(s: seq<byte>, p: nat, t: seq<byte>, k: nat)
    requires Holds(s, p, t) && k < |t|
    ensures Holds(s, p + k + 1, t[k + 1..]) && (s[p + k + 1] == NL <==> k + 1 < |t| && t[k + 1] == NL)
  {
    assert forall i :: 0 <= i < |t| ==> s[p + i] == s[p..p + |t|][i] == t[i];
    assert s[p + k + 1..p + |t|] == t[k + 1..];
  }

  method FixRound(a: array<byte>, p: nat, ptr: nat, ghost t: seq<byte>)
    requires Holds(a[..], p, t) && p <= ptr < p + |t| < a.Length && t[ptr - p] == CR && CR !in t[..ptr - p]
    modifies a
    ensures Holds(a[..], p, FixOne(t, ptr - p))
    ensures forall i :: 0 <= i < p || p + |t| <= i < a.Length ==> a[i] == old(a[i])
  {
    ghost var before, k := a[..], ptr - p;
    TailHolds(before, p, t, k);
    hide Holds;
    if a[ptr + 1] == NL {
      CloseUp(a, ptr, t[k + 1..]);
      ClosedUp(before, a[..], p, t, k);
    } else {
      a[ptr] := NL;
      assert a[..] == before[p + k := NL];
      Replaced(before, a[..], p, t, k);
    }
  }

  /** Fixes the string t at p; nothing changes but inside it. */
  method FixCrlf(a: array<byte>, p: nat, ghost t: seq<byte>)
    requires Holds(a[..], p, t)
    modifies a
    ensures Holds(a[..], p, Fixed(t)) && |Fixed(t)| <= |t|
    ensures forall i :: 0 <= i < p || p + |t| <= i < a.Length ==> a[i] == old(a[i])
  {
    ghost var now := t;
    hide Fixed, Holds, FixOne;
    HoldsFits(a[..], p, t);
    var ptr := Strchr(a, p, CR, now);
    while ptr >= 0
      invariant Holds(a[..], p, now) && Fixed(now) == Fixed(t) && |now| <= |t|
      invariant ptr >= 0 ==> p <= ptr < p + |now| && now[ptr - p] == CR && CR !in now[..ptr - p]
      invariant ptr < 0 ==> CR !in now
      invariant forall i :: 0 <= i < p || p + |t| <= i < a.Length ==> a[i] == old(a[i])
      decreases if ptr < 0 then 0 else p + |now| - ptr
    {
      HoldsFits(a[..], p, now);
      NoNul(a[..], p, now);
      FixOneKeeps(now, ptr - p);
      FixOneShorter(now, ptr - p);
      FixRound(a, p, ptr, now);
      now := FixOne(now, ptr - p);
      ptr := Strchr(a, p, CR, now);
    }
    FixedHasNoReturn(now);
  }

  lemma FixOneShorter(t: seq<byte>, k: nat)
    requires k < |t|
    ensures |FixOne(t, k)| <= |t|
  {}
}
