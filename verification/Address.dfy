/** Taking a name and an e-mail address out of a line, in place. */
module Address {
  import opened Bytes
  import opened CStrings
  import opened Wrappers

  const TAB: byte := 9
  const QUOTE: byte := 34
  const APOSTROPHE: byte := 39
  const COMMA: byte := 44
  const SEMICOLON: byte := 59
  const LESS: byte := 60
  const GREATER: byte := 62

  const DELIMITERS: seq<byte> := [COMMA, SEMICOLON]
  const SKIP: seq<byte> := [SPACE, TAB, QUOTE, APOSTROPHE]
  const SKIP_END: seq<byte> := [SPACE, TAB, QUOTE, APOSTROPHE, NL]

  // ---------------------------------------------------------------- searches

  /** The first place in s of a byte in stop, or -1. */
  function FirstIn(s: seq<byte>, stop: seq<byte>): (r: int)
    ensures -1 <= r < |s|
    ensures r >= 0 ==> s[r] in stop && forall j :: 0 <= j < r ==> s[j] !in stop
    ensures r < 0 ==> forall j :: 0 <= j < |s| ==> s[j] !in stop
  {
    if s == [] then -1 else if s[0] in stop then 0 else
    var r := FirstIn(s[1..], stop);
    if r < 0 then -1 else 1 + r
  }

  /** The first place in s of a byte not in skip, or -1. */
  function FirstOut(s: seq<byte>, skip: seq<byte>): (r: int)
    ensures -1 <= r < |s|
    ensures r >= 0 ==> s[r] !in skip && forall j :: 0 <= j < r ==> s[j] in skip
    ensures r < 0 ==> forall j :: 0 <= j < |s| ==> s[j] in skip
  {
    if s == [] then -1 else if s[0] !in skip then 0 else
    var r := FirstOut(s[1..], skip);
    if r < 0 then -1 else 1 + r
  }

  /** The last place in s of the byte c, or -1. */
  function LastOf(s: seq<byte>, c: byte): (r: int)
    ensures -1 <= r < |s|
    ensures r >= 0 ==> s[r] == c && forall j :: r < j < |s| ==> s[j] != c
    ensures r < 0 ==> c !in s
  {
    if s == [] then -1 else if s[|s| - 1] == c then |s| - 1 else LastOf(s[..|s| - 1], c)
  }

  /** The last place in s of a byte not in skip, or -1. */
  function LastOut(s: seq<byte>, skip: seq<byte>): (r: int)
    ensures -1 <= r < |s|
    ensures r >= 0 ==> s[r] !in skip && forall j :: r < j < |s| ==> s[j] in skip
    ensures r < 0 ==> forall j :: 0 <= j < |s| ==> s[j] in skip
  {
    if s == [] then -1 else if s[|s| - 1] !in skip then |s| - 1 else LastOut(s[..|s| - 1], skip)
  }

  // ---------------------------------------------------------------- the parse

  datatype Addr = Addr(name: Option<seq<byte>>, email: Option<seq<byte>>)

  /** The address, and where the rest of the line begins, -1 when there is none. */
  datatype Filled = Filled(addr: Addr, rest: int)

  function FirstInFrom(s: seq<byte>, i: nat, stop: seq<byte>): (r: int)
    requires i <= |s|
    ensures r == -1 || i <= r < |s|
  {
    var k := FirstIn(s[i..], stop);
    if k < 0 then -1 else i + k
  }

  /** The delimiter that ends the first address; one inside the first quotes is passed over. */
  function Delimiter(s: seq<byte>): (r: int)
    ensures -1 <= r < |s|
  {
    var q1 := FirstIn(s, [QUOTE]);
    var q2 := if q1 < 0 then -1 else FirstInFrom(s, q1 + 1, [QUOTE]);
    var r := FirstIn(s, DELIMITERS);
    if 0 <= q1 < r < q2 then FirstInFrom(s, q2, DELIMITERS) else r
  }

  /** s without what is to be skipped at its ends; none when that is all of it. */
  function Stripped(s: seq<byte>, end: seq<byte>): Option<seq<byte>> {
    var k := LastOut(s, end);
    var t := if k < 0 then s else s[..k + 1];
    var b := FirstOut(t, SKIP);
    if b < 0 then None else Some(t[b..])
  }

  function Fill(s: seq<byte>): Addr {
    var end := LastOf(s, GREATER);
    var start := LastOf(s, LESS);
    if 0 <= start < end then
      Addr(Stripped(s[..start], SKIP_END), Stripped(s[start + 1..end], SKIP))
    else
      match Stripped(s, SKIP_END)
      case None => Addr(None, None)
      case Some(t) => if ValidEmail(t) then Addr(None, Some(t)) else Addr(Some(t), None)
  }

  function FillAddr(s: seq<byte>): Filled {
    var r := Delimiter(s);
    if r < 0 then Filled(Fill(s), -1) else Filled(Fill(s[..r]), r + 1)
  }

  const AT: byte := 64
  const DOT: byte := 46

  function At(s: seq<byte>, i: int): byte {
    if 0 <= i < |s| then s[i] else NUL
  }

  /** Every dot from i on is followed by a character other than a dot. */
  predicate DotsFollowed(s: seq<byte>, i: nat) {
    forall j :: i <= j < |s| && s[j] == DOT ==> At(s, j + 1) != NUL && At(s, j + 1) != DOT
  }

  /** An address without a name: one @, dots after it, none of them doubled or at an end. */
  predicate ValidEmail(s: seq<byte>) {
    && FirstIn(s, [44, 59, 58, 32, 9, 10, 39, 34, 60, 62, 40, 41, 91, 93, 92]) < 0
    && At(s, 0) != AT && At(s, 0) != DOT
    && var a := FirstIn(s, [AT]);
       && a >= 0 && FirstInFrom(s, a + 1, [AT]) < 0 && At(s, a + 1) != DOT
       && FirstInFrom(s, a, [DOT]) >= 0 && DotsFollowed(s, a)
  }

  // ---------------------------------------------------------------- what is written is what is read

  /** A line of the address book. */
  function Line(name: seq<byte>, email: seq<byte>): seq<byte> {
    [TAB, QUOTE] + name + [QUOTE, SPACE, LESS] + email + [GREATER, NL]
  }

  /** The name begins and ends with characters that are kept, and has no delimiter after a quote. */
  predicate CleanName(name: seq<byte>) {
    KeptEnds(name) && QuoteOrDelimiter(name)
  }

  predicate KeptEnds(name: seq<byte>) {
    name != [] ==> name[0] !in SKIP && name[|name| - 1] !in SKIP
  }

  /** No delimiter comes after the first quote. */
  predicate QuoteOrDelimiter(name: seq<byte>) {
    var q := FirstIn(name, [QUOTE]);
    q >= 0 ==> forall i :: q < i < |name| ==> name[i] !in DELIMITERS
  }

  /** The address is not empty, begins and ends with characters that are kept, and has no < and no delimiter. */
  predicate CleanEmail(email: seq<byte>) {
    email != [] && KeptEnds(email) && LESS !in email && NoDelimiter(email)
  }

  predicate NoDelimiter(email: seq<byte>) {
    forall i :: 0 <= i < |email| ==> email[i] !in DELIMITERS
  }

  function NameOf(name: seq<byte>): Option<seq<byte>> {
    if name == [] then None else Some(name)
  }

  lemma FirstInIs(s: seq<byte>, stop: seq<byte>, k: nat)
    requires k < |s| && s[k] in stop && forall j :: 0 <= j < k ==> s[j] !in stop
    ensures FirstIn(s, stop) == k
  {
    hide FirstIn;
  }

  /** The bytes of a line, one by one. */
  lemma LineBytes(name: seq<byte>, email: seq<byte>)
    ensures var s, n, e := Line(name, email), |name|, |email|;
            && |s| == n + e + 7 && s[0] == TAB && s[1] == QUOTE && s[n + 2] == QUOTE && s[n + 3] == SPACE
            && s[n + 4] == LESS && s[n + e + 5] == GREATER && s[n + e + 6] == NL
            && (forall i :: 0 <= i < n ==> s[2..][i] == name[i]) && (forall i :: 2 <= i < n + 2 ==> s[i] == name[i - 2])
            && forall i :: n + 5 <= i < n + e + 5 ==> s[i] == email[i - n - 5]
  {}

  /** Where the quotes of a line are. */
  lemma LineQuotes(name: seq<byte>, email: seq<byte>)
    ensures var s, q := Line(name, email), FirstIn(name, [QUOTE]);
            |s| > 2 && FirstIn(s, [QUOTE]) == 1 && FirstInFrom(s, 2, [QUOTE]) == 2 + if q < 0 then |name| else q
  {
    LineBytes(name, email);
    hide FirstIn, Line;
    var s, n, q := Line(name, email), |name|, FirstIn(name, [QUOTE]);
    FirstInIs(s, [QUOTE], 1);
    assert s[2..][n] == s[n + 2];
    FirstInIs(s[2..], [QUOTE], if q < 0 then n else q);
  }

  /** A delimiter stands in a line only in the name or in the address. */
  lemma DelimitersInside(name: seq<byte>, email: seq<byte>, i: nat)
    requires NoDelimiter(email) && i < |Line(name, email)|
    ensures Line(name, email)[i] in DELIMITERS ==> 2 <= i < |name| + 2 && Line(name, email)[i] == name[i - 2]
  {
    LineBytes(name, email);
    hide Line;
    if i >= |name| + 5 && i < |name| + |email| + 5 { assert Line(name, email)[i] == email[i - |name| - 5]; }
  }

  /** The line is read as one address exactly when no delimiter follows a quote in the name or is in the address. */
  lemma LineDelimiter(name: seq<byte>, email: seq<byte>)
    ensures Delimiter(Line(name, email)) == -1 <==> QuoteOrDelimiter(name) && NoDelimiter(email)
  {
    hide Line, Delimiter, QuoteOrDelimiter;
    if NoDelimiter(email) {
      NameDelimiter(name, email);
    } else {
      var i :| 0 <= i < |email| && email[i] in DELIMITERS;
      hide NoDelimiter, DELIMITERS;
      EmailDelimiter(name, email, i);
    }
  }

  /** A delimiter in the address comes after the first two quotes. */
  lemma EmailDelimiter(name: seq<byte>, email: seq<byte>, i: nat)
    requires i < |email| && email[i] in DELIMITERS
    ensures Delimiter(Line(name, email)) >= 0
  {
    LineQuotes(name, email);
    LineBytes(name, email);
    var s, n, q := Line(name, email), |name|, FirstIn(name, [QUOTE]);
    var q2 := 2 + if q < 0 then n else q;
    hide FirstIn, Line, DELIMITERS;
    assert s[n + 5 + i] == email[i];
    assert s[q2..][n + 5 + i - q2] == s[n + 5 + i];
  }

  lemma NameDelimiter(name: seq<byte>, email: seq<byte>)
    requires NoDelimiter(email)
    ensures Delimiter(Line(name, email)) == -1 <==> QuoteOrDelimiter(name)
  {
    var s, n, q := Line(name, email), |name|, FirstIn(name, [QUOTE]);
    var q2 := 2 + if q < 0 then n else q;
    hide FirstIn, Line, NoDelimiter, DELIMITERS;
    LineQuotes(name, email);
    if q >= 0 && !QuoteOrDelimiter(name) {
      var i :| q < i < n && name[i] in DELIMITERS;
      LineBytes(name, email);
      assert s[i + 2] in DELIMITERS && s[q2..][i + 2 - q2] == s[i + 2];
    } else {
      NoneBehindQuotes(name, email, q2);
    }
  }

  lemma NoneBehindQuotes(name: seq<byte>, email: seq<byte>, q2: nat)
    requires NoDelimiter(email) && QuoteOrDelimiter(name)
    requires var q := FirstIn(name, [QUOTE]); q2 == 2 + if q < 0 then |name| else q
    ensures var s := Line(name, email); q2 <= |s| && forall i :: q2 <= i < |s| ==> s[i] !in DELIMITERS
    ensures forall i :: 0 <= i < 2 ==> Line(name, email)[i] !in DELIMITERS
  {
    var s, n, q := Line(name, email), |name|, FirstIn(name, [QUOTE]);
    LineBytes(name, email);
    forall i | 0 <= i < |s| ensures s[i] in DELIMITERS ==> 2 <= i < n + 2 && s[i] == name[i - 2] {
      DelimitersInside(name, email, i);
    }
    hide FirstIn, Line, NoDelimiter;
    assert q >= 0 ==> name[q] == QUOTE;
    forall i | q2 <= i < |s| ensures s[i] !in DELIMITERS {
      if i == q2 && q >= 0 { assert s[i] == name[q]; }
    }
  }

  /** What is stripped for the name of a line. */
  function Quoted(name: seq<byte>): (s: seq<byte>)
    ensures |s| == |name| + 4 && s[0] == TAB && s[1] == QUOTE && s[|name| + 2] == QUOTE && s[|name| + 3] == SPACE
    ensures forall i :: 2 <= i < |name| + 2 ==> s[i] == name[i - 2]
    ensures s[..|name| + 2] == [TAB, QUOTE] + name
  {
    [TAB, QUOTE] + name + [QUOTE, SPACE]
  }

  lemma StrippedName(name: seq<byte>)
    ensures NL !in name ==> (Stripped(Quoted(name), SKIP_END) == NameOf(name) <==> KeptEnds(name))
  {
    hide Stripped, Quoted, KeptEnds;
    if NL !in name {
      if name == [] { NothingKept(); } else if KeptEnds(name) { EndsKept(name); } else { EndsStripped(name); }
    }
  }

  lemma NothingKept()
    ensures Stripped(Quoted([]), SKIP_END) == None && KeptEnds([])
  {
    hide FirstOut, LastOut;
    var s := Quoted([]);
    assert forall i :: 0 <= i < 4 ==> s[i] in SKIP_END && s[i] in SKIP;
  }

  lemma EndsKept(name: seq<byte>)
    requires name != [] && KeptEnds(name) && NL !in name
    ensures Stripped(Quoted(name), SKIP_END) == Some(name)
  {
    var s, n := Quoted(name), |name|;
    hide FirstOut, LastOut, Quoted;
    assert name[n - 1] in name && name[n - 1] !in SKIP_END && s[n + 1] == name[n - 1];
    assert LastOut(s, SKIP_END) == n + 1;
    var t := s[..n + 2];
    assert t[0] in SKIP && t[1] in SKIP && t[2] == name[0];
    assert FirstOut(t, SKIP) == 2 && t[2..] == name;
  }

  lemma EndsStripped(name: seq<byte>)
    requires name != [] && !KeptEnds(name) && NL !in name
    ensures Stripped(Quoted(name), SKIP_END) != Some(name)
  {
    var s, n := Quoted(name), |name|;
    hide FirstOut, LastOut, Quoted;
    QuotedHasNoLineEnd(name);
    assert s[2] == name[0] && s[n + 1] == name[n - 1];
    hide KeptEnds, Stripped;
    FewerKept(s, n + 2, name[0] in SKIP);
  }

  lemma QuotedHasNoLineEnd(name: seq<byte>)
    requires NL !in name
    ensures var s := Quoted(name);
            forall i :: 0 <= i < |s| ==> s[i] != NL && (s[i] in SKIP_END <==> s[i] in SKIP)
  {
    hide Quoted;
    var s := Quoted(name);
    forall i | 0 <= i < |s| ensures s[i] != NL { if 2 <= i < |name| + 2 { assert s[i] in name; } }
  }

  /** With a stripped character inside the quotes, less than what stands there is kept. */
  lemma FewerKept(s: seq<byte>, q: nat, first: bool)
    requires 2 < q && |s| == q + 2 && s[0] in SKIP && s[1] in SKIP && s[q] in SKIP && s[q + 1] in SKIP
    requires forall i :: 0 <= i < |s| ==> (s[i] in SKIP_END <==> s[i] in SKIP)
    requires if first then s[2] in SKIP else s[q - 1] in SKIP
    ensures Stripped(s, SKIP_END).Some? ==> |Stripped(s, SKIP_END).value| < q - 2
  {
    var k := LastOut(s, SKIP_END);
    var t := if k < 0 then s else s[..k + 1];
    hide FirstOut, LastOut, SKIP, SKIP_END;
    LastBefore(s, SKIP_END, if first then q else q - 1);
    FirstAfter(t, SKIP, if first then 3 else 2);
    if k < 0 { FirstAfter(t, SKIP, |s|); }
  }

  lemma LastBefore(s: seq<byte>, end: seq<byte>, k: nat)
    requires k <= |s| && forall i :: k <= i < |s| ==> s[i] in end
    ensures LastOut(s, end) < k
  {
    hide LastOut;
  }

  lemma FirstAfter(s: seq<byte>, skip: seq<byte>, b: nat)
    requires forall i :: 0 <= i < |s| && i < b ==> s[i] in skip
    ensures FirstOut(s, skip) < 0 || FirstOut(s, skip) >= b
  {
    hide FirstOut;
  }

  /** Between brackets an address is kept as it is exactly when neither end is stripped. */
  lemma StrippedEmail(email: seq<byte>)
    ensures Stripped(email, SKIP) == Some(email) <==> email != [] && KeptEnds(email)
  {
    hide FirstOut, LastOut, SKIP;
    if email != [] && KeptEnds(email) {
      assert LastOut(email, SKIP) == |email| - 1 && FirstOut(email, SKIP) == 0;
      assert email[..|email|] == email && email[0..] == email;
    }
  }

  lemma StrippedShorter(s: seq<byte>, end: seq<byte>)
    ensures Stripped(s, end).Some? ==> |Stripped(s, end).value| <= |s|
  {
    hide FirstOut, LastOut;
  }

  lemma LineBrackets(name: seq<byte>, email: seq<byte>)
    ensures var s := Line(name, email);
            && LastOf(s, GREATER) == 5 + |name| + |email|
            && (if LESS in email then 4 + |name| < LastOf(s, LESS) < 5 + |name| + |email|
              else LastOf(s, LESS) == 4 + |name|)
            && s[..4 + |name|] == Quoted(name)
            && s[5 + |name|..5 + |name| + |email|] == email
  {
    hide LastOf;
    var s, n, e := Line(name, email), |name|, |email|;
    assert s[4 + n] == LESS && s[5 + n + e] == GREATER && s[6 + n + e] == NL;
    assert forall i :: 5 + n <= i < 5 + n + e ==> s[i] == email[i - 5 - n];
    if LESS in email {
      var i :| 0 <= i < e && email[i] == LESS;
      assert s[5 + n + i] == LESS;
    }
  }

  /** What a line without delimiters gives for the address, and for the name. */
  lemma LineFills(name: seq<byte>, email: seq<byte>)
    ensures var r := Fill(Line(name, email));
            && (r.email == Some(email) <==> email != [] && KeptEnds(email) && LESS !in email)
            && (LESS !in email ==> r.name == Stripped(Quoted(name), SKIP_END))
  {
    var s, end := Line(name, email), 5 + |name| + |email|;
    var start := LastOf(s, LESS);
    LineBrackets(name, email);
    StrippedEmail(email);
    hide Line, LastOf, Stripped, KeptEnds, Quoted;
    StrippedShorter(s[start + 1..end], SKIP);
  }

  /** A line of the book gives back the name and address it was written from exactly when both are clean. */
  lemma LineIsRead(name: seq<byte>, email: seq<byte>)
    requires NUL !in name && NL !in name && NUL !in email && NL !in email
    ensures FillAddr(Line(name, email)) == Filled(Addr(NameOf(name), Some(email)), -1)
            <==> CleanName(name) && CleanEmail(email)
  {
    LineDelimiter(name, email);
    LineFills(name, email);
    StrippedName(name);
    hide Line, Delimiter, Fill, Stripped, NameOf, KeptEnds, QuoteOrDelimiter, NoDelimiter, Quoted;
  }

  // ---------------------------------------------------------------- texts without brackets

  /** None of , ; : blank tab newline ' " < > ( ) [ ] and the backslash. */
  predicate NoSpecials(s: seq<byte>) {
    forall i :: 0 <= i < |s| ==> s[i] !in [44, 59, 58, 32, 9, 10, 39, 34, 60, 62, 40, 41, 91, 93, 92]
  }

  /** The @ at a is the only one, s begins with neither @ nor a dot, and behind a are dots, each between other bytes. */
  ghost predicate AddressAt(s: seq<byte>, a: nat) {
    && 0 < a && a + 1 < |s| && s[a] == 64 && (forall i :: 0 <= i < |s| && i != a ==> s[i] != 64)
    && s[0] != 46 && s[a + 1] != 46 && s[|s| - 1] != 46
    && (exists i :: a < i < |s| && s[i] == 46)
    && forall i :: a < i < |s| - 1 && s[i] == 46 ==> s[i + 1] != 46
  }

  ghost predicate PlainAddress(s: seq<byte>) {
    NoSpecials(s) && exists a: nat :: AddressAt(s, a)
  }

  lemma DotBehind(s: seq<byte>, a: nat)
    requires a < |s| && s[a] != 46
    ensures FirstInFrom(s, a, [DOT]) >= 0 <==> exists i :: a < i < |s| && s[i] == 46
  {
    hide FirstIn;
    var k := FirstIn(s[a..], [DOT]);
    if k >= 0 {
      assert s[a + k] == 46 && k > 0;
    } else {
      forall i | a < i < |s| ensures s[i] != 46 { assert s[i] == s[a..][i - a]; }
    }
  }

  lemma DotsAre(s: seq<byte>, a: nat)
    requires a + 1 < |s| && s[a] != 46 && 0 !in s
    ensures DotsFollowed(s, a) <==> s[|s| - 1] != 46 && forall i :: a < i < |s| - 1 && s[i] == 46 ==> s[i + 1] != 46
  {
    assert forall j :: a < j < |s| ==> At(s, j) == s[j] && s[j] in s;
    assert At(s, |s|) == 0;
    hide At;
    if DotsFollowed(s, a) { assert s[|s| - 1] == 46 ==> At(s, |s| - 1 + 1) != NUL; }
  }

  lemma OneAt(s: seq<byte>, a: int)
    requires a == FirstIn(s, [AT])
    ensures a < 0 ==> forall i :: 0 <= i < |s| ==> s[i] != 64
    ensures a >= 0 ==> s[a] == 64 && forall i :: 0 <= i < a ==> s[i] != 64
    ensures a >= 0 ==> (FirstInFrom(s, a + 1, [AT]) < 0 <==> forall i :: a < i < |s| ==> s[i] != 64)
  {
    hide FirstIn;
    if a >= 0 {
      var k := FirstIn(s[a + 1..], [AT]);
      if k >= 0 { assert s[a + 1 + k] == 64; }
      assert k < 0 ==> forall i :: a < i < |s| ==> s[i] == s[a + 1..][i - a - 1];
    }
  }

  lemma NoSpecialsIs(s: seq<byte>)
    ensures NoSpecials(s) <==> FirstIn(s, [44, 59, 58, 32, 9, 10, 39, 34, 60, 62, 40, 41, 91, 93, 92]) < 0
  {
    hide FirstIn;
  }

  lemma ValidAt(s: seq<byte>, a: int)
    requires s != [] && 0 !in s && NoSpecials(s) && a == FirstIn(s, [AT])
    ensures ValidEmail(s) <==> a >= 0 && AddressAt(s, a)
  {
    OneAt(s, a);
    NoSpecialsIs(s);
    assert At(s, 0) == s[0];
    if a >= 0 {
      DotBehind(s, a);
      if a + 1 < |s| { DotsAre(s, a); }
    }
    assert a + 1 < |s| ==> At(s, a + 1) == s[a + 1];
    hide FirstIn, FirstInFrom, DotsFollowed, At, NoSpecials;
  }

  /** What valid_email accepts. */
  lemma ValidIsPlain(s: seq<byte>)
    requires s != [] && 0 !in s
    ensures ValidEmail(s) <==> PlainAddress(s)
  {
    NoSpecialsIs(s);
    if NoSpecials(s) {
      var a := FirstIn(s, [AT]);
      ValidAt(s, a);
      OneAt(s, a);
      hide FirstIn, FirstInFrom, ValidEmail, NoSpecials;
      if x: nat :| AddressAt(s, x) { assert a == x; }
    }
  }

  /** Bytes skipped before a text: blanks, tabs and quotes of both kinds. */
  predicate Skipped(s: seq<byte>) {
    forall i :: 0 <= i < |s| ==> s[i] in [32, 9, 34, 39]
  }

  /** Bytes skipped after a text, newlines too. */
  predicate SkippedAfter(s: seq<byte>) {
    forall i :: 0 <= i < |s| ==> s[i] in [32, 9, 34, 39, 10]
  }

  lemma StrippedCore(pre: seq<byte>, core: seq<byte>, post: seq<byte>)
    requires Skipped(pre) && SkippedAfter(post)
    requires core != [] && core[0] !in [32, 9, 34, 39] && core[|core| - 1] !in [32, 9, 34, 39, 10]
    ensures Stripped(pre + core + post, SKIP_END) == Some(core)
  {
    hide FirstOut, LastOut;
    var s, k := pre + core + post, |pre| + |core| - 1;
    assert s[k] == core[|core| - 1] && forall i :: k < i < |s| ==> s[i] == post[i - k - 1];
    assert LastOut(s, SKIP_END) == k;
    var t := s[..k + 1];
    assert t == pre + core && t[|pre|] == core[0] && forall i :: 0 <= i < |pre| ==> t[i] == pre[i];
    assert FirstOut(t, SKIP) == |pre|;
  }

  lemma NoDelimiterNone(s: seq<byte>)
    requires 44 !in s && 59 !in s
    ensures Delimiter(s) == -1
  {
    hide FirstIn, FirstInFrom;
    var r := FirstIn(s, DELIMITERS);
    assert forall i :: 0 <= i < |s| ==> s[i] in s && s[i] !in DELIMITERS;
  }

  /**
    A text without delimiters that lacks one of the brackets, with what is skipped at its ends: it
    is an address and no name when it can be one, and otherwise a name and no address.
   */
  lemma BareText(pre: seq<byte>, core: seq<byte>, post: seq<byte>)
    requires Skipped(pre) && SkippedAfter(post) && 0 !in core && 44 !in core && 59 !in core
    requires 60 !in core || 62 !in core
    requires core != [] && core[0] !in [32, 9, 34, 39] && core[|core| - 1] !in [32, 9, 34, 39, 10]
    ensures FillAddr(pre + core + post)
         == Filled(if PlainAddress(core) then Addr(None, Some(core)) else Addr(Some(core), None), -1)
  {
    hide *;
    var s := pre + core + post;
    NotAround(pre, core, post);
    StrippedCore(pre, core, post);
    ValidIsPlain(core);
    BareFills(s, core);
  }

  lemma BareFills(s: seq<byte>, core: seq<byte>)
    requires 44 !in s && 59 !in s && (60 !in s || 62 !in s) && Stripped(s, SKIP_END) == Some(core)
    ensures FillAddr(s) == Filled(if ValidEmail(core) then Addr(None, Some(core)) else Addr(Some(core), None), -1)
  {
    NoDelimiterNone(s);
    hide Delimiter, Stripped, ValidEmail, LastOf;
  }

  lemma NotAround(pre: seq<byte>, core: seq<byte>, post: seq<byte>)
    requires Skipped(pre) && (Skipped(post) || SkippedAfter(post))
    ensures var s := pre + core + post;
            && (44 in s ==> 44 in core) && (59 in s ==> 59 in core)
            && (60 in s ==> 60 in core) && (62 in s ==> 62 in core)
  {}

  /** An address alone, exactly when it is one; any other text without specials and without < > , ; is a name. */
  lemma AddressAlone(s: seq<byte>)
    requires s != [] && 0 !in s && NoSpecials(s)
    ensures FillAddr(s) == Filled(Addr(None, Some(s)), -1) <==> exists a: nat :: AddressAt(s, a)
    ensures FillAddr(s) == Filled(Addr(Some(s), None), -1) <==> !exists a: nat :: AddressAt(s, a)
  {
    hide FillAddr, AddressAt;
    assert s[0] !in [32, 9, 34, 39] && s[|s| - 1] !in [32, 9, 34, 39, 10];
    BareText([], s, []);
    assert [] + s + [] == s;
    assert PlainAddress(s) <==> exists a: nat :: AddressAt(s, a);
    hide NoSpecials;
  }

  /** A text without an @ is a name. */
  lemma NameAlone(s: seq<byte>)
    requires 0 !in s && 44 !in s && 59 !in s && 60 !in s && 62 !in s && 64 !in s
    requires s != [] && s[0] !in [32, 9, 34, 39] && s[|s| - 1] !in [32, 9, 34, 39, 10]
    ensures FillAddr(s) == Filled(Addr(Some(s), None), -1)
  {
    BareText([], s, []);
    assert [] + s + [] == s;
    hide FillAddr;
  }

  lemma StrippedInner(pre: seq<byte>, core: seq<byte>, post: seq<byte>)
    requires Skipped(pre) && Skipped(post)
    requires core != [] && core[0] !in [32, 9, 34, 39] && core[|core| - 1] !in [32, 9, 34, 39]
    ensures Stripped(pre + core + post, SKIP) == Some(core)
  {
    hide FirstOut, LastOut;
    var s, k := pre + core + post, |pre| + |core| - 1;
    assert s[k] == core[|core| - 1] && forall i :: k < i < |s| ==> s[i] == post[i - k - 1];
    assert LastOut(s, SKIP) == k;
    var t := s[..k + 1];
    assert t == pre + core && t[|pre|] == core[0] && forall i :: 0 <= i < |pre| ==> t[i] == pre[i];
    assert FirstOut(t, SKIP) == |pre|;
  }

  lemma BracketsAt(n: seq<byte>, e: seq<byte>, tail: seq<byte>)
    requires 60 !in e && 60 !in tail && 62 !in tail
    ensures var s := n + [60] + e + [62] + tail;
            && LastOf(s, LESS) == |n| && LastOf(s, GREATER) == |n| + 1 + |e|
            && s[..|n|] == n && s[|n| + 1..|n| + 1 + |e|] == e
  {
    hide LastOf;
    var s, start, end := n + [60] + e + [62] + tail, |n|, |n| + 1 + |e|;
    assert s[start] == 60 && s[end] == 62;
    assert forall i :: start < i < end ==> s[i] == e[i - start - 1] && s[i] in e;
    assert forall i :: end < i < |s| ==> s[i] == tail[i - end - 1] && s[i] in tail;
  }

  /** A name, brackets around an address, and anything behind them, with what is skipped around both. */
  lemma BracketedText(pre: seq<byte>, name: seq<byte>, post: seq<byte>, pre': seq<byte>, email: seq<byte>,
                      post': seq<byte>, tail: seq<byte>)
    requires Skipped(pre) && SkippedAfter(post) && Skipped(pre') && Skipped(post')
    requires 44 !in name + email + tail && 59 !in name + email + tail
    requires 60 !in email && 60 !in tail && 62 !in tail
    requires name != [] && name[0] !in [32, 9, 34, 39] && name[|name| - 1] !in [32, 9, 34, 39, 10]
    requires email != [] && email[0] !in [32, 9, 34, 39] && email[|email| - 1] !in [32, 9, 34, 39]
    ensures FillAddr(pre + name + post + [60] + (pre' + email + post') + [62] + tail)
         == Filled(Addr(Some(name), Some(email)), -1)
  {
    var n, e := pre + name + post, pre' + email + post';
    var s := n + [60] + e + [62] + tail;
    hide *;
    NoneOf(44, pre, name, post, pre', email, post', tail);
    NoneOf(59, pre, name, post, pre', email, post', tail);
    NotAround(pre', email, post');
    StrippedCore(pre, name, post);
    StrippedInner(pre', email, post');
    BracketsFill(n, e, tail);
  }

  lemma BracketsFill(n: seq<byte>, e: seq<byte>, tail: seq<byte>)
    requires 60 !in e && 60 !in tail && 62 !in tail
    requires var s := n + [60] + e + [62] + tail; 44 !in s && 59 !in s
    ensures FillAddr(n + [60] + e + [62] + tail) == Filled(Addr(Stripped(n, SKIP_END), Stripped(e, SKIP)), -1)
  {
    hide *;
    BracketsAt(n, e, tail);
    CutFills(n + [60] + e + [62] + tail, |n|, |n| + 1 + |e|);
  }

  lemma CutFills(s: seq<byte>, start: nat, end: nat)
    requires start < end < |s| && LastOf(s, LESS) == start && LastOf(s, GREATER) == end && 44 !in s && 59 !in s
    ensures FillAddr(s) == Filled(Addr(Stripped(s[..start], SKIP_END), Stripped(s[start + 1..end], SKIP)), -1)
  {
    NoDelimiterNone(s);
    hide Delimiter, LastOf, Stripped;
  }

  lemma NoneOf(c: byte, pre: seq<byte>, name: seq<byte>, post: seq<byte>, pre': seq<byte>, email: seq<byte>,
               post': seq<byte>, tail: seq<byte>)
    requires c == 44 || c == 59
    requires Skipped(pre) && SkippedAfter(post) && Skipped(pre') && Skipped(post') && c !in name + email + tail
    ensures c !in pre + name + post + [60] + (pre' + email + post') + [62] + tail
  {
    assert c in name || c in email || c in tail ==> c in name + email + tail;
    assert c !in pre && c !in post && c !in pre' && c !in post';
  }

  /** Where the first of several addresses ends. */
  lemma DelimiterBehind(x: seq<byte>, c: byte, y: seq<byte>)
    requires (c == 44 || c == 59) && 34 !in x && 44 !in x && 59 !in x
    ensures Delimiter(x + [c] + y) == |x|
  {
    hide FirstIn, FirstInFrom;
    var s := x + [c] + y;
    assert forall i :: 0 <= i < |x| ==> s[i] == x[i] && x[i] in x;
    assert s[|x|] == c;
    FirstInIs(s, DELIMITERS, |x|);
    assert FirstIn(s, [QUOTE]) >= 0 ==> FirstIn(s, [QUOTE]) >= |x|;
  }

  /** Delimiters up to the second quote are passed over. */
  lemma PassesQuotes(p: seq<byte>, q: seq<byte>, r: seq<byte>, more: seq<byte>)
    requires 34 !in p && 44 !in p && 59 !in p && 34 !in q
    ensures var s := p + [34] + q + [34] + r + more;
            Delimiter(s) == FirstInFrom(s, |p| + 1 + |q|, DELIMITERS)
  {
    hide FirstIn, FirstInFrom, Delimiter;
    QuotesAt(p, q, r, more);
    var s, q1, q2 := p + [34] + q + [34] + r + more, |p|, |p| + 1 + |q|;
    assert forall i :: 0 <= i < q1 ==> s[i] == p[i] && p[i] in p;
    assert s[q1] == 34;
    FirstInBehind(s, q2, DELIMITERS);
    DelimiterFrom(s, q1, q2);
  }

  lemma DelimiterFrom(s: seq<byte>, q1: nat, q2: nat)
    requires q1 < q2 < |s| && FirstIn(s, [QUOTE]) == q1 && FirstInFrom(s, q1 + 1, [QUOTE]) == q2
    requires s[q1] == 34 && forall i :: 0 <= i < q1 ==> s[i] !in DELIMITERS
    requires FirstIn(s, DELIMITERS) >= q2 ==> FirstInFrom(s, q2, DELIMITERS) == FirstIn(s, DELIMITERS)
    requires FirstIn(s, DELIMITERS) < 0 ==> FirstInFrom(s, q2, DELIMITERS) == -1
    ensures Delimiter(s) == FirstInFrom(s, q2, DELIMITERS)
  {
    hide FirstIn, FirstInFrom;
    var r := FirstIn(s, DELIMITERS);
    assert r >= 0 ==> r > q1;
  }

  lemma FirstInBehind(s: seq<byte>, i: nat, stop: seq<byte>)
    requires i <= |s|
    ensures FirstIn(s, stop) >= i ==> FirstInFrom(s, i, stop) == FirstIn(s, stop)
    ensures FirstIn(s, stop) < 0 ==> FirstInFrom(s, i, stop) == -1
  {
    hide FirstIn;
    var k := FirstIn(s, stop);
    assert forall j :: i <= j < |s| ==> s[j] == s[i..][j - i];
    if k >= i { FirstInIs(s[i..], stop, k - i); }
  }

  lemma DelimiterBehindQuotes(p: seq<byte>, q: seq<byte>, r: seq<byte>, c: byte, y: seq<byte>)
    requires (c == 44 || c == 59) && 34 !in p && 44 !in p && 59 !in p && 34 !in q && 44 !in r && 59 !in r
    ensures var x := p + [34] + q + [34] + r; Delimiter(x + [c] + y) == |x| && Delimiter(x) == -1
  {
    hide *;
    var x := p + [34] + q + [34] + r;
    PassesQuotes(p, q, r, []);
    PassesQuotes(p, q, r, [c] + y);
    assert x + [] == x && x + ([c] + y) == x + [c] + y;
    BehindQuotes(p + [34] + q, [34] + r, []);
    BehindQuotes(p + [34] + q, [34] + r, [c] + y);
    assert p + [34] + q + ([34] + r) == x;
    NoneIn(r);
    FirstAt(r, c, y);
    assert [34] + r + [] == [34] + r && [34] + r + ([c] + y) == [34] + r + [c] + y;
    FirstInIs([34] + r + [c] + y, DELIMITERS, 1 + |r|);
  }

  lemma BehindQuotes(a: seq<byte>, b: seq<byte>, more: seq<byte>)
    ensures FirstInFrom(a + b + more, |a|, DELIMITERS)
         == if FirstIn(b + more, DELIMITERS) < 0 then -1 else |a| + FirstIn(b + more, DELIMITERS)
  {
    assert (a + b + more)[|a|..] == b + more;
    hide FirstIn;
  }

  lemma NoneIn(r: seq<byte>)
    requires 44 !in r && 59 !in r
    ensures FirstIn([34] + r, DELIMITERS) == -1
  {
    hide FirstIn;
    assert forall i :: 0 <= i < |r| ==> r[i] in r;
  }

  lemma FirstAt(r: seq<byte>, c: byte, y: seq<byte>)
    requires (c == 44 || c == 59) && 44 !in r && 59 !in r
    ensures var s := [34] + r + [c] + y;
            s[1 + |r|] in DELIMITERS && forall i :: 0 <= i < 1 + |r| ==> s[i] !in DELIMITERS
  {
    assert forall i :: 0 <= i < |r| ==> r[i] in r;
  }

  lemma QuotesAt(p: seq<byte>, q: seq<byte>, r: seq<byte>, more: seq<byte>)
    requires 34 !in p && 34 !in q
    ensures var s, q1 := p + [34] + q + [34] + r + more, |p|;
            FirstIn(s, [QUOTE]) == q1 && FirstInFrom(s, q1 + 1, [QUOTE]) == q1 + 1 + |q|
  {
    hide FirstIn;
    var s, q1 := p + [34] + q + [34] + r + more, |p|;
    assert forall i :: 0 <= i < |p| ==> s[i] == p[i] && p[i] in p;
    FirstInIs(s, [QUOTE], q1);
    assert forall i :: 0 <= i < |q| ==> s[q1 + 1..][i] == q[i] && q[i] in q;
    assert s[q1 + 1..][|q|] == 34;
    FirstInIs(s[q1 + 1..], [QUOTE], |q|);
  }

  /** Of several addresses the first is read as if it stood alone; the rest begins behind the delimiter. */
  lemma FirstOfMany(x: seq<byte>, c: byte, y: seq<byte>)
    requires (c == 44 || c == 59) && 34 !in x && 44 !in x && 59 !in x
    ensures FillAddr(x + [c] + y) == Filled(FillAddr(x).addr, |x| + 1)
  {
    DelimiterBehind(x, c, y);
    NoDelimiterNone(x);
    assert (x + [c] + y)[..|x|] == x;
    hide Delimiter, Fill;
  }

  /** Delimiters inside the first pair of quotes do not end the address. */
  lemma FirstOfManyQuoted(p: seq<byte>, q: seq<byte>, r: seq<byte>, c: byte, y: seq<byte>)
    requires (c == 44 || c == 59) && 34 !in p && 44 !in p && 59 !in p && 34 !in q && 44 !in r && 59 !in r
    ensures var x := p + [34] + q + [34] + r;
            FillAddr(x).rest == -1 && FillAddr(x + [c] + y) == Filled(FillAddr(x).addr, |x| + 1)
  {
    DelimiterBehindQuotes(p, q, r, c, y);
    var x := p + [34] + q + [34] + r;
    assert (x + [c] + y)[..|x|] == x;
    hide Delimiter, Fill;
  }

  // ---------------------------------------------------------------- scanning in place

  lemma HoldsAt(s: seq<byte>, p: nat, t: seq<byte>, i: nat)
    requires Holds(s, p, t) && i <= |t|
    ensures p + |t| < |s| && s[p + i] == if i < |t| then t[i] else NUL
    ensures i < |t| ==> t[i] != NUL
  {
    if i < |t| { assert s[p..p + |t|][i] == t[i]; }
  }

  /** Whether c is one of the characters of set, looked for one after the other. */
  method IsMember(c: byte, members: seq<byte>) returns (r: bool)
    ensures r <==> c in members
  {
    for k := 0 to |members|
      invariant forall j :: 0 <= j < k ==> members[j] != c
    {
      if members[k] == c {
        return true;
      }
    }
    r := false;
  }

  /** strpbrk: the first character of the string t at p that is in stop, as an offset from p. */
  method Strpbrk(a: array<byte>, p: nat, stop: seq<byte>, ghost t: seq<byte>) returns (r: int)
    requires Holds(a[..], p, t)
    ensures r == FirstIn(t, stop)
  {
    hide FirstIn, Holds;
    r := 0;
    HoldsAt(a[..], p, t, 0);
    while a[p + r] != NUL
      invariant 0 <= r <= |t| && p + |t| < a.Length && a[p + r] == (if r < |t| then t[r] else NUL)
                && (r < |t| ==> t[r] != NUL)
      invariant forall j :: 0 <= j < r ==> t[j] !in stop
      decreases |t| - r
    {
      var found := IsMember(a[p + r], stop);
      if found {
        return;
      }
      r := r + 1;
      HoldsAt(a[..], p, t, r);
    }
    r := -1;
  }

  /** strpcbrk: the first character that is not in skip. */
  method Strpcbrk(a: array<byte>, p: nat, skip: seq<byte>, ghost t: seq<byte>) returns (r: int)
    requires Holds(a[..], p, t)
    ensures r == FirstOut(t, skip)
  {
    hide FirstOut, Holds;
    r := 0;
    HoldsAt(a[..], p, t, 0);
    while a[p + r] != NUL
      invariant 0 <= r <= |t| && p + |t| < a.Length && a[p + r] == (if r < |t| then t[r] else NUL)
                && (r < |t| ==> t[r] != NUL)
      invariant forall j :: 0 <= j < r ==> t[j] in skip
      decreases |t| - r
    {
      var skipped := IsMember(a[p + r], skip);
      if !skipped {
        return;
      }
      r := r + 1;
      HoldsAt(a[..], p, t, r);
    }
    r := -1;
  }

  method Strlen(a: array<byte>, p: nat, ghost t: seq<byte>) returns (n: nat)
    requires Holds(a[..], p, t)
    ensures n == |t| && p + n < a.Length
  {
    hide Holds;
    n := 0;
    HoldsAt(a[..], p, t, 0);
    while a[p + n] != NUL
      invariant n <= |t| && p + |t| < a.Length && a[p + n] == (if n < |t| then t[n] else NUL)
                && (n < |t| ==> t[n] != NUL)
      decreases |t| - n
    {
      n := n + 1;
      HoldsAt(a[..], p, t, n);
    }
  }

  /** strrpcbrk: the last character that is not in skip. */
  method Strrpcbrk(a: array<byte>, p: nat, skip: seq<byte>, ghost t: seq<byte>) returns (r: int)
    requires Holds(a[..], p, t)
    ensures r == LastOut(t, skip)
  {
    hide LastOut, Holds;
    var n := Strlen(a, p, t);
    r := n as int - 1;
    while r >= 0
      invariant -1 <= r < n && forall j :: r < j < n ==> t[j] in skip
    {
      HoldsAt(a[..], p, t, r);
      var skipped := IsMember(a[p + r], skip);
      if !skipped {
        return;
      }
      r := r - 1;
    }
  }

  /** strrchr: the last c. */
  method Strrchr(a: array<byte>, p: nat, c: byte, ghost t: seq<byte>) returns (r: int)
    requires Holds(a[..], p, t)
    ensures r == LastOf(t, c)
  {
    hide LastOf, Holds;
    var n := Strlen(a, p, t);
    r := n as int - 1;
    while r >= 0
      invariant -1 <= r < n && forall j :: r < j < n ==> t[j] != c
    {
      HoldsAt(a[..], p, t, r);
      if a[p + r] == c {
        return;
      }
      r := r - 1;
    }
  }

  method Strdup(a: array<byte>, p: nat, ghost t: seq<byte>) returns (r: seq<byte>)
    requires Holds(a[..], p, t)
    ensures r == t
  {
    var n := Strlen(a, p, t);
    r := a[p..p + n];
    assert a[..][p..p + n] == r;
  }

  // ---------------------------------------------------------------- fill_addr in place

  lemma CutHolds(s: seq<byte>, p: nat, t: seq<byte>, i: nat)
    requires Holds(s, p, t) && i <= |t|
    ensures p + i < |s| && Holds(s[p + i := NUL], p, t[..i])
  {
    assert s[p + i := NUL][p..p + i] == s[p..p + |t|][..i];
  }

  lemma SuffixHolds(s: seq<byte>, p: nat, t: seq<byte>, i: nat)
    requires Holds(s, p, t) && i <= |t|
    ensures Holds(s, p + i, t[i..])
  {
    assert s[p + i..p + |t|] == s[p..p + |t|][i..];
  }

  lemma HoldsOutside(s: seq<byte>, p: nat, t: seq<byte>, i: nat)
    requires Holds(s, p, t) && i < |s| && (i < p || i > p + |t|)
    ensures Holds(s[i := NUL], p, t)
  {
    assert s[i := NUL][p..p + |t|] == s[p..p + |t|];
  }

  /** Ends the string t at p with offset i. */
  method Cut(a: array<byte>, p: nat, i: nat, ghost t: seq<byte>)
    requires Holds(a[..], p, t) && i <= |t|
    modifies a
    ensures p + i < a.Length && a[..] == old(a[..])[p + i := NUL] && Holds(a[..], p, t[..i])
  {
    hide Holds;
    CutHolds(a[..], p, t, i);
    ghost var before := a[..];
    a[p + i] := NUL;
    assert a[..] == before[p + i := NUL];
  }

  /** Strips the string t at p at both ends; nothing changes but inside it. */
  method Strip(a: array<byte>, p: nat, end: seq<byte>, ghost t: seq<byte>) returns (r: Option<seq<byte>>)
    requires Holds(a[..], p, t)
    modifies a
    ensures r == Stripped(t, end)
    ensures forall i :: 0 <= i < p || p + |t| <= i < a.Length ==> a[i] == old(a[i])
  {
    hide *;
    StrippedIs(t, end);
    ghost var kept := StripEnd(a, p, end, t);
    var b := Strpcbrk(a, p, SKIP, kept);
    if b < 0 {
      return None;
    }
    SuffixHolds(a[..], p, kept, b);
    var text := Strdup(a, p + b, kept[b..]);
    r := Some(text);
  }

  /** Cuts off what is to be skipped at the end of the string t at p. */
  method StripEnd(a: array<byte>, p: nat, end: seq<byte>, ghost t: seq<byte>) returns (ghost kept: seq<byte>)
    requires Holds(a[..], p, t)
    modifies a
    ensures kept == (if LastOut(t, end) < 0 then t else t[..LastOut(t, end) + 1]) && Holds(a[..], p, kept)
    ensures forall i :: 0 <= i < p || p + |t| <= i < a.Length ==> a[i] == old(a[i])
  {
    hide *;
    var k := Strrpcbrk(a, p, end, t);
    kept := t;
    if k >= 0 {
      EndIsNul(a[..], p, t);
      Cut(a, p, k + 1, t);
      kept := t[..k + 1];
    }
  }

  lemma StrippedIs(t: seq<byte>, end: seq<byte>)
    ensures var k := LastOut(t, end);
            var kept := if k < 0 then t else t[..k + 1];
            var b := FirstOut(kept, SKIP);
            Stripped(t, end) == if b < 0 then None else Some(kept[b..])
  {
    hide LastOut, FirstOut;
  }

  lemma EndIsNul(s: seq<byte>, p: nat, t: seq<byte>)
    requires Holds(s, p, t)
    ensures p + |t| < |s| && s[p + |t|] == NUL
  {}

  /** Where the first address of the string s ends. */
  method FindDelimiter(buff: array<byte>, ghost s: seq<byte>) returns (r: int)
    requires Holds(buff[..], 0, s)
    ensures r == Delimiter(s)
  {
    hide Holds, FirstIn;
    var q1 := Strpbrk(buff, 0, [QUOTE], s);
    var q2 := -1;
    if q1 >= 0 {
      SuffixHolds(buff[..], 0, s, q1 + 1);
      var k := Strpbrk(buff, q1 + 1, [QUOTE], s[q1 + 1..]);
      q2 := if k < 0 then -1 else q1 + 1 + k;
    }
    r := Strpbrk(buff, 0, DELIMITERS, s);
    if q1 >= 0 && q2 >= 0 && r >= 0 {
      if r < q2 && r > q1 {
        SuffixHolds(buff[..], 0, s, q2);
        var k := Strpbrk(buff, q2, DELIMITERS, s[q2..]);
        r := if k < 0 then -1 else q2 + k;
      }
    }
  }

  /** Cuts the string t at its brackets, which stand at start and end. */
  method CutBrackets(buff: array<byte>, start: nat, end: nat, ghost t: seq<byte>)
    requires Holds(buff[..], 0, t) && start < end < |t|
    modifies buff
    ensures Holds(buff[..], 0, t[..start]) && Holds(buff[..], start + 1, t[start + 1..end])
  {
    hide Holds;
    ghost var e := t[start + 1..];
    SuffixHolds(buff[..], 0, t, start + 1);
    HoldsOutside(buff[..], start + 1, e, start) by { HoldsFits(buff[..], 0, t); }
    Cut(buff, 0, start, t);
    ghost var before := buff[..];
    Cut(buff, start + 1, end - start - 1, e);
    assert e[..end - start - 1] == t[start + 1..end];
    HoldsOutside(before, 0, t[..start], end);
  }

  /** Takes the first address out of the string s in the buffer, writing NULs into it. */
  method FillAddrInPlace(buff: array<byte>, ghost s: seq<byte>) returns (addr: Addr, rest: int)
    requires Holds(buff[..], 0, s)
    modifies buff
    ensures FillAddr(s) == Filled(addr, rest)
  {
    var r := FindDelimiter(buff, s);
    ghost var t := s;
    hide Holds, Delimiter, LastOf, Stripped, ValidEmail;
    rest := -1;
    if r >= 0 {
      Cut(buff, 0, r, s);
      t := s[..r];
      rest := r + 1;
    }
    addr := FillFromString(buff, t);
  }

  method FillFromString(buff: array<byte>, ghost t: seq<byte>) returns (addr: Addr)
    requires Holds(buff[..], 0, t)
    modifies buff
    ensures addr == Fill(t)
  {
    hide Holds, LastOf, Stripped, ValidEmail;
    var start := -1;
    var end := Strrchr(buff, 0, GREATER, t);
    if end >= 0 {
      start := Strrchr(buff, 0, LESS, t);
    }
    if end < 0 || start < 0 || start >= end {
      var text := Strip(buff, 0, SKIP_END, t);
      match text
      case None => addr := Addr(None, None);
      case Some(x) => addr := if ValidEmail(x) then Addr(None, Some(x)) else Addr(Some(x), None);
    } else {
      CutBrackets(buff, start, end, t);
      ghost var before := buff[..];
      var email := Strip(buff, start + 1, SKIP, t[start + 1..end]);
      HoldsFits(before, start + 1, t[start + 1..end]);
      assert |t[..start]| == start && forall i :: 0 <= i <= start ==> before[i] == buff[..][i];
      HoldsSame(before, buff[..], 0, t[..start]);
      var name := Strip(buff, 0, SKIP_END, t[..start]);
      addr := Addr(name, email);
    }
  }
}
