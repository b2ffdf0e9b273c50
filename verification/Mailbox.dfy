/** A mail file as a preamble and messages, and how the programs find their way in it. */
module Mailbox {
  import opened Bytes
  import opened MailFile

  /** "From " */
  const FROM: seq<byte> := [70, 114, 111, 109, 32]

  /** Length of the first line of s, with its newline when it has one. */
  function LineLength(s: seq<byte>): (n: nat)
    ensures n <= |s| && (s != [] ==> n > 0)
  {
    if s == [] then 0 else if s[0] == NL then 1 else 1 + LineLength(s[1..])
  }

  /** A line has no newline but its last byte, and only the last line of a file may lack that one. */
  lemma {:induction false} LineShape(s: seq<byte>)
    ensures forall i :: 0 <= i < LineLength(s) - 1 ==> s[i] != NL
    ensures LineLength(s) < |s| ==> s[LineLength(s) - 1] == NL
  {
    if s != [] && s[0] != NL {
      LineShape(s[1..]);
    }
  }

  /** The first line of s. */
  function LineOf(s: seq<byte>): seq<byte> {
    s[..LineLength(s)]
  }

  /** getline: the rest of the line the position is in, nothing at the end of the file. */
  method GetLine(file: File) returns (line: seq<byte>)
    requires file.pos <= |file.bytes|
    modifies file`pos
    ensures line == LineOf(file.bytes[old(file.pos)..])
    ensures file.pos == old(file.pos) + |line| <= |file.bytes|
    ensures line == [] <==> old(file.pos) == |file.bytes|
  {
    var rest := file.bytes[file.pos..];
    line := LineOf(rest);
    file.pos := file.pos + |line|;
  }

  predicate StartsFrom(s: seq<byte>) {
    FROM <= s
  }

  /** A mail file cut at the lines that start messages: "From " after a blank line or at the start. */
  datatype Box = Box(preamble: seq<byte>, messages: seq<seq<byte>>)

  /** blank says whether the line before s was blank. */
  function Split(s: seq<byte>, blank: bool): (b: Box)
    decreases |s|
  {
    if s == [] then Box([], []) else
    var n := LineLength(s);
    if s[0] == NL then
      var b := Split(s[n..], true);
      Box(s[..n] + b.preamble, b.messages)
    else
      var b := Split(s[n..], false);
      if blank && StartsFrom(s) then Box([], [s[..n] + b.preamble] + b.messages)
      else Box(s[..n] + b.preamble, b.messages)
  }

  function Concat(ms: seq<seq<byte>>): seq<byte> {
    if ms == [] then [] else ms[0] + Concat(ms[1..])
  }

  function Join(b: Box): seq<byte> {
    b.preamble + Concat(b.messages)
  }

  lemma {:induction false} ConcatAppend(a: seq<seq<byte>>, b: seq<seq<byte>>)
    ensures Concat(a + b) == Concat(a) + Concat(b)
  {
    if a == [] {
      assert a + b == b;
    } else {
      ConcatAppend(a[1..], b);
      assert (a + b)[1..] == a[1..] + b && (a + b)[0] == a[0];
      assert Concat(a + b) == a[0] + (Concat(a[1..]) + Concat(b));
    }
  }

  /** The same file, the line before it blank or not: only a "From " line right at the start matters. */
  lemma SplitBlankOrNot(s: seq<byte>)
    ensures var b, c := Split(s, true), Split(s, false);
            && (!StartsFrom(s) ==> b == c)
            && (StartsFrom(s) ==> b.preamble == [] && b.messages == [c.preamble] + c.messages)
  {}

  // ---------------------------------------------------------------- putting pieces back together

  predicate Complete(s: seq<byte>) {
    s == [] || s[|s| - 1] == NL
  }

  /** Whether the last line of s is blank; blank speaks for the line before s. */
  function EndsBlank(s: seq<byte>, blank: bool): bool
    decreases |s|
  {
    if s == [] then blank else EndsBlank(s[LineLength(s)..], s[0] == NL)
  }

  /** What one line does to the split of what follows it. */
  function Prepend(line: seq<byte>, b: Box, blank: bool): Box
    requires line != []
  {
    if line[0] != NL && blank && StartsFrom(line)
    then Box([], [line + b.preamble] + b.messages)
    else Box(line + b.preamble, b.messages)
  }

  /** line is one line, and only the last line of a file may lack its newline. */
  predicate IsLine(line: seq<byte>, rest: seq<byte>) {
    line != [] && LineLength(line) == |line| && (Complete(line) || rest == [])
  }

  lemma {:induction false} FirstLine(s: seq<byte>)
    requires s != []
    ensures IsLine(s[..LineLength(s)], s[LineLength(s)..])
  {
    if s[0] != NL && |s| > 1 {
      FirstLine(s[1..]);
      assert s[..LineLength(s)][1..] == s[1..][..LineLength(s[1..])];
    }
  }

  lemma {:induction false} LineLengthPrefix(line: seq<byte>, rest: seq<byte>)
    requires IsLine(line, rest)
    ensures LineLength(line + rest) == |line|
  {
    if rest == [] {
      assert line + rest == line;
    } else if |line| > 1 {
      assert (line + rest)[1..] == line[1..] + rest;
      LineLengthPrefix(line[1..], rest);
    }
  }

  /** The first line of the rest of a file. */
  lemma Cut(bytes: seq<byte>, pos: nat)
    requires pos < |bytes|
    ensures var line := LineOf(bytes[pos..]);
            && line != [] && pos + |line| <= |bytes| && IsLine(line, bytes[pos + |line|..])
            && bytes[pos..] == line + bytes[pos + |line|..]
  {
    var s := bytes[pos..];
    FirstLine(s);
    assert s == LineOf(s) + s[LineLength(s)..] && bytes[pos + LineLength(s)..] == s[LineLength(s)..];
  }

  lemma {:induction false} LineLengthIs(line: seq<byte>)
    requires line != [] && line[|line| - 1] == NL && forall i :: 0 <= i < |line| - 1 ==> line[i] != NL
    ensures LineLength(line) == |line|
  {
    if |line| > 1 { LineLengthIs(line[1..]); }
  }

  lemma PrefixAt(p: seq<byte>, s: seq<byte>, i: nat)
    requires i < |p| && i < |s|
    ensures p <= s ==> s[i] == p[i]
  {}

  /** A "From " start never depends on more than the line it is in. */
  lemma StartsFromInLine(line: seq<byte>, rest: seq<byte>)
    requires IsLine(line, rest)
    ensures StartsFrom(line + rest) <==> StartsFrom(line)
  {
    if rest == [] {
      assert line + rest == line;
    } else if |line| < 5 {
      var s, i := line + rest, |line| - 1;
      assert s[i] == NL && FROM[i] != NL;
    }
  }

  lemma SplitLine(line: seq<byte>, rest: seq<byte>, blank: bool)
    requires IsLine(line, rest)
    ensures Split(line + rest, blank) == Prepend(line, Split(rest, line[0] == NL), blank)
    ensures EndsBlank(line + rest, blank) == EndsBlank(rest, line[0] == NL)
  {
    LineLengthPrefix(line, rest);
    StartsFromInLine(line, rest);
    assert (line + rest)[..|line|] == line && (line + rest)[|line|..] == rest;
  }

  lemma JoinPrepend(line: seq<byte>, b: Box, blank: bool)
    requires line != []
    ensures Join(Prepend(line, b, blank)) == line + Join(b)
  {
    var p := Prepend(line, b, blank);
    if p.messages != b.messages {
      assert p.messages[1..] == b.messages;
      assert p.messages[0] == line + b.preamble;
    }
  }

  /** Splitting loses nothing. */
  lemma {:induction false} JoinSplit(s: seq<byte>, blank: bool)
    ensures Join(Split(s, blank)) == s
    decreases |s|
  {
    if s != [] {
      var line, rest := s[..LineLength(s)], s[LineLength(s)..];
      FirstLine(s);
      assert s == line + rest;
      hide Prepend, Join, Split;
      SplitLine(line, rest, blank);
      JoinSplit(rest, line[0] == NL);
      JoinPrepend(line, Split(rest, line[0] == NL), blank);
    } else {
      assert Split(s, blank) == Box([], []);
    }
  }

  /** The split of two pieces: what precedes the first start in the second belongs to the first. */
  function Glue(a: Box, b: Box): Box {
    if a.messages == [] then Box(a.preamble + b.preamble, b.messages) else
    var k := |a.messages| - 1;
    Box(a.preamble, a.messages[..k] + [a.messages[k] + b.preamble] + b.messages)
  }

  lemma GluePrepend(line: seq<byte>, a: Box, b: Box, blank: bool)
    requires line != []
    ensures Prepend(line, Glue(a, b), blank) == Glue(Prepend(line, a, blank), b)
  {
    var l, r := Prepend(line, Glue(a, b), blank), Glue(Prepend(line, a, blank), b);
    assert line + (a.preamble + b.preamble) == (line + a.preamble) + b.preamble;
    if a.messages == [] {
      assert l.messages == r.messages;
    } else {
      var k := |a.messages| - 1;
      assert l.messages == r.messages;
    }
  }

  lemma {:induction false} SplitConcat(x: seq<byte>, y: seq<byte>, blank: bool)
    requires Complete(x)
    ensures Split(x + y, blank) == Glue(Split(x, blank), Split(y, EndsBlank(x, blank)))
    decreases |x|
  {
    if x == [] {
      assert x + y == y;
      assert Split(y, blank) == Glue(Box([], []), Split(y, blank));
    } else {
      var n := LineLength(x);
      var line, rest := x[..n], x[n..];
      FirstLine(x);
      LineEndsComplete(x);
      assert x == line + rest && x + y == line + (rest + y);
      SplitConcat(rest, y, line[0] == NL);
      SplitLine(line, rest, blank);
      SplitLine(line, rest + y, blank);
      GluePrepend(line, Split(rest, line[0] == NL), Split(y, EndsBlank(x, blank)), blank);
    }
  }

  lemma LineEndsComplete(x: seq<byte>)
    requires x != [] && Complete(x)
    ensures Complete(x[..LineLength(x)]) && Complete(x[LineLength(x)..])
  {
    LineShape(x);
  }

  /** m is one message; unless it is the last, it ends with a blank line. */
  ghost predicate IsMessage(m: seq<byte>, last: bool) {
    m != [] && Split(m, true) == Box([], [m]) && (!last ==> Complete(m) && EndsBlank(m, true))
  }

  /** The properties of every box that Split returns. */
  ghost predicate GoodBox(b: Box, blank: bool) {
    && Split(b.preamble, blank) == Box(b.preamble, [])
    && (b.messages != [] ==> Complete(b.preamble) && EndsBlank(b.preamble, blank))
    && (forall i :: 0 <= i < |b.messages| ==> IsMessage(b.messages[i], i == |b.messages| - 1))
  }

  lemma {:induction false} SplitIsGood(s: seq<byte>, blank: bool)
    ensures GoodBox(Split(s, blank), blank)
    decreases |s|
  {
    if s != [] {
      var line, rest := s[..LineLength(s)], s[LineLength(s)..];
      FirstLine(s);
      assert s == line + rest;
      hide GoodBox, Prepend, Split;
      SplitLine(line, rest, blank);
      SplitIsGood(rest, line[0] == NL);
      var b := Split(rest, line[0] == NL);
      JoinSplit(rest, line[0] == NL);
      assert rest == [] ==> b.preamble == [] && b.messages == [] by {
        if rest == [] { assert b == Box([], []) by { SplitNothing(line[0] == NL); } }
      }
      PrependIsGood(line, b, blank);
    } else {
      assert Split(s, blank) == Box([], []);
    }
  }

  lemma SplitNothing(blank: bool)
    ensures Split([], blank) == Box([], [])
  {}

  lemma PrependIsGood(line: seq<byte>, b: Box, blank: bool)
    requires IsLine(line, b.preamble) && GoodBox(b, line[0] == NL)
    requires b.messages != [] ==> Complete(line)
    ensures GoodBox(Prepend(line, b, blank), blank)
  {
    hide IsMessage, StartsFrom, Split, EndsBlank, LineLength;
    SplitLine(line, b.preamble, blank);
    SplitLine(line, b.preamble, true);
    var p := Prepend(line, b, blank);
    if line[0] != NL && blank && StartsFrom(line) {
      SplitNothing(blank);
      MessageFromLine(line, b);
      forall i | 0 <= i < |p.messages| ensures IsMessage(p.messages[i], i == |p.messages| - 1) {
        if i > 0 { assert IsMessage(b.messages[i - 1], i - 1 == |b.messages| - 1); }
      }
      assert EndsBlank([], blank) == blank by { EndsBlankNothing(blank); }
    }
  }

  lemma EndsBlankNothing(blank: bool)
    ensures EndsBlank([], blank) == blank
  {}

  lemma MessageFromLine(line: seq<byte>, b: Box)
    requires IsLine(line, b.preamble) && line[0] != NL && StartsFrom(line)
    requires Split(b.preamble, false) == Box(b.preamble, [])
    requires b.messages != [] ==> Complete(line) && Complete(b.preamble) && EndsBlank(b.preamble, false)
    ensures IsMessage(line + b.preamble, b.messages == [])
  {
    hide StartsFrom, Split, EndsBlank, LineLength;
    SplitLine(line, b.preamble, true);
  }

  lemma SplitFirst(m: seq<byte>, s: seq<byte>, ms: seq<seq<byte>>)
    requires IsMessage(m, false) && Split(s, true) == Box([], ms)
    ensures Split(m + s, true) == Box([], [m] + ms)
  {
    hide Split, EndsBlank;
    SplitConcat(m, s, true);
    assert m + [] == m;
  }

  /** Good messages in a row are split where they were joined. */
  lemma {:induction false} SplitMessages(ms: seq<seq<byte>>)
    requires forall i :: 0 <= i < |ms| ==> IsMessage(ms[i], i == |ms| - 1)
    ensures Split(Concat(ms), true) == Box([], ms)
  {
    if |ms| == 0 {
      SplitNothing(true);
    } else if |ms| == 1 {
      assert IsMessage(ms[0], true);
      assert Concat(ms) == ms[0] && ms == [ms[0]];
    } else {
      var m, rest := ms[0], ms[1..];
      assert IsMessage(m, false);
      hide Split, EndsBlank, IsMessage;
      forall i | 0 <= i < |rest| ensures IsMessage(rest[i], i == |rest| - 1) {
        assert IsMessage(ms[i + 1], i + 1 == |ms| - 1);
      }
      SplitMessages(rest);
      SplitFirst(m, Concat(rest), rest);
      assert ms == [m] + rest;
    }
  }

  /** A good box is what its own bytes split into. */
  lemma SplitJoin(b: Box, blank: bool)
    requires GoodBox(b, blank)
    ensures Split(Join(b), blank) == b
  {
    hide Split, EndsBlank, IsMessage;
    if b.messages == [] {
      assert Join(b) == b.preamble;
    } else {
      SplitMessages(b.messages);
      SplitConcat(b.preamble, Concat(b.messages), blank);
      assert b.preamble + [] == b.preamble;
    }
  }

  // ---------------------------------------------------------------- offsets

  /** Where message k starts; the end of the file when there are only k messages. */
  function Offset(b: Box, k: nat): nat
    requires k <= |b.messages|
  {
    |b.preamble| + |Concat(b.messages[..k])|
  }

  lemma JoinAt(b: Box, k: nat)
    requires k <= |b.messages|
    ensures Offset(b, k) <= |Join(b)|
    ensures Join(b)[..Offset(b, k)] == b.preamble + Concat(b.messages[..k])
    ensures Join(b)[Offset(b, k)..] == Concat(b.messages[k..])
  {
    ConcatAppend(b.messages[..k], b.messages[k..]);
    assert b.messages == b.messages[..k] + b.messages[k..];
    assert Join(b) == (b.preamble + Concat(b.messages[..k])) + Concat(b.messages[k..]);
  }

  // ---------------------------------------------------------------- where messages start

  /** Message k starts at p. */
  ghost predicate HasStart(b: Box, p: nat) {
    exists k: nat :: k < |b.messages| && Offset(b, k) == p
  }

  /** From and a space stand at p, after a blank line or a beginning that counts as one. */
  predicate FromAt(s: seq<byte>, p: nat, blank: bool) {
    && p + 5 <= |s| && s[p] == 70 && s[p + 1] == 114 && s[p + 2] == 111 && s[p + 3] == 109 && s[p + 4] == 32
    && (if p == 0 then blank else s[p - 1] == 10 && (p == 1 || s[p - 2] == 10))
  }

  lemma OffsetPrepend(line: seq<byte>, b: Box, blank: bool, k: nat)
    requires line != [] && k < |b.messages|
    ensures var p := Prepend(line, b, blank);
            var k' := if p.messages == b.messages then k else k + 1;
            k' < |p.messages| && Offset(p, k') == |line| + Offset(b, k)
  {
    var p := Prepend(line, b, blank);
    if p.messages != b.messages {
      assert p.messages[..k + 1][1..] == b.messages[..k];
    }
  }

  /** What one line does to the starts. */
  lemma StartsPrepend(line: seq<byte>, b: Box, blank: bool, p: nat)
    requires line != []
    ensures HasStart(Prepend(line, b, blank), p)
            <==> (p == 0 && line[0] != NL && blank && StartsFrom(line))
                 || (p >= |line| && HasStart(b, p - |line|))
  {
    var c := Prepend(line, b, blank);
    hide Offset, StartsFrom;
    if k: nat :| k < |b.messages| && Offset(b, k) == p - |line| { OffsetPrepend(line, b, blank, k); }
    if c.messages != b.messages { FirstOffset(c); }
    if k: nat :| k < |c.messages| && Offset(c, k) == p {
      var k' := if c.messages == b.messages then k else k - 1;
      if k' >= 0 { OffsetPrepend(line, b, blank, k'); }
    }
  }

  lemma FirstOffset(b: Box)
    requires b.messages != []
    ensures Offset(b, 0) == |b.preamble|
  {}

  /** FromAt behind the first line. */
  lemma FromLater(line: seq<byte>, rest: seq<byte>, blank: bool, p: nat)
    requires IsLine(line, rest)
    ensures FromAt(line + rest, p, blank)
            <==> if p >= |line| then FromAt(rest, p - |line|, line[0] == NL)
                 else p == 0 && line[0] != NL && blank && StartsFrom(line)
  {
    var s, n := line + rest, |line|;
    assert forall i :: 0 <= i < n ==> s[i] == line[i];
    assert forall i :: n <= i < |s| ==> s[i] == rest[i - n];
    LineShape(line);
    if p == 0 {
      StartsFromInLine(line, rest);
      assert StartsFrom(s) <==> |s| >= 5 && s[..5] == FROM;
    }
  }

  /** A message starts exactly where From and a space stand at the start or after a blank line. */
  lemma {:induction false} StartsAreFrom(s: seq<byte>, blank: bool, p: nat)
    ensures HasStart(Split(s, blank), p) <==> FromAt(s, p, blank)
    decreases |s|
  {
    if s == [] {
      assert Split(s, blank).messages == [];
    } else {
      var line, rest := s[..LineLength(s)], s[LineLength(s)..];
      FirstLine(s);
      assert s == line + rest;
      hide Split, HasStart, FromAt, Prepend, StartsFrom;
      SplitLine(line, rest, blank);
      StartsPrepend(line, Split(rest, line[0] == NL), blank, p);
      FromLater(line, rest, blank, p);
      if p >= |line| { StartsAreFrom(rest, line[0] == NL, p - |line|); }
    }
  }

  /** Message k runs from its start to the next one, or to the end of the file. */
  lemma MessageRuns(s: seq<byte>, k: nat)
    requires k < |Split(s, true).messages|
    ensures var b := Split(s, true);
            && Offset(b, k) < Offset(b, k + 1) <= |s| && s[Offset(b, k)..Offset(b, k + 1)] == b.messages[k]
            && (k + 1 == |b.messages| ==> Offset(b, k + 1) == |s|)
  {
    hide Split;
    var b := Split(s, true);
    JoinSplit(s, true);
    SplitIsGood(s, true);
    assert IsMessage(b.messages[k], k == |b.messages| - 1);
    hide IsMessage, GoodBox;
    JoinAt(b, k);
    JoinAt(b, k + 1);
    ConcatAppend(b.messages[..k], [b.messages[k]]);
    assert b.messages[..k + 1] == b.messages[..k] + [b.messages[k]];
    assert Concat([b.messages[k]]) == b.messages[k];
    assert b.messages[..|b.messages|] == b.messages;
    assert s[..Offset(b, k + 1)] == s[..Offset(b, k)] + b.messages[k];
  }

  // ---------------------------------------------------------------- removing messages

  /** b without messages i up to j. */
  function Remove(b: Box, i: nat, j: nat): Box
    requires i <= j <= |b.messages|
  {
    Box(b.preamble, b.messages[..i] + b.messages[j..])
  }

  lemma RemoveIsGood(b: Box, blank: bool, i: nat, j: nat)
    requires GoodBox(b, blank) && i <= j <= |b.messages|
    ensures GoodBox(Remove(b, i, j), blank)
  {
    var c := Remove(b, i, j);
    forall x | 0 <= x < |c.messages| ensures IsMessage(c.messages[x], x == |c.messages| - 1) {
      if x < i {
        assert c.messages[x] == b.messages[x];
      } else {
        assert c.messages[x] == b.messages[x - i + j];
      }
    }
  }

  lemma JoinWithout(b: Box, i: nat, j: nat)
    requires i <= j <= |b.messages|
    ensures Offset(b, i) <= Offset(b, j) <= |Join(b)|
    ensures Join(b)[..Offset(b, i)] + Join(b)[Offset(b, j)..] == Join(Remove(b, i, j))
  {
    JoinAt(b, i);
    JoinAt(b, j);
    ConcatAppend(b.messages[..i], b.messages[i..j]);
    assert b.messages[..j] == b.messages[..i] + b.messages[i..j];
    ConcatAppend(b.messages[..i], b.messages[j..]);
    hide Concat;
    assert b.preamble + Concat(b.messages[..i]) + Concat(b.messages[j..])
           == b.preamble + (Concat(b.messages[..i]) + Concat(b.messages[j..]));
  }

  /** Cutting the bytes of messages i up to j out of a file leaves exactly the other messages. */
  lemma CutIsRemove(s: seq<byte>, i: nat, j: nat)
    requires i <= j <= |Split(s, true).messages|
    ensures var b := Split(s, true);
            && Offset(b, i) <= Offset(b, j) <= |s|
            && Split(s[..Offset(b, i)] + s[Offset(b, j)..], true) == Remove(b, i, j)
  {
    hide Split, GoodBox;
    var b := Split(s, true);
    JoinSplit(s, true);
    SplitIsGood(s, true);
    JoinWithout(b, i, j);
    RemoveIsGood(b, true, i, j);
    SplitJoin(Remove(b, i, j), true);
  }
}
