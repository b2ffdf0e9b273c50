/** Deleting messages from a mail file, one splice each, highest number first. */
module DeleteMessages {
  import opened Bytes
  import opened Headers
  import opened MailFile
  import opened Mailbox
  import Splice
  import opened Sets

  // ---------------------------------------------------------------- reading lines

  /** Scanning by lines from pos, with k messages already started. */
  ghost predicate At(bytes: seq<byte>, pos: nat, blank: bool, k: nat) {
    pos <= |bytes| &&
    var box, rest := Split(bytes, true), Split(bytes[pos..], blank);
    k <= |box.messages| && rest.messages == box.messages[k..] && pos + |rest.preamble| == Offset(box, k)
  }

  lemma OffsetNext(b: Box, k: nat)
    requires k < |b.messages|
    ensures Offset(b, k + 1) == Offset(b, k) + |b.messages[k]|
  {
    ConcatAppend(b.messages[..k], [b.messages[k]]);
    assert b.messages[..k + 1] == b.messages[..k] + [b.messages[k]];
    assert Concat([b.messages[k]]) == b.messages[k];
  }

  predicate Starts(line: seq<byte>, blank: bool) {
    line != [] && line[0] != NL && blank && StartsFrom(line)
  }

  lemma AtPrepend(box: Box, k: nat, line: seq<byte>, b: Box, blank: bool, pos: nat)
    requires line != [] && k <= |box.messages| && Prepend(line, b, blank).messages == box.messages[k..]
    requires pos + |Prepend(line, b, blank).preamble| == Offset(box, k)
    ensures var k' := if Starts(line, blank) then k + 1 else k;
            && (Starts(line, blank) ==> k < |box.messages| && pos == Offset(box, k))
            && k' <= |box.messages| && b.messages == box.messages[k'..]
            && pos + |line| + |b.preamble| == Offset(box, k')
  {
    hide StartsFrom, Offset;
    if Starts(line, blank) {
      assert box.messages[k..][0] == line + b.preamble;
      assert box.messages[k..][1..] == box.messages[k + 1..];
      OffsetNext(box, k);
    }
  }

  /** One line further. */
  lemma AtLine(bytes: seq<byte>, pos: nat, blank: bool, k: nat)
    requires At(bytes, pos, blank, k) && pos < |bytes|
    ensures var line := LineOf(bytes[pos..]);
            && line != [] && pos + |line| <= |bytes|
            && (Starts(line, blank) ==> k < |Split(bytes, true).messages| && pos == Offset(Split(bytes, true), k))
            && At(bytes, pos + |line|, line[0] == NL, if Starts(line, blank) then k + 1 else k)
  {
    hide Split, StartsFrom, LineLength, LineOf, Offset, Prepend, IsLine, Starts;
    Cut(bytes, pos);
    var line := LineOf(bytes[pos..]);
    var rest := bytes[pos + |line|..];
    SplitLine(line, rest, blank);
    AtPrepend(Split(bytes, true), k, line, Split(rest, line[0] == NL), blank, pos);
    hide At;
    IsAt(bytes, pos + |line|, rest, line[0] == NL, if Starts(line, blank) then k + 1 else k);
  }

  lemma IsAt(bytes: seq<byte>, pos: nat, rest: seq<byte>, blank: bool, k: nat)
    requires pos <= |bytes| && bytes[pos..] == rest && k <= |Split(bytes, true).messages|
    requires Split(rest, blank).messages == Split(bytes, true).messages[k..]
    requires pos + |Split(rest, blank).preamble| == Offset(Split(bytes, true), k)
    ensures At(bytes, pos, blank, k)
  {}

  lemma AtStart(bytes: seq<byte>)
    ensures At(bytes, 0, true, 0)
  {
    assert bytes[0..] == bytes;
  }

  lemma AtEnd(bytes: seq<byte>, blank: bool, k: nat)
    requires At(bytes, |bytes|, blank, k)
    ensures k == |Split(bytes, true).messages|
  {
    assert bytes[|bytes|..] == [];
  }

  /** The scan for message num: how many starts were seen, and where the latest blank-preceded line began. */
  ghost predicate Seeking(bytes: seq<byte>, num: int, status: Status, pos: nat, current: nat, filePointer: nat) {
    && status != Found && pos <= |bytes| && current <= num && current <= |Split(bytes, true).messages|
    && (status != Error ==> At(bytes, pos, status == Blank, current))
    && (status == Error ==> current == |Split(bytes, true).messages| < num)
    && (0 < current == num ==> filePointer == Offset(Split(bytes, true), num - 1))
  }

  lemma SeekLine(bytes: seq<byte>, num: int, status: Status, pos: nat, current: nat, filePointer: nat)
    requires Seeking(bytes, num, status, pos, current, filePointer) && status != Error && current < num
    ensures var line := LineOf(bytes[pos..]);
            var filePointer' := if status == Blank then pos else filePointer;
            var starts := status == Blank && FROM <= line;
            && (line == [] ==> Seeking(bytes, num, Error, pos, current, filePointer'))
            && (line != [] && line[0] == NL ==> Seeking(bytes, num, Blank, pos + |line|, current, filePointer'))
            && (line != [] && line[0] != NL ==>
                  Seeking(bytes, num, Pending, pos + |line|, if starts then current + 1 else current, filePointer'))
  {
    hide At, Split, Offset, LineLength, Starts;
    var line := LineOf(bytes[pos..]);
    if pos == |bytes| {
      AtEnd(bytes, status == Blank, current);
    } else {
      AtLine(bytes, pos, status == Blank, current);
      StartsIs(line, status == Blank);
      AtBounds(bytes, pos + |line|, line[0] == NL, if Starts(line, status == Blank) then current + 1 else current);
    }
  }

  lemma SeekEnds(bytes: seq<byte>, num: int, status: Status, pos: nat, current: nat, filePointer: nat)
    requires Seeking(bytes, num, status, pos, current, filePointer) && num > 0 && (status == Error || current >= num)
    ensures current == num <==> num <= |Split(bytes, true).messages|
    ensures current == num ==> filePointer == Offset(Split(bytes, true), num - 1)
  {}

  lemma SeekStarts(bytes: seq<byte>, num: int)
    requires num > 0
    ensures Seeking(bytes, num, Blank, 0, 0, 0)
  {
    AtStart(bytes);
  }

  /** Points to the start of message num, counted from 1. */
  method PointToMessage(file: File, num: int) returns (err: int)
    modifies file`pos
    ensures err == 0 <==> 1 <= num <= |Split(file.bytes, true).messages|
    ensures err == 0 ==> file.pos == Offset(Split(file.bytes, true), num - 1)
  {
    if num <= 0 {
      return -1;
    }
    hide *;
    var current, filePointer, status := 0, 0, Blank;
    file.pos := 0;
    SeekStarts(file.bytes, num);
    while (status == Pending || status == Blank) && current < num
      invariant status != Found && file.pos <= |file.bytes| && 0 <= current && 0 <= filePointer
      invariant Seeking(file.bytes, num, status, file.pos, current, filePointer)
      decreases |file.bytes| - file.pos, status != Error
    {
      SeekLine(file.bytes, num, status, file.pos, current, filePointer);
      if status == Blank { filePointer := file.pos; }
      var line := GetLine(file);
      if line == [] {
        status := Error;
      } else if line[0] == NL {
        status := Blank;
      } else {
        if status == Blank && FROM <= line {
          current := current + 1;
        }
        status := Pending;
      }
    }
    SeekEnds(file.bytes, num, status, file.pos, current, filePointer);
    if current == num {
      file.pos := filePointer;
      err := 0;
    } else {
      err := -1;
    }
  }

  lemma StartsIs(line: seq<byte>, blank: bool)
    ensures Starts(line, blank) <==> line != [] && line[0] != NL && blank && FROM <= line
  {}

  lemma AtBounds(bytes: seq<byte>, pos: nat, blank: bool, k: nat)
    requires At(bytes, pos, blank, k)
    ensures k <= |Split(bytes, true).messages|
  {}

  /** The rest of the file still has the same next start. */
  ghost predicate NextAt(bytes: seq<byte>, start: nat, pos: nat, blank: bool) {
    start <= pos <= |bytes| &&
    var whole, rest := Split(bytes[start..], false), Split(bytes[pos..], blank);
    rest.messages == whole.messages && pos + |rest.preamble| == start + |whole.preamble|
  }

  lemma NextLine(bytes: seq<byte>, start: nat, pos: nat, blank: bool)
    requires NextAt(bytes, start, pos, blank)
    ensures var line := LineOf(bytes[pos..]);
            var whole := Split(bytes[start..], false);
            && (line == [] ==> whole.messages == [] && pos == start + |whole.preamble| == |bytes|)
            && (Starts(line, blank) ==> whole.messages != [] && pos == start + |whole.preamble|)
            && (line != [] && !Starts(line, blank) ==> NextAt(bytes, start, pos + |line|, line[0] == NL))
  {
    hide LineLength, IsLine, StartsFrom;
    if pos < |bytes| {
      Cut(bytes, pos);
      var line := LineOf(bytes[pos..]);
      SplitLine(line, bytes[pos + |line|..], blank);
    }
  }

  /** Points to the next line that starts a message after a blank line; to the end when there is none. */
  method PointToNextMessage(file: File) returns (err: int)
    requires file.pos <= |file.bytes|
    modifies file`pos
    ensures err == 0 <==> Split(file.bytes[old(file.pos)..], false).messages != []
    ensures file.pos == old(file.pos) + |Split(file.bytes[old(file.pos)..], false).preamble| <= |file.bytes|
  {
    ghost var start, whole := file.pos, Split(file.bytes[file.pos..], false);
    assert NextAt(file.bytes, start, start, false);
    hide *;
    var status, filePointer := Pending, 0;
    while status == Pending || status == Blank
      invariant start <= file.pos <= |file.bytes|
      invariant status == Blank ==> filePointer == file.pos
      invariant status == Pending || status == Blank ==> NextAt(file.bytes, start, file.pos, status == Blank)
      invariant status == Error ==> whole.messages == [] && file.pos == start + |whole.preamble|
      invariant status == Found ==> whole.messages != [] && filePointer == start + |whole.preamble| <= |file.bytes|
      decreases |file.bytes| - file.pos, status == Pending || status == Blank
    {
      NextLine(file.bytes, start, file.pos, status == Blank);
      var line := GetLine(file);
      StartsIs(line, status == Blank);
      if line == [] {
        status := Error;
      } else if line[0] == NL {
        status := Blank;
        filePointer := file.pos;
      } else if status == Blank {
        status := if FROM <= line then Found else Pending;
      }
    }
    if status == Found {
      file.pos := filePointer;
      err := 0;
    } else {
      err := -1;
    }
  }

  // ---------------------------------------------------------------- deleting one message

  /** m has at least one byte after the blank line that ends its header. */
  predicate HasBody(m: seq<byte>) {
    HeaderLength(m) < |m|
  }

  /** The first message the splice keeps after deleting message k: the next one, or the one after it. */
  function DeleteEnd(b: Box, k: nat): nat
    requires k < |b.messages|
  {
    if HasBody(b.messages[k]) || k + 1 == |b.messages| then k + 1 else k + 2
  }

  lemma {:induction false} EndsBlankHasHeader(s: seq<byte>)
    ensures EndsBlank(s, false) ==> HeaderLength(s) >= 0
    decreases |s|
  {
    if s != [] && s[0] != NL { EndsBlankHasHeader(s[LineLength(s)..]); }
  }

  /** Up to its header's blank line s holds no start, and after it the line before is blank. */
  ghost predicate HeaderThen(s: seq<byte>, h: nat) {
    h <= |s| && Split(s, false) == Box(s[..h] + Split(s[h..], true).preamble, Split(s[h..], true).messages)
  }

  lemma PrependBox(line: seq<byte>, b: Box)
    requires line != []
    ensures Prepend(line, b, false) == Box(line + b.preamble, b.messages)
  {}

  lemma HeaderThenLine(line: seq<byte>, rest: seq<byte>, h: nat)
    requires IsLine(line, rest)
    ensures line[0] == NL ==> HeaderThen(line + rest, |line|)
    ensures line[0] != NL && HeaderThen(rest, h) ==> HeaderThen(line + rest, |line| + h)
  {
    var s := line + rest;
    assert line != [];
    hide Split, LineLength, IsLine, StartsFrom, Prepend;
    SplitLine(line, rest, false);
    PrependBox(line, Split(rest, line[0] == NL));
    if line[0] == NL {
      assert s[..|line|] == line && s[|line|..] == rest;
    } else if HeaderThen(rest, h) {
      var b := Split(rest[h..], true);
      assert s[|line| + h..] == rest[h..] && s[..|line| + h] == line + rest[..h];
      assert line + (rest[..h] + b.preamble) == (line + rest[..h]) + b.preamble;
    }
  }

  lemma {:induction false} SplitHeader(s: seq<byte>)
    requires HeaderLength(s) >= 0
    ensures HeaderThen(s, HeaderLength(s))
    decreases |s|
  {
    hide *;
    var line, rest := HeaderLines(s);
    HeaderPrepend(line, rest);
    if line[0] == NL {
      HeaderThenLine(line, rest, 0);
    } else {
      SplitHeader(rest);
      HeaderThenLine(line, rest, HeaderLength(rest));
    }
  }

  lemma HeaderLines(s: seq<byte>) returns (line: seq<byte>, rest: seq<byte>)
    requires HeaderLength(s) >= 0
    ensures s == line + rest && line != [] && IsLine(line, rest)
  {
    line, rest := LineOf(s), s[LineLength(s)..];
    FirstLine(s);
  }

  lemma MessageHeader(m: seq<byte>, ms: seq<seq<byte>>)
    requires IsMessage(m, ms == []) && (ms == [] || Complete(m))
    ensures HeaderLength(m + Concat(ms)) == HeaderLength(m)
    ensures ms != [] ==> HeaderLength(m) >= 0
  {
    if ms == [] {
      assert m + Concat(ms) == m;
    } else {
      MessageStartsWithFrom(m);
      EndsBlankHasHeader(m[LineLength(m)..]);
      HeaderLengthPrefix(m, Concat(ms));
    }
  }

  lemma MessageStartsWithFrom(m: seq<byte>)
    requires m != [] && Split(m, true) == Box([], [m])
    ensures m[0] != NL && StartsFrom(m)
    ensures Split(m, false) == Box(m, [])
  {
    PreambleIsEmpty(m);
    hide Split;
    SplitBlankOrNot(m);
    var c := Split(m, false);
    assert ([c.preamble] + c.messages)[0] == m && ([c.preamble] + c.messages)[1..] == c.messages;
    assert m[0] == FROM[0];
  }

  /** Where the scan for the next message stops, seen from the start of message ms[0]. */
  lemma NextStart(s: seq<byte>, ms: seq<seq<byte>>)
    requires ms != [] && Split(s, true) == Box([], ms) && HeaderLength(s) >= 0 && HeaderLength(s) <= |ms[0]|
    ensures var h := HeaderLength(s);
            h + |Split(s[h..], false).preamble| ==
            if h < |ms[0]| || |ms| == 1 then |ms[0]| else |ms[0]| + |ms[1]|
  {
    var h := HeaderLength(s);
    SplitHeader(s);
    SplitBlankOrNot(s);
    var b := Split(s[h..], true);
    assert ms[0] == s[..h] + b.preamble && ms[1..] == b.messages;
    SplitBlankOrNot(s[h..]);
    if b.preamble == [] && b.messages != [] {
      PreambleIsEmpty(s[h..]);
    }
  }

  lemma PreambleIsEmpty(s: seq<byte>)
    requires Split(s, true).preamble == [] && s != []
    ensures StartsFrom(s)
  {}

  /** A message's identity: its number and the date its header gives. */
  datatype MsgId = MsgId(num: int, date: int)

  /** What delete_msg_from_file insists on before it changes anything. */
  ghost predicate Deletable(b: Box, id: MsgId, date: seq<byte> -> int) {
    && 1 <= id.num <= |b.messages|
    && var m := b.messages[id.num - 1];
    HeaderLength(m) >= 0 && date(m[..HeaderLength(m)]) == id.date
  }

  lemma TailMessages(b: Box, k: nat)
    requires GoodBox(b, true) && k < |b.messages|
    ensures Split(Concat(b.messages[k..]), true) == Box([], b.messages[k..])
    ensures HeaderLength(Concat(b.messages[k..])) == HeaderLength(b.messages[k])
    ensures k + 1 < |b.messages| ==> HeaderLength(b.messages[k]) >= 0
  {
    var m, rest, tail := b.messages[k], b.messages[k + 1..], b.messages[k..];
    hide Split, HeaderLength, EndsBlank, IsMessage;
    forall i | 0 <= i < |tail| ensures IsMessage(tail[i], i == |tail| - 1) {
      assert IsMessage(b.messages[k + i], k + i == |b.messages| - 1);
    }
    SplitMessages(tail);
    assert tail == [m] + rest && tail[0] == m && tail[1..] == rest;
    assert IsMessage(tail[0], 0 == |tail| - 1);
    MessageIsComplete(m, rest == []);
    MessageHeader(m, rest);
  }

  lemma MessageIsComplete(m: seq<byte>, last: bool)
    requires IsMessage(m, last)
    ensures last || Complete(m)
    ensures m != []
  {}

  /** Message k as the file shows it from its offset on. */
  lemma FromOffset(bytes: seq<byte>, k: nat)
    requires k < |Split(bytes, true).messages|
    ensures Offset(Split(bytes, true), k) < |bytes|
    ensures var b := Split(bytes, true);
            var s := bytes[Offset(b, k)..];
            && Split(s, true) == Box([], b.messages[k..])
            && HeaderLength(s) == HeaderLength(b.messages[k])
            && (k + 1 < |b.messages| ==> HeaderLength(s) >= 0)
            && (HeaderLength(s) >= 0 ==> s[..HeaderLength(s)] == b.messages[k][..HeaderLength(s)])
  {
    var b := Split(bytes, true);
    JoinSplit(bytes, true);
    SplitIsGood(bytes, true);
    hide Split, HeaderLength, Offset, GoodBox;
    JoinAt(b, k);
    TailMessages(b, k);
    MessageNotEmpty(b, k);
    var m, rest := b.messages[k], b.messages[k + 1..];
    assert b.messages[k..][0] == m && b.messages[k..][1..] == rest;
    assert Concat(b.messages[k..]) == m + Concat(rest);
  }

  lemma MessageNotEmpty(b: Box, k: nat)
    requires GoodBox(b, true) && k < |b.messages|
    ensures b.messages[k] != []
  {
    hide Split, EndsBlank;
    assert IsMessage(b.messages[k], k == |b.messages| - 1);
  }

  /** The offset the splice reads on from, once the header of message k has been read. */
  lemma NextOffset(bytes: seq<byte>, k: nat)
    requires k < |Split(bytes, true).messages| && HeaderLength(Split(bytes, true).messages[k]) >= 0
    ensures var b := Split(bytes, true);
            var pos := Offset(b, k) + HeaderLength(b.messages[k]);
            && pos <= |bytes| && pos + |Split(bytes[pos..], false).preamble| == Offset(b, DeleteEnd(b, k))
  {
    var b := Split(bytes, true);
    hide Split, HeaderLength, Offset;
    FromOffset(bytes, k);
    OffsetNext(b, k);
    if k + 1 < |b.messages| { OffsetNext(b, k + 1); }
    var s, h := bytes[Offset(b, k)..], HeaderLength(b.messages[k]);
    assert s[h..] == bytes[Offset(b, k) + h..];
    NextStart(s, b.messages[k..]);
  }

  /** Deletes one message, or reports an error and changes nothing. */
  method DeleteMsgFromFile(file: File, id: MsgId, date: seq<byte> -> int) returns (err: int)
    modifies file
    ensures err == 0 <==> old(Deletable(Split(file.bytes, true), id, date))
    ensures err != 0 ==> file.bytes == old(file.bytes)
    ensures err == 0 ==> Split(file.bytes, true) ==
                         var b := old(Split(file.bytes, true)); Remove(b, id.num - 1, DeleteEnd(b, id.num - 1))
  {
    hide Split, HeaderLength, Offset, DeleteEnd, Remove, Splice.Covered, Splice.Ends;
    ghost var before, b := file.bytes, Split(file.bytes, true);
    if id.num <= 0 {
      return -1;
    }
    err := PointToMessage(file, id.num);
    if err != 0 {
      return -1;
    }
    ghost var k := id.num - 1;
    FromOffset(before, k);
    var fileWrite := file.pos;
    var ok, header := FillHeader(file);
    if !ok || date(header) != id.date {
      return -1;
    }
    NextOffset(before, k);
    err := PointToNextMessage(file);
    var fileRead := file.pos;
    ghost var size;
    DeleteEndInRange(b, k);
    CutIsRemove(before, k, DeleteEnd(b, k));
    NothingGrows(|before|, fileRead, fileWrite);
    err, size := Splice.InsertLineInFile(file, [], fileRead, fileWrite);
    assert file.bytes == before[..fileWrite] + before[fileRead..];
  }

  lemma DeleteEndInRange(b: Box, k: nat)
    requires k < |b.messages|
    ensures k < DeleteEnd(b, k) <= |b.messages|
  {}

  lemma NothingGrows(length: nat, read: nat, write: nat)
    requires write <= read
    ensures Splice.Covered(length, 0, read, write) && Splice.Ends(length, 0, read, write)
  {}

  /** Exactly one message goes when the deleted one has a body or is the last; otherwise the next goes too. */
  lemma DeletesOneIff(b: Box, k: nat)
    requires k < |b.messages|
    ensures Remove(b, k, DeleteEnd(b, k)) == Remove(b, k, k + 1) <==> HasBody(b.messages[k]) || k + 1 == |b.messages|
  {
    if DeleteEnd(b, k) == k + 2 {
      assert |Remove(b, k, k + 2).messages| < |Remove(b, k, k + 1).messages|;
    }
  }

  /** "From ", newline, newline: a message that is only a header. */
  const HEADER_ONLY: seq<byte> := FROM + [NL, NL]

  lemma HeaderOnlyIsMessage()
    ensures IsMessage(HEADER_ONLY, false) && HeaderLength(HEADER_ONLY) == |HEADER_ONLY|
  {
    var line, blank := FROM + [NL], [NL];
    assert HEADER_ONLY == line + blank;
    assert line[5..] == [NL] && line[4..][1..] == line[5..] && line[3..][1..] == line[4..]
           && line[2..][1..] == line[3..]
           && line[1..][1..] == line[2..];
    assert LineLength(line[5..]) == 1 && LineLength(line[4..]) == 2 && LineLength(line[3..]) == 3
           && LineLength(line[2..]) == 4;
    assert LineLength(line[1..]) == 5 && LineLength(line) == 6;
    SplitLine(line, blank, true);
    HeaderPrepend(line, blank);
    SplitLine(blank, [], false);
    assert blank + [] == blank;
  }

  lemma HeaderOnlyTwice()
    ensures Split(HEADER_ONLY + HEADER_ONLY, true) == Box([], [HEADER_ONLY, HEADER_ONLY])
  {
    HeaderOnlyIsMessage();
    hide Split, HeaderLength;
    var b := Box([], [HEADER_ONLY, HEADER_ONLY]);
    MessageIsLastToo(HEADER_ONLY);
    SplitMessages(b.messages);
    assert b.messages[1..] == [HEADER_ONLY] && Concat([HEADER_ONLY]) == HEADER_ONLY;
    assert Concat(b.messages) == HEADER_ONLY + HEADER_ONLY;
  }

  /** Concretely: of two header-only messages, deleting the first deletes both. */
  lemma HeaderOnlyTakesTheNext()
    ensures var b := Split(HEADER_ONLY + HEADER_ONLY, true);
            |b.messages| == 2 && Remove(b, 0, DeleteEnd(b, 0)).messages == []
  {
    HeaderOnlyTwice();
    HeaderOnlyIsMessage();
    hide Split, HeaderLength;
  }

  lemma MessageIsLastToo(m: seq<byte>)
    requires IsMessage(m, false)
    ensures IsMessage(m, true)
  {}

  // ---------------------------------------------------------------- deleting several messages

  ghost predicate Descending(q: seq<MsgId>) {
    forall i, j :: 0 <= i < j < |q| ==> q[i].num >= q[j].num
  }

  /** The first x places are in order and hold the highest numbers. */
  ghost predicate SortedTo(q: seq<MsgId>, x: nat) {
    forall i, j :: 0 <= i < x && i < j < |q| ==> q[i].num >= q[j].num
  }

  ghost predicate HighestOf(q: seq<MsgId>, x: nat, y: nat)
    requires x < |q|
  {
    forall j :: x < j < y && j < |q| ==> q[x].num >= q[j].num
  }

  function Swap(q: seq<MsgId>, x: nat, y: nat): (r: seq<MsgId>)
    requires x < |q| && y < |q|
    ensures |r| == |q|
  {
    q[x := q[y]][y := q[x]]
  }

  lemma SwapKeeps(q: seq<MsgId>, x: nat, y: nat)
    requires x < y < |q| && SortedTo(q, x) && HighestOf(q, x, y) && q[x].num < q[y].num
    ensures multiset(Swap(q, x, y)) == multiset(q)
    ensures SortedTo(Swap(q, x, y), x) && HighestOf(Swap(q, x, y), x, y + 1)
  {
    SwapPermutes(q, x, y);
  }

  lemma SwapPermutes(q: seq<MsgId>, x: nat, y: nat)
    requires x < y < |q|
    ensures multiset(Swap(q, x, y)) == multiset(q)
  {
    assert q == q[..x] + [q[x]] + q[x + 1..y] + [q[y]] + q[y + 1..];
    assert Swap(q, x, y) == q[..x] + [q[y]] + q[x + 1..y] + [q[x]] + q[y + 1..];
  }

  /** Exchange sort, highest number first, in place. */
  method SortMsgIds(ids: array<MsgId>)
    modifies ids
    ensures Descending(ids[..]) && multiset(ids[..]) == multiset(old(ids[..]))
  {
    var n := ids.Length;
    ghost var all := multiset(ids[..]);
    if n > 1 {
      for x := 0 to n - 1
        invariant multiset(ids[..]) == all && SortedTo(ids[..], x)
      {
        for y := x + 1 to n
          invariant multiset(ids[..]) == all && SortedTo(ids[..], x) && HighestOf(ids[..], x, y)
        {
          ghost var q := ids[..];
          if ids[x].num < ids[y].num {
            SwapKeeps(q, x, y);
            ids[x], ids[y] := ids[y], ids[x];
            assert ids[..] == Swap(q, x, y);
          }
        }
      }
    }
  }

  ghost function Numbers(q: seq<MsgId>): set<int> {
    set id | id in q :: id.num
  }

  /** The messages from position lo on whose numbers are not in nums. */
  ghost function Kept(ms: seq<seq<byte>>, nums: set<int>, lo: nat): seq<seq<byte>>
    decreases |ms| - lo
  {
    if lo >= |ms| then [] else (if lo + 1 in nums then [] else [ms[lo]]) + Kept(ms, nums, lo + 1)
  }

  lemma {:induction false} KeptSkip(ms: seq<seq<byte>>, nums: set<int>, lo: nat, hi: nat)
    requires lo <= hi <= |ms| && forall x :: lo < x <= hi ==> x !in nums
    ensures Kept(ms, nums, lo) == ms[lo..hi] + Kept(ms, nums, hi)
    decreases hi - lo
  {
    if lo < hi {
      KeptSkip(ms, nums, lo + 1, hi);
      assert lo + 1 !in nums;
      var kept := Kept(ms, nums, lo + 1);
      assert Kept(ms, nums, lo) == [ms[lo]] + kept;
      hide Kept;
      assert ms[lo..hi] == [ms[lo]] + ms[lo + 1..hi];
    } else {
      assert ms[lo..hi] == [];
    }
  }

  /** What deleting one message after another leaves, and whether every deletion succeeded. */
  datatype Outcome = Outcome(box: Box, ok: bool)

  /** The requests of q, carried out in its order up to the first that fails. */
  ghost function DeleteAll(b: Box, q: seq<MsgId>, date: seq<byte> -> int): Outcome
    decreases |q|
  {
    if q == [] then Outcome(b, true)
    else if !Deletable(b, q[0], date) then Outcome(b, false)
    else DeleteAll(Remove(b, q[0].num - 1, DeleteEnd(b, q[0].num - 1)), q[1..], date)
  }

  /** Exactly the requested messages are gone. */
  ghost predicate Exact(b: Box, q: seq<MsgId>, r: Outcome) {
    r == Outcome(Box(b.preamble, Kept(b.messages, Numbers(q), 0)), true)
  }

  ghost predicate OnceEach(q: seq<MsgId>) {
    forall i, j :: 0 <= i < j < |q| ==> q[i].num != q[j].num
  }

  /** Deleting message k takes no message along: it has a body, or all later ones are requested too. */
  ghost predicate Alone(b: Box, nums: set<int>, k: nat)
    requires k < |b.messages|
  {
    HasBody(b.messages[k]) || forall x :: k + 1 < x <= |b.messages| ==> x in nums
  }

  /** What a caller can check before: distinct numbers in range, right dates, no message taken along. */
  ghost predicate Clean(b: Box, q: seq<MsgId>, date: seq<byte> -> int) {
    && OnceEach(q)
    && (forall i :: 0 <= i < |q| ==> Deletable(b, q[i], date))
    && (forall i :: 0 <= i < |q| ==> Alone(b, Numbers(q), q[i].num - 1))
  }

  ghost predicate AllInRange(b: Box, q: seq<MsgId>) {
    forall i :: 0 <= i < |q| ==> 1 <= q[i].num <= |b.messages|
  }

  /** Below cut nothing has been deleted yet; from cut on everything that was asked for has. */
  ghost predicate Deleted(b: Box, nums: set<int>, cut: nat, now: Box) {
    cut <= |b.messages| && now == Box(b.preamble, b.messages[..cut] + Kept(b.messages, nums, cut))
  }

  /** Deleting the next lower number moves the cut down to it. */
  lemma DeletedNext(b: Box, nums: set<int>, cut: nat, now: Box, k: nat)
    requires Deleted(b, nums, cut, now) && k < cut && k + 1 in nums && forall x :: k + 1 < x <= cut ==> x !in nums
    ensures k < |now.messages| && now.messages[k] == b.messages[k]
    ensures Deleted(b, nums, k, Remove(now, k, k + 1))
  {
    KeptSkip(b.messages, nums, k + 1, cut);
    var after := Remove(now, k, k + 1);
    assert now.messages[..k] == b.messages[..k];
    assert now.messages[k + 1..] == b.messages[k + 1..cut] + Kept(b.messages, nums, cut);
    assert Kept(b.messages, nums, k) == [] + Kept(b.messages, nums, k + 1);
  }

  lemma DeletedStarts(b: Box, nums: set<int>)
    ensures Deleted(b, nums, |b.messages|, b)
  {
    assert b.messages[..|b.messages|] == b.messages;
  }

  lemma DeletedEnds(b: Box, nums: set<int>, cut: nat, now: Box)
    requires Deleted(b, nums, cut, now) && forall x :: 0 < x <= cut ==> x !in nums
    ensures now == Box(b.preamble, Kept(b.messages, nums, 0))
  {
    KeptSkip(b.messages, nums, 0, cut);
    assert b.messages[0..cut] == b.messages[..cut];
  }

  ghost function CutAfter(b: Box, q: seq<MsgId>, j: nat): int
    requires j <= |q|
  {
    if j == 0 then |b.messages| else q[j - 1].num - 1
  }

  /** In descending order without repetition, every number between two neighbours is free. */
  lemma NumbersBetween(b: Box, q: seq<MsgId>, j: nat)
    requires Descending(q) && OnceEach(q) && AllInRange(b, q) && j <= |q|
    ensures 0 <= CutAfter(b, q, j) <= |b.messages|
    ensures forall x :: x in Numbers(q) && x <= CutAfter(b, q, j) ==> j < |q| && x <= q[j].num
    ensures j < |q| ==> 0 < q[j].num <= CutAfter(b, q, j) && q[j].num in Numbers(q)
  {
    var cut := CutAfter(b, q, j);
    assert j > 0 ==> 1 <= q[j - 1].num <= |b.messages|;
    assert j < |q| ==> 1 <= q[j].num <= |b.messages| && q[j] in q;
    if 0 < j < |q| {
      assert q[j - 1].num >= q[j].num && q[j - 1].num != q[j].num;
    }
    forall i | 0 <= i < j ensures q[i].num > cut {
      if i < j - 1 { assert q[i].num >= q[j - 1].num; }
    }
    forall x | x in Numbers(q) && x <= cut ensures j < |q| && x <= q[j].num {
      var i :| 0 <= i < |q| && q[i].num == x;
      assert j <= i;
      if j < i { assert q[j].num >= q[i].num; }
    }
  }

  /** After j deletions that took one message each. */
  ghost predicate Progress(b: Box, q: seq<MsgId>, j: nat, now: Box) {
    j <= |q| && 0 <= CutAfter(b, q, j) && Deleted(b, Numbers(q), CutAfter(b, q, j), now)
  }

  /** The next request hits the message it names, and takes one message exactly when that is Alone. */
  lemma ProgressNext(b: Box, q: seq<MsgId>, j: nat, now: Box, date: seq<byte> -> int)
    requires Descending(q) && OnceEach(q) && AllInRange(b, q) && j < |q| && Progress(b, q, j, now)
    ensures Deletable(now, q[j], date) <==> Deletable(b, q[j], date)
    ensures 0 < q[j].num <= |now.messages| && q[j].num <= |b.messages|
    ensures var k := q[j].num - 1;
            && (DeleteEnd(now, k) == k + 1 <==> Alone(b, Numbers(q), k))
            && Progress(b, q, j + 1, Remove(now, k, k + 1))
  {
    var cut, k, nums := CutAfter(b, q, j), q[j].num - 1, Numbers(q);
    NumbersBetween(b, q, j);
    NumbersBetween(b, q, j + 1);
    hide HeaderLength, Descending, OnceEach, AllInRange, Numbers, Kept;
    DeletedNext(b, nums, cut, now, k);
    NothingBehind(b, nums, cut, now, k);
  }

  /** Behind message k nothing is left exactly when all later ones were requested. */
  lemma NothingBehind(b: Box, nums: set<int>, cut: nat, now: Box, k: nat)
    requires Deleted(b, nums, cut, now) && k < cut && forall x :: k + 1 < x <= cut ==> x !in nums
    ensures k + 1 == |now.messages| <==> forall x :: k + 1 < x <= |b.messages| ==> x in nums
  {
    KeptSkip(b.messages, nums, k + 1, cut);
    KeptNone(b.messages, nums, cut);
    if k + 1 < cut { assert k + 2 !in nums; }
  }

  lemma {:induction false} KeptNone(ms: seq<seq<byte>>, nums: set<int>, lo: nat)
    requires lo <= |ms|
    ensures Kept(ms, nums, lo) == [] <==> forall x :: lo < x <= |ms| ==> x in nums
    decreases |ms| - lo
  {
    if lo < |ms| { KeptNone(ms, nums, lo + 1); }
  }

  lemma ProgressEnds(b: Box, q: seq<MsgId>, now: Box)
    requires Descending(q) && OnceEach(q) && AllInRange(b, q) && Progress(b, q, |q|, now)
    ensures now == Box(b.preamble, Kept(b.messages, Numbers(q), 0))
  {
    NumbersBetween(b, q, |q|);
    hide Descending, Deleted, Numbers;
    DeletedEnds(b, Numbers(q), CutAfter(b, q, |q|), now);
  }

  lemma ProgressStarts(b: Box, q: seq<MsgId>)
    ensures Progress(b, q, 0, b)
  {
    DeletedStarts(b, Numbers(q));
  }

  /** Every deletion that succeeds takes at least one message, and its number was in range. */
  lemma {:induction false} EachTakesOne(b: Box, q: seq<MsgId>, date: seq<byte> -> int)
    ensures var r := DeleteAll(b, q, date); r.ok ==> |r.box.messages| + |q| <= |b.messages| && AllInRange(b, q)
    decreases |q|
  {
    hide Deletable, HasBody;
    if q != [] && Deletable(b, q[0], date) {
      DeletableInRange(b, q[0], date);
      var now := Remove(b, q[0].num - 1, DeleteEnd(b, q[0].num - 1));
      EachTakesOne(now, q[1..], date);
      assert q == [q[0]] + q[1..];
    }
  }

  lemma DeletableInRange(b: Box, id: MsgId, date: seq<byte> -> int)
    requires Deletable(b, id, date)
    ensures 1 <= id.num <= |b.messages|
  {}

  ghost function Within(nums: set<int>, lo: int, hi: int): set<int> {
    set x | x in nums && lo < x <= hi
  }

  /** Of the numbers in range each takes one message from those kept. */
  lemma {:induction false} KeptSize(ms: seq<seq<byte>>, nums: set<int>, lo: nat)
    requires lo <= |ms|
    ensures |Kept(ms, nums, lo)| == |ms| - lo - |Within(nums, lo, |ms|)|
    decreases |ms| - lo
  {
    var here := Within(nums, lo, |ms|);
    if lo < |ms| {
      var later := Within(nums, lo + 1, |ms|);
      KeptSize(ms, nums, lo + 1);
      assert here == if lo + 1 in nums then later + {lo + 1} else later;
    } else {
      assert here == {};
    }
  }

  lemma {:induction false} NumbersSize(q: seq<MsgId>)
    ensures |Numbers(q)| <= |q| && (|Numbers(q)| == |q| ==> OnceEach(q))
  {
    if q != [] {
      NumbersSize(q[1..]);
      NumbersFirst(q);
      hide Numbers, OnceEach;
      if |Numbers(q)| == |q| {
        assert q[0].num !in Numbers(q[1..]);
        OnceEachFirst(q);
      }
    }
  }

  lemma NumbersFirst(q: seq<MsgId>)
    requires q != []
    ensures Numbers(q) == Numbers(q[1..]) + {q[0].num}
  {
    assert forall id :: id in q <==> id == q[0] || id in q[1..];
  }

  lemma OnceEachFirst(q: seq<MsgId>)
    requires q != [] && OnceEach(q[1..]) && q[0].num !in Numbers(q[1..])
    ensures OnceEach(q)
  {
    forall i, j | 0 <= i < j < |q| ensures q[i].num != q[j].num {
      assert q[j] == q[1..][j - 1] && q[j] in q[1..];
      if i > 0 { assert q[1..][i - 1].num != q[1..][j - 1].num; }
    }
  }

  /** To leave exactly the other messages there must be distinct numbers and one message a deletion. */
  lemma ExactIsOneEach(b: Box, q: seq<MsgId>, date: seq<byte> -> int)
    requires Exact(b, q, DeleteAll(b, q, date))
    ensures OnceEach(q) && AllInRange(b, q)
    ensures |DeleteAll(b, q, date).box.messages| + |q| == |b.messages|
  {
    var nums := Numbers(q);
    hide Numbers, Kept, DeleteAll;
    EachTakesOne(b, q, date);
    KeptSize(b.messages, nums, 0);
    NumbersSize(q);
    SubsetSize(Within(nums, 0, |b.messages|), nums);
  }

  /** From the j-th request on: one message a deletion exactly when the rest is right. */
  lemma {:induction false} OneEachIff(b: Box, q: seq<MsgId>, j: nat, now: Box, date: seq<byte> -> int)
    requires Descending(q) && OnceEach(q) && AllInRange(b, q) && j <= |q| && Progress(b, q, j, now)
    ensures var r := DeleteAll(now, q[j..], date);
            r.ok && |r.box.messages| + (|q| - j) == |now.messages|
            <==> forall i :: j <= i < |q| ==> Deletable(b, q[i], date) && Alone(b, Numbers(q), q[i].num - 1)
    ensures var r := DeleteAll(now, q[j..], date);
            r.ok && |r.box.messages| + (|q| - j) == |now.messages| ==>
              r.box == Box(b.preamble, Kept(b.messages, Numbers(q), 0))
    decreases |q| - j
  {
    hide Deletable, Alone, Numbers, Progress, Descending, OnceEach, Kept, Remove, DeleteEnd, CutAfter;
    if j == |q| {
      ProgressEnds(b, q, now);
    } else {
      ProgressNext(b, q, j, now, date);
      var k := q[j].num - 1;
      assert q[j..][0] == q[j] && q[j..][1..] == q[j + 1..];
      if Deletable(now, q[j], date) {
        RemoveSize(now, k);
        if DeleteEnd(now, k) == k + 1 {
          OneEachIff(b, q, j + 1, Remove(now, k, k + 1), date);
        } else {
          EachTakesOne(Remove(now, k, DeleteEnd(now, k)), q[j + 1..], date);
        }
      }
    }
  }

  lemma RemoveSize(b: Box, k: nat)
    requires k < |b.messages|
    ensures k < DeleteEnd(b, k) <= |b.messages|
    ensures |Remove(b, k, DeleteEnd(b, k)).messages| == |b.messages| - (DeleteEnd(b, k) - k)
    ensures |Remove(b, k, k + 1).messages| == |b.messages| - 1
  {}

  /** Highest first, exactly the requested messages are deleted if and only if the requests are Clean. */
  lemma DeletesExactlyIff(b: Box, q: seq<MsgId>, date: seq<byte> -> int)
    requires Descending(q)
    ensures Exact(b, q, DeleteAll(b, q, date)) <==> Clean(b, q, date)
  {
    hide Descending, OnceEach, DeleteAll, Kept, Numbers, Alone;
    var r := DeleteAll(b, q, date);
    if Exact(b, q, r) {
      ExactIsOneEach(b, q, date);
    }
    if OnceEach(q) && AllInRange(b, q) {
      ProgressStarts(b, q);
      OneEachIff(b, q, 0, b, date);
      assert q[0..] == q;
    }
  }

  /** Concretely: two header-only messages can both be deleted. */
  lemma BothHeadersGo(date: seq<byte> -> int)
    ensures var b := Split(HEADER_ONLY + HEADER_ONLY, true);
            Clean(b, [MsgId(2, date(HEADER_ONLY)), MsgId(1, date(HEADER_ONLY))], date)
  {
    HeaderOnlyTwice();
    HeaderOnlyIsMessage();
    var q := [MsgId(2, date(HEADER_ONLY)), MsgId(1, date(HEADER_ONLY))];
    hide HeaderLength, Split, HEADER_ONLY;
    var b := Box([], [HEADER_ONLY, HEADER_ONLY]);
    assert HEADER_ONLY[..|HEADER_ONLY|] == HEADER_ONLY;
    assert Deletable(b, q[0], date) && Deletable(b, q[1], date);
    assert q[0] in q && 2 in Numbers(q);
    assert Alone(b, Numbers(q), 1) && Alone(b, Numbers(q), 0);
  }

  lemma SameMembers(q: seq<MsgId>, q': seq<MsgId>)
    requires multiset(q) == multiset(q')
    ensures (forall id :: id in q <==> id in q') && Numbers(q) == Numbers(q')
  {
    forall id ensures id in q <==> id in q' {
      assert id in q <==> id in multiset(q);
      assert id in q' <==> id in multiset(q');
    }
  }

  lemma CleanPermuted(b: Box, q: seq<MsgId>, q': seq<MsgId>, date: seq<byte> -> int)
    requires multiset(q) == multiset(q')
    ensures Clean(b, q, date) ==> Clean(b, q', date)
    ensures Numbers(q) == Numbers(q')
  {
    SameMembers(q, q');
    if Clean(b, q, date) {
      hide Deletable, Numbers, Alone;
      OnceEachPermuted(q, q');
      forall i | 0 <= i < |q'|
        ensures Deletable(b, q'[i], date) && q'[i].num <= |b.messages| && Alone(b, Numbers(q'), q'[i].num - 1)
      {
        assert q'[i] in q;
        var a :| 0 <= a < |q| && q[a] == q'[i];
        assert Deletable(b, q[a], date) && Alone(b, Numbers(q), q[a].num - 1);
        DeletableInRange(b, q[a], date);
      }
    }
  }

  lemma OnceEachPermuted(q: seq<MsgId>, q': seq<MsgId>)
    requires multiset(q) == multiset(q') && OnceEach(q)
    ensures OnceEach(q')
  {
    SameMembers(q, q');
    forall i, j | 0 <= i < j < |q'| ensures q'[i].num != q'[j].num {
      if q'[i].num == q'[j].num {
        assert q'[i] in q && q'[j] in q;
        var a :| 0 <= a < |q| && q[a] == q'[i];
        var c :| 0 <= c < |q| && q[c] == q'[j];
        assert a == c;
        OnceOnly(q, a);
        TwiceAtLeast(q', i, j);
      }
    }
  }

  lemma OnceOnly(q: seq<MsgId>, a: nat)
    requires a < |q| && forall i, j :: 0 <= i < j < |q| ==> q[i].num != q[j].num
    ensures multiset(q)[q[a]] == 1
  {
    assert q == q[..a] + [q[a]] + q[a + 1..];
    assert q[a] !in q[..a] && q[a] !in q[a + 1..];
  }

  lemma TwiceAtLeast(q: seq<MsgId>, i: nat, j: nat)
    requires i < j < |q| && q[i] == q[j]
    ensures multiset(q)[q[i]] >= 2
  {
    assert q == q[..i] + [q[i]] + q[i + 1..j] + [q[j]] + q[j + 1..];
  }

  /**
    Deletes the requested messages one at a time, highest number first, up to the first that fails.
    It reports success and leaves exactly the other messages if and only if the requests are Clean.
   */
  method DeleteMsgs(file: File, ids: array<MsgId>, date: seq<byte> -> int) returns (err: int)
    modifies file, ids
    ensures Descending(ids[..]) && multiset(ids[..]) == multiset(old(ids[..]))
    ensures Outcome(Split(file.bytes, true), err == 0) == DeleteAll(old(Split(file.bytes, true)), ids[..], date)
    ensures Exact(old(Split(file.bytes, true)), old(ids[..]), Outcome(Split(file.bytes, true), err == 0))
            <==> Clean(old(Split(file.bytes, true)), old(ids[..]), date)
  {
    hide *;
    ghost var b, q0 := Split(file.bytes, true), ids[..];
    SortMsgIds(ids);
    ghost var q := ids[..];
    ghost var all := DeleteAll(b, q, date);
    ExactPermuted(b, q0, q, date);
    err := 0;
    for x := 0 to ids.Length
      invariant ids[..] == q && err == 0
      invariant all == DeleteAll(Split(file.bytes, true), q[x..], date)
    {
      DeleteAllNext(Split(file.bytes, true), q, x, date);
      err := DeleteMsgFromFile(file, ids[x], date);
      if err != 0 {
        assert Outcome(Split(file.bytes, true), err == 0) == all;
        return;
      }
    }
    DeleteAllNone(Split(file.bytes, true), q, date);
  }

  lemma DeleteAllNext(b: Box, q: seq<MsgId>, x: nat, date: seq<byte> -> int)
    requires x < |q|
    ensures !Deletable(b, q[x], date) ==> DeleteAll(b, q[x..], date) == Outcome(b, false)
    ensures Deletable(b, q[x], date) ==>
              && 1 <= q[x].num <= |b.messages| && q[x].num - 1 < DeleteEnd(b, q[x].num - 1) <= |b.messages|
              && DeleteAll(b, q[x..], date)
                 == DeleteAll(Remove(b, q[x].num - 1, DeleteEnd(b, q[x].num - 1)), q[x + 1..], date)
  {
    assert q[x..][0] == q[x] && q[x..][1..] == q[x + 1..];
  }

  lemma DeleteAllNone(b: Box, q: seq<MsgId>, date: seq<byte> -> int)
    ensures DeleteAll(b, q[|q|..], date) == Outcome(b, true)
  {}

  /** In whatever order the requests came. */
  lemma ExactPermuted(b: Box, q0: seq<MsgId>, q: seq<MsgId>, date: seq<byte> -> int)
    requires multiset(q0) == multiset(q) && Descending(q)
    ensures Exact(b, q0, DeleteAll(b, q, date)) <==> Clean(b, q0, date)
  {
    hide Clean, Descending, Numbers, Kept;
    DeletesExactlyIff(b, q, date);
    CleanPermuted(b, q0, q, date);
    CleanPermuted(b, q, q0, date);
  }
}
