/** Telling the borders of multipart bodies from other lines. */
module Border {
  import opened Bytes
  import opened MailFile
  import opened Mailbox
  import opened Wrappers

  datatype Status = Pending | Nl | Done | Error | Found

  /** The line that starts the boundary b, or with last ends it. */
  function BorderOf(b: seq<byte>, last: bool): seq<byte> {
    [DASH, DASH] + b + if last then [DASH, DASH] else []
  }

  function IsBoundary(line: seq<byte>, boundary: Option<seq<byte>>): Status
    requires 0 !in line
  {
    if line != [] && line[0] == NL then Nl
    else if FROM <= line then Error
    else if boundary.None? then Pending
    else if |line| >= 3 && BorderOf(boundary.value, false) <= line then
      if BorderOf(boundary.value, true) <= line then Done else Found
    else Pending
  }

  /** The status of a line by its bytes: From and a space, a newline, or two dashes and the boundary. */
  lemma StatusOfLine(line: seq<byte>, b: seq<byte>)
    requires 0 !in line
    ensures IsBoundary(line, Some(b)) == Error <==> [70, 114, 111, 109, 32] <= line
    ensures IsBoundary(line, None) == Error <==> [70, 114, 111, 109, 32] <= line
    ensures IsBoundary(line, Some(b)) == Nl <==> [10] <= line
    ensures IsBoundary(line, Some(b)) == Done <==> [45, 45] + b + [45, 45] <= line
    ensures IsBoundary(line, Some(b)) == Found
            <==> |line| > 2 && [45, 45] + b <= line && !([45, 45] + b + [45, 45] <= line)
  {
    assert BorderOf(b, false) == [45, 45] + b && BorderOf(b, true) == [45, 45] + b + [45, 45];
    hide BorderOf;
    BothPrefixes(line, b);
  }

  lemma BothPrefixes(line: seq<byte>, b: seq<byte>)
    ensures [45, 45] + b <= line ==> |line| >= 2 && line[0] == 45
    ensures [45, 45] + b + [45, 45] <= line ==> [45, 45] + b <= line && |line| > 3
  {
    var border, last := [45, 45] + b, [45, 45] + b + [45, 45];
    if border <= line { assert line[0] == border[0]; }
    if last <= line { assert line[..|border|] == last[..|border|] == border; }
  }

  lemma BorderIsLine(b: seq<byte>, last: bool, more: seq<byte>)
    requires NL !in b && 0 !in b
    ensures var border := BorderOf(b, last) + [NL];
            && IsLine(border, more) && 0 !in border
            && IsBoundary(border, Some(b)) == if last then Done else Found
  {
    var border := BorderOf(b, last) + [NL];
    LineLengthIs(border);
    PrefixAt(FROM, border, 0);
    hide LineLength;
    assert BorderOf(b, last)[..2 + |b|] == BorderOf(b, false);
    assert BorderOf(b, false) <= border;
  }

  /** Where reading stopped: the last line's status, and how many bytes were read. */
  datatype Stop = Stop(status: Status, len: nat)

  predicate Goes(status: Status) {
    status == Pending || status == Nl
  }

  /** The status and length of the line at pos; none at the end of the file. */
  function LineAt(bytes: seq<byte>, pos: nat, boundary: Option<seq<byte>>): (r: Option<Stop>)
    requires pos <= |bytes|
    ensures r.Some? ==> 0 < r.value.len && pos + r.value.len <= |bytes|
    ensures r.None? <==> pos == |bytes|
  {
    var line := LineOf(bytes[pos..]);
    if line == [] then None else Some(Stop(IsBoundary(CString(line), boundary), |line|))
  }

  method ReadLine(file: File, boundary: Option<seq<byte>>) returns (status: Option<Status>)
    requires file.pos <= |file.bytes|
    modifies file`pos
    ensures match LineAt(file.bytes, old(file.pos), boundary)
            case None => status == None && file.pos == old(file.pos)
            case Some(r) => status == Some(r.status) && file.pos == old(file.pos) + r.len
  {
    var line := GetLine(file);
    status := if line == [] then None else Some(IsBoundary(CString(line), boundary));
  }

  /** n bytes more. */
  function Shift(n: nat, r: Option<Stop>): Option<Stop> {
    match r
    case None => None
    case Some(r) => Some(Stop(r.status, n + r.len))
  }

  /** From pos to the end of the first line that is a border of boundary or starts a message. */
  function FindBorder(bytes: seq<byte>, pos: nat, boundary: Option<seq<byte>>): (r: Option<Stop>)
    requires pos <= |bytes|
    ensures r.Some? ==> 0 < r.value.len && pos + r.value.len <= |bytes| && !Goes(r.value.status)
    decreases |bytes| - pos
  {
    match LineAt(bytes, pos, boundary)
    case None => None
    case Some(line) =>
      if Goes(line.status) then Shift(line.len, FindBorder(bytes, pos + line.len, boundary)) else Some(line)
  }

  lemma {:induction false} NoBoundaryNoBorder(bytes: seq<byte>, pos: nat)
    requires pos <= |bytes|
    ensures var r := FindBorder(bytes, pos, None); r.Some? ==> r.value.status == Error
    decreases |bytes| - pos
  {
    hide CString, LineOf;
    if pos < |bytes| { NoBoundaryNoBorder(bytes, pos + LineAt(bytes, pos, None).value.len); }
  }

  /** A scan that started at start has come to pos, the last line having the given status. */
  ghost predicate Scanning(bytes: seq<byte>, boundary: Option<seq<byte>>, start: nat, pos: nat, status: Status) {
    start <= pos <= |bytes| &&
    var whole := FindBorder(bytes, start, boundary);
    if Goes(status) then
      var r := FindBorder(bytes, pos, boundary);
      whole == if r.None? then None else Some(Stop(r.value.status, pos - start + r.value.len))
    else whole == Some(Stop(status, pos - start))
  }

  lemma ScanningStarts(bytes: seq<byte>, boundary: Option<seq<byte>>, start: nat)
    requires start <= |bytes|
    ensures Scanning(bytes, boundary, start, start, Pending)
  {}

  lemma ScanningNext(bytes: seq<byte>, boundary: Option<seq<byte>>, start: nat, pos: nat, status: Status)
    requires Scanning(bytes, boundary, start, pos, status) && Goes(status)
    ensures start <= pos <= |bytes|
    ensures match LineAt(bytes, pos, boundary)
            case None => FindBorder(bytes, start, boundary) == None
            case Some(r) => Scanning(bytes, boundary, start, pos + r.len, r.status)
  {
    hide LineAt;
  }

  lemma ScanningEnds(bytes: seq<byte>, boundary: Option<seq<byte>>, start: nat, pos: nat, status: Status)
    requires Scanning(bytes, boundary, start, pos, status) && !Goes(status)
    ensures start <= pos <= |bytes| && FindBorder(bytes, start, boundary) == Some(Stop(status, pos - start))
  {}

  /**
    Reads up to and including the next border. None stands for a file that ends before one: the
    original then looks at the last line again and again.
   */
  method FindNextBorder(file: File, boundary: Option<seq<byte>>) returns (status: Option<Status>)
    requires file.pos <= |file.bytes|
    modifies file`pos
    ensures old(file.pos) <= file.pos <= |file.bytes|
    ensures match FindBorder(file.bytes, old(file.pos), boundary)
            case None => status == None
            case Some(r) => status == Some(r.status) && file.pos == old(file.pos) + r.len
  {
    var start := file.pos;
    var st := Pending;
    status := Some(st);
    hide *;
    ScanningStarts(file.bytes, boundary, start);
    while Goes(st)
      invariant start <= file.pos <= |file.bytes|
      invariant status == Some(st) && Scanning(file.bytes, boundary, start, file.pos, st)
      decreases |file.bytes| - file.pos
    {
      ghost var pos := file.pos;
      status := ReadLine(file, boundary);
      ScanningReads(file.bytes, boundary, start, pos, st, status, file.pos);
      if status == None {
        assert FindBorder(file.bytes, start, boundary) == None;
        return;
      }
      st := status.value;
    }
    ScanningEnds(file.bytes, boundary, start, file.pos, st);
    assert FindBorder(file.bytes, start, boundary) == Some(Stop(st, file.pos - start));
  }

  /** One line read by the search. */
  lemma ScanningReads(bytes: seq<byte>, boundary: Option<seq<byte>>, start: nat, pos: nat, status: Status,
                      read: Option<Status>, pos': nat)
    requires Scanning(bytes, boundary, start, pos, status) && Goes(status) && pos <= |bytes|
    requires match LineAt(bytes, pos, boundary)
             case None => read == None && pos' == pos
             case Some(r) => read == Some(r.status) && pos' == pos + r.len
    ensures start <= pos && (read == None ==> FindBorder(bytes, start, boundary) == None)
    ensures read.Some? ==> pos < pos' <= |bytes| && Scanning(bytes, boundary, start, pos', read.value)
  {
    hide LineAt, FindBorder, Scanning;
    ScanningNext(bytes, boundary, start, pos, status);
  }

  /** A text part runs to its border, or in a file without one to the end, which counts as an error. */
  function TextStop(bytes: seq<byte>, pos: nat, boundary: Option<seq<byte>>): (r: Stop)
    requires pos <= |bytes|
    ensures pos + r.len <= |bytes| && !Goes(r.status)
  {
    match FindBorder(bytes, pos, boundary)
    case None => Stop(Error, |bytes| - pos)
    case Some(r) => r
  }

  ghost predicate Reading(bytes: seq<byte>, boundary: Option<seq<byte>>, start: nat, pos: nat, status: Status) {
    if Goes(status) then Scanning(bytes, boundary, start, pos, status)
    else start <= pos <= |bytes| && TextStop(bytes, start, boundary) == Stop(status, pos - start)
  }

  lemma ReadingStarts(bytes: seq<byte>, boundary: Option<seq<byte>>, start: nat)
    requires start <= |bytes|
    ensures Reading(bytes, boundary, start, start, Pending)
  {}

  lemma ReadingNext(bytes: seq<byte>, boundary: Option<seq<byte>>, start: nat, pos: nat, status: Status)
    requires Reading(bytes, boundary, start, pos, status) && Goes(status)
    ensures pos <= |bytes| && !Goes(Error)
    ensures match LineAt(bytes, pos, boundary)
            case None => Reading(bytes, boundary, start, pos, Error)
            case Some(r) => Reading(bytes, boundary, start, pos + r.len, r.status)
  {
    hide FindBorder, LineAt;
    ScanningNext(bytes, boundary, start, pos, status);
  }

  lemma ReadingEnds(bytes: seq<byte>, boundary: Option<seq<byte>>, start: nat, pos: nat, status: Status)
    requires Reading(bytes, boundary, start, pos, status) && !Goes(status)
    ensures start <= pos <= |bytes| && TextStop(bytes, start, boundary) == Stop(status, pos - start)
  {}

  method ReadText(file: File, boundary: Option<seq<byte>>) returns (status: Status)
    requires file.pos <= |file.bytes|
    modifies file`pos
    ensures var r := TextStop(file.bytes, old(file.pos), boundary);
            status == r.status && file.pos == old(file.pos) + r.len <= |file.bytes|
  {
    var start := file.pos;
    status := Pending;
    hide *;
    ReadingStarts(file.bytes, boundary, start);
    while Goes(status)
      invariant start <= file.pos <= |file.bytes|
      invariant Reading(file.bytes, boundary, start, file.pos, status)
      decreases |file.bytes| - file.pos, Goes(status)
    {
      ReadingNext(file.bytes, boundary, start, file.pos, status);
      var next := ReadLine(file, boundary);
      status := if next == None then Error else next.value;
    }
    ReadingEnds(file.bytes, boundary, start, file.pos, status);
  }
}
