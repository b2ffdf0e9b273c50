/** Reading the header of a message or part. */
module Headers {
  import opened Bytes
  import opened MailFile
  import opened Mailbox

  /** Where a scan by lines stands. */
  datatype Status = Blank | Pending | Error | Found

  /** Length of the header of s, its blank line included; -1 when there is no blank line. */
  function HeaderLength(s: seq<byte>): (h: int)
    ensures -1 <= h <= |s|
    decreases |s|
  {
    if s == [] then -1 else
    var n := LineLength(s);
    if s[0] == NL then n else
    var h := HeaderLength(s[n..]);
    if h < 0 then -1 else n + h
  }

  lemma HeaderNotEmpty(s: seq<byte>)
    ensures HeaderLength(s) != 0
  {}

  ghost predicate HeaderAt(bytes: seq<byte>, start: nat, pos: nat) {
    start <= pos <= |bytes| &&
    var h := HeaderLength(bytes[pos..]);
    HeaderLength(bytes[start..]) == if h < 0 then -1 else pos - start + h
  }

  lemma HeaderPrepend(line: seq<byte>, rest: seq<byte>)
    requires IsLine(line, rest)
    ensures HeaderLength(line + rest) ==
            if line[0] == NL then |line| else if HeaderLength(rest) < 0 then -1 else |line| + HeaderLength(rest)
  {
    LineLengthPrefix(line, rest);
    assert (line + rest)[|line|..] == rest;
  }

  lemma HeaderLine(bytes: seq<byte>, start: nat, pos: nat)
    requires HeaderAt(bytes, start, pos)
    ensures var line := LineOf(bytes[pos..]);
            && (line == [] ==> HeaderLength(bytes[start..]) < 0)
            && (line != [] && line[0] == NL ==> HeaderLength(bytes[start..]) == pos + |line| - start)
            && (line != [] && line[0] != NL ==> HeaderAt(bytes, start, pos + |line|))
  {
    hide LineLength;
    if pos < |bytes| {
      Cut(bytes, pos);
      HeaderPrepend(LineOf(bytes[pos..]), bytes[pos + |LineOf(bytes[pos..])|..]);
    }
  }

  /** Reading a header that begins at start has come to pos, the last line read having the given status. */
  ghost predicate InHeader(bytes: seq<byte>, start: nat, pos: nat, status: Status) {
    start <= pos <= |bytes| &&
    match status
    case Pending => HeaderAt(bytes, start, pos)
    case Blank => HeaderLength(bytes[start..]) == pos - start
    case _ => HeaderLength(bytes[start..]) < 0
  }

  lemma InHeaderNext(bytes: seq<byte>, start: nat, pos: nat)
    requires InHeader(bytes, start, pos, Pending)
    ensures pos <= |bytes|
    ensures var line := LineOf(bytes[pos..]);
            InHeader(bytes, start, pos + |line|, if line == [] then Error else if line[0] == NL then Blank else Pending)
  {
    HeaderLine(bytes, start, pos);
    hide LineOf, HeaderLength, HeaderAt;
  }

  lemma InHeaderEnds(bytes: seq<byte>, start: nat, pos: nat, status: Status)
    requires InHeader(bytes, start, pos, status) && status != Pending
    ensures start <= pos <= |bytes|
    ensures HeaderLength(bytes[start..]) == if status == Blank then pos - start else -1
  {}

  /** Reads a header; the fields in it, the date among them, are functions of its bytes. */
  method FillHeader(file: File) returns (ok: bool, header: seq<byte>)
    requires file.pos <= |file.bytes|
    modifies file`pos
    ensures old(file.pos) <= file.pos <= |file.bytes|
    ensures ok <==> HeaderLength(file.bytes[old(file.pos)..]) >= 0
    ensures ok ==> file.pos == old(file.pos) + HeaderLength(file.bytes[old(file.pos)..])
    ensures ok ==> header == file.bytes[old(file.pos)..][..HeaderLength(file.bytes[old(file.pos)..])]
  {
    var start := file.pos;
    assert InHeader(file.bytes, start, start, Pending);
    hide *;
    var status := Pending;
    while status == Pending
      invariant start <= file.pos <= |file.bytes|
      invariant InHeader(file.bytes, start, file.pos, status)
      decreases |file.bytes| - file.pos, status == Pending
    {
      InHeaderNext(file.bytes, start, file.pos);
      var line := GetLine(file);
      if line == [] {
        status := Error;
      } else if line[0] == NL {
        status := Blank;
      }
    }
    InHeaderEnds(file.bytes, start, file.pos, status);
    ok := status == Blank;
    header := file.bytes[start..][..file.pos - start];
  }

  lemma {:induction false} HeaderLengthPrefix(x: seq<byte>, y: seq<byte>)
    requires Complete(x) && HeaderLength(x) >= 0
    ensures HeaderLength(x + y) == HeaderLength(x)
    decreases |x|
  {
    if x != [] {
      var line, rest := LineOf(x), x[LineLength(x)..];
      FirstLine(x);
      LineEndsComplete(x);
      assert x == line + rest && x + y == line + (rest + y);
      HeaderPrepend(line, rest);
      HeaderPrepend(line, rest + y);
      if x[0] != NL { HeaderLengthPrefix(rest, y); }
    }
  }

  /** A blank line ends at k: a newline at the beginning or behind another one. */
  predicate BlankEnds(s: seq<byte>, k: int) {
    1 <= k <= |s| && s[k - 1] == 10 && (k == 1 || s[k - 2] == 10)
  }

  lemma BlankEndsLater(s: seq<byte>, n: nat, k: int)
    requires s != [] && n == LineLength(s) && s[0] != NL
    ensures BlankEnds(s, k) <==> k > n && BlankEnds(s[n..], k - n)
  {
    LineShape(s);
    LineStart(s);
    if n < k <= |s| {
      assert s[n..][k - n - 1] == s[k - 1];
      assert k > n + 1 ==> s[n..][k - n - 2] == s[k - 2];
    }
  }

  lemma LineStart(s: seq<byte>)
    requires s != [] && s[0] != NL
    ensures LineLength(s) == 1 ==> |s| == 1
    ensures LineLength(s) == |s| && s[|s| - 1] == NL ==> |s| > 1 && s[|s| - 2] != NL
  {
    LineShape(s);
  }

  /** The header goes up to the end of the first blank line, and there is none without such a line. */
  lemma {:induction false} HeaderEndsBlank(s: seq<byte>)
    ensures var h := HeaderLength(s);
            && (h < 0 ==> forall k :: !BlankEnds(s, k))
            && (h >= 0 ==> BlankEnds(s, h) && forall k :: k < h ==> !BlankEnds(s, k))
    decreases |s|
  {
    if s != [] && s[0] != NL {
      var n := LineLength(s);
      HeaderEndsBlank(s[n..]);
      forall k ensures BlankEnds(s, k) <==> k > n && BlankEnds(s[n..], k - n) { BlankEndsLater(s, n, k); }
    }
  }
}
