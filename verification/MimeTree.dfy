/** Multipart messages as trees, and the parts that the two walks find in their text. */
module MimeTree {
  import opened Bytes
  import opened Border
  import opened MailFile
  import opened Mailbox
  import opened MimeWalk
  import Headers
  import opened Sequences
  import opened Wrappers

  /** A part, with its header's blank line; a multipart has at least one part. */
  datatype Part =
    | Leaf(header: seq<byte>, body: seq<byte>)
    | Multi(header: seq<byte>, boundary: seq<byte>, preamble: seq<byte>, parts: Parts, epilogue: seq<byte>)

  datatype Parts = Last(part: Part) | More(part: Part, rest: Parts)

  /** Two dashes and the boundary, and two more dashes at the end of a multipart. */
  function BorderLine(b: seq<byte>, last: bool): seq<byte> {
    [45, 45] + b + (if last then [45, 45] else []) + [10]
  }

  function Text(t: Part): seq<byte>
    decreases t, 1
  {
    t.header + Body(t)
  }

  function Body(t: Part): seq<byte>
    decreases t, 0
  {
    match t
    case Leaf(_, body) => body
    case Multi(_, b, preamble, parts, epilogue) => preamble + BorderLine(b, false) + Series(parts, b) + epilogue
  }

  function Series(ts: Parts, b: seq<byte>): seq<byte>
    decreases ts, 0
  {
    Text(ts.part) + BorderLine(b, ts.Last?) + if ts.Last? then [] else Series(ts.rest, b)
  }

  /** A part and the offset of its body. */
  datatype Place = Place(pos: nat, part: Part)

  /** The parts below a part whose body is at pos, each before the parts below it, with their places. */
  function Below(t: Part, pos: nat): seq<Place>
    decreases t, 0
  {
    if t.Leaf? then [] else Listed(t.parts, t.boundary, pos + |t.preamble + BorderLine(t.boundary, false)|)
  }

  /** The parts of a series at pos, and those below them. */
  function Listed(ts: Parts, b: seq<byte>, pos: nat): seq<Place>
    decreases ts, 0
  {
    var body := pos + |ts.part.header|;
    [Place(body, ts.part)] + Below(ts.part, body)
    + if ts.Last? then [] else Listed(ts.rest, b, body + |Body(ts.part)| + |BorderLine(b, false)|)
  }

  /** A line, up to any NUL in it, that is no border of b and does not begin with From and a space. */
  predicate NoBorder(line: seq<byte>, b: seq<byte>) {
    && !([70, 114, 111, 109, 32] <= line)
    && !([45, 45] + b <= line && |line| > 2)
  }

  lemma NoBorderGoes(line: seq<byte>, b: seq<byte>)
    requires 0 !in line && NoBorder(line, b)
    ensures Goes(IsBoundary(line, Some(b)))
  {
    assert BorderOf(b, false) == [45, 45] + b;
  }

  /** Complete lines that are no borders of b and start no message. */
  predicate Quiet(x: seq<byte>, b: seq<byte>)
    decreases |x|
  {
    x != [] ==> Complete(x) && NoBorder(CString(LineOf(x)), b) && Quiet(x[LineLength(x)..], b)
  }

  predicate IsHeader(x: seq<byte>) {
    Complete(x) && Headers.HeaderLength(x) == |x|
  }

  /** t can stand in a multipart with boundary b and type parent. */
  ghost predicate WellFormed(parse: seq<byte> -> Header, t: Part, b: seq<byte>, parent: ContType)
    decreases t, 1
  {
    && IsHeader(t.header)
    && var h := Typed(parse(t.header), parent);
       match t
       case Leaf(_, body) =>
         && (h.contType == TextPlain || h.contType == TextOther || h.contType == Image || h.contType == OtherType)
         && Quiet(body, b)
       case Multi(_, b', preamble, parts, epilogue) =>
         && (h.contType == Mixed || h.contType == Parallel || h.contType == Digest || h.contType == OtherMultipart)
         && h.boundary == Some(b') && WellFormedParts(parse, t, h.contType) && Quiet(epilogue, b)
  }

  ghost predicate WellFormedParts(parse: seq<byte> -> Header, t: Part, parent: ContType)
    requires t.Multi?
    decreases t, 0
  {
    NL !in t.boundary && 0 !in t.boundary && Quiet(t.preamble, t.boundary)
      && AllWellFormed(parse, t.parts, t.boundary, parent)
  }

  ghost predicate AllWellFormed(parse: seq<byte> -> Header, ts: Parts, b: seq<byte>, parent: ContType)
    decreases ts, 0
  {
    WellFormed(parse, ts.part, b, parent) && (ts.More? ==> AllWellFormed(parse, ts.rest, b, parent))
  }

  // ---------------------------------------------------------------- pieces of a file

  /** x stands at pos in s. */
  ghost predicate Has(s: seq<byte>, pos: nat, x: seq<byte>) {
    pos + |x| <= |s| && s[pos..pos + |x|] == x
  }

  lemma HasBoth(s: seq<byte>, pos: nat, x: seq<byte>, y: seq<byte>)
    requires Has(s, pos, x + y)
    ensures Has(s, pos, x) && Has(s, pos + |x|, y)
  {
    assert (x + y)[..|x|] == x && (x + y)[|x|..] == y;
  }

  lemma LineAtLine(s: seq<byte>, pos: nat, line: seq<byte>, b: Option<seq<byte>>)
    requires Has(s, pos, line) && line != [] && Complete(line) && LineLength(line) == |line|
    ensures LineAt(s, pos, b) == Some(Stop(IsBoundary(CString(line), b), |line|))
  {
    var rest := s[pos + |line|..];
    assert s[pos..] == line + rest;
    LineLengthPrefix(line, rest);
    hide IsBoundary, CString, LineLength;
    assert LineOf(s[pos..]) == line;
  }

  lemma QuietLine(x: seq<byte>, b: seq<byte>) returns (line: seq<byte>, rest: seq<byte>)
    requires Quiet(x, b) && x != []
    ensures x == line + rest && line != [] && Complete(line) && LineLength(line) == |line|
    ensures Goes(IsBoundary(CString(line), Some(b))) && Quiet(rest, b)
  {
    line, rest := LineOf(x), x[LineLength(x)..];
    FirstLine(x);
    LineEndsComplete(x);
    NoBorderGoes(CString(line), b);
    hide NoBorder, IsBoundary, CString, LineLength;
  }

  lemma {:induction false} QuietSkips(s: seq<byte>, pos: nat, x: seq<byte>, b: seq<byte>) returns (end: nat)
    requires Has(s, pos, x) && Quiet(x, b)
    ensures end == pos + |x| <= |s|
    ensures FindBorder(s, pos, Some(b)) == Shift(|x|, FindBorder(s, end, Some(b)))
    decreases |x|
  {
    hide *;
    HasRoom(s, pos, x);
    if x != [] {
      var line, rest := QuietLine(x, b);
      HasBoth(s, pos, line, rest);
      LineAtLine(s, pos, line, Some(b));
      HasRoom(s, pos, line);
      FindOn(s, pos, Some(b));
      end := QuietSkips(s, pos + |line|, rest, b);
      ShiftShift(|line|, |rest|, FindBorder(s, end, Some(b)));
      assert |line| + |rest| == |x|;
    } else {
      end := pos;
      ShiftNone(FindBorder(s, pos, Some(b)));
    }
  }

  lemma FindOn(s: seq<byte>, pos: nat, b: Option<seq<byte>>)
    requires pos <= |s| && LineAt(s, pos, b).Some? && Goes(LineAt(s, pos, b).value.status)
    ensures var n := LineAt(s, pos, b).value.len; FindBorder(s, pos, b) == Shift(n, FindBorder(s, pos + n, b))
  {
    hide LineAt;
  }

  lemma ShiftShift(m: nat, n: nat, r: Option<Stop>)
    ensures Shift(m, Shift(n, r)) == Shift(m + n, r)
  {}

  lemma ShiftNone(r: Option<Stop>)
    ensures Shift(0, r) == r
  {}

  lemma HasRoom(s: seq<byte>, pos: nat, x: seq<byte>)
    requires Has(s, pos, x)
    ensures pos + |x| <= |s|
  {}

  /** The status of a border line. */
  function EndOf(last: bool): Status {
    if last then Done else Found
  }

  lemma BorderAt(s: seq<byte>, pos: nat, b: seq<byte>, last: bool)
    requires Has(s, pos, BorderLine(b, last)) && NL !in b && 0 !in b
    ensures FindBorder(s, pos, Some(b)) == Some(Stop(EndOf(last), |BorderLine(b, last)|))
  {
    var line := BorderLine(b, last);
    BorderIsLine(b, last, []);
    assert line == BorderOf(b, last) + [NL];
    hide IsBoundary, LineLength, BorderOf, LineAt;
    LineAtLine(s, pos, line, Some(b));
  }

  /** The next border is the one after quiet lines. */
  lemma BorderAfter(s: seq<byte>, pos: nat, x: seq<byte>, b: seq<byte>, last: bool)
    requires Has(s, pos, x + BorderLine(b, last)) && Quiet(x, b) && NL !in b && 0 !in b
    ensures FindBorder(s, pos, Some(b)) == Some(Stop(EndOf(last), |x| + |BorderLine(b, last)|))
  {
    hide *;
    HasBoth(s, pos, x, BorderLine(b, last));
    var end := QuietSkips(s, pos, x, b);
    BorderAt(s, end, b, last);
    ShiftSome(|x|, Stop(EndOf(last), |BorderLine(b, last)|));
  }

  lemma ShiftSome(n: nat, r: Stop)
    ensures Shift(n, Some(r)) == Some(Stop(r.status, n + r.len))
  {}

  lemma HeaderAt(parse: seq<byte> -> Header, s: seq<byte>, pos: nat, header: seq<byte>)
    requires Has(s, pos, header) && IsHeader(header)
    ensures pos + |header| <= |s| && NextHeader(parse, s, pos) == Some((parse(header), pos + |header|))
  {
    var rest := s[pos + |header|..];
    assert s[pos..] == header + rest;
    Headers.HeaderLengthPrefix(header, rest);
    hide Headers.HeaderLength;
    assert s[pos..][..|header|] == header;
  }

  // ---------------------------------------------------------------- the walks over a tree

  /** The visit v came to the body of the part, at the place p. */
  ghost predicate Placed(parse: seq<byte> -> Header, s: seq<byte>, v: Visit, p: Place) {
    var t := p.part;
    && v.pos == p.pos && Has(s, v.pos, Body(t))
    && v.header == if parse(t.header).contType != NoType then parse(t.header)
                   else parse(t.header).(contType := TextPlain)
  }

  ghost predicate AllPlaced(parse: seq<byte> -> Header, s: seq<byte>, visits: seq<Visit>, ts: seq<Place>) {
    |visits| == |ts| && forall i :: 0 <= i < |ts| ==> Placed(parse, s, visits[i], ts[i])
  }

  lemma PlacedAfter(parse: seq<byte> -> Header, s: seq<byte>, vs: seq<Visit>, vs': seq<Visit>, ts: seq<Place>,
                    ts': seq<Place>)
    requires AllPlaced(parse, s, vs, ts) && AllPlaced(parse, s, vs', ts')
    ensures AllPlaced(parse, s, vs + vs', ts + ts')
  {
    hide Placed;
  }

  /** The walk w ended at pos, having met the parts ts. */
  ghost predicate Met(parse: seq<byte> -> Header, s: seq<byte>, w: Option<Walk>, status: Status, pos: nat, num: nat,
                      ts: seq<Place>) {
    && w.Some? && w.value.status == status && w.value.pos == pos && w.value.num == num + |ts|
    && AllPlaced(parse, s, w.value.visits, ts)
  }

  lemma LeafIs(parse: seq<byte> -> Header, t: Part, b: seq<byte>, parent: ContType)
    requires WellFormed(parse, t, b, parent) && t.Leaf?
    ensures var h := Typed(parse(t.header), parent); !IsMulti(h.contType) && !Differs(h.contType) && Quiet(t.body, b)
    ensures Body(t) == t.body && forall pos: nat :: Below(t, pos) == []
  {
    hide Quiet, Typed, IsHeader;
  }

  lemma MultiIs(parse: seq<byte> -> Header, t: Part, b: seq<byte>, parent: ContType)
    requires WellFormed(parse, t, b, parent) && t.Multi?
    ensures var h := Typed(parse(t.header), parent);
            && IsMulti(h.contType) && h.boundary == Some(t.boundary) && NL !in t.boundary && 0 !in t.boundary
            && Quiet(t.preamble, t.boundary) && AllWellFormed(parse, t.parts, t.boundary, h.contType)
            && Quiet(t.epilogue, b)
    ensures forall pos: nat ::
              Below(t, pos) == Listed(t.parts, t.boundary, pos + |t.preamble + BorderLine(t.boundary, false)|)
  {
    hide Quiet, Typed, IsHeader, AllWellFormed;
  }

  lemma PartsAre(parse: seq<byte> -> Header, ts: Parts, b: seq<byte>, parent: ContType)
    requires AllWellFormed(parse, ts, b, parent)
    ensures IsHeader(ts.part.header) && WellFormed(parse, ts.part, b, parent)
    ensures ts.More? ==> AllWellFormed(parse, ts.rest, b, parent)
    ensures ts.More? ==> RestOf(ts, b) == Series(ts.rest, b)
    ensures ts.Last? ==> RestOf(ts, b) == []
    ensures parse(ts.part.header).contType == NoType ==> parent != Digest
  {
    hide Quiet, IsHeader;
  }

  /** A leaf is left at its border. */
  lemma ViewLeaf(parse: seq<byte> -> Header, s: seq<byte>, pos: nat, num: nat, h: Header, b: Option<seq<byte>>, r: Stop)
    requires pos <= |s| && !IsMulti(h.contType) && !Differs(h.contType) && b.Some? && FindBorder(s, pos, b) == Some(r)
    ensures Met(parse, s, View(parse, s, pos, num, h, b), r.status, pos + r.len, num, [])
  {
    hide FindBorder, Placed;
  }

  /** A multipart's walk from its parts on. */
  lemma ViewMulti(parse: seq<byte> -> Header, s: seq<byte>, pos: nat, num: nat, h: Header, b: Option<seq<byte>>,
                  n: nat, pos': nat, ts: seq<Place>, r: Stop)
    requires pos <= |s| && IsMulti(h.contType) && h.boundary.Some?
             && FindBorder(s, pos, h.boundary) == Some(Stop(EndOf(false), n))
    requires Met(parse, s, ViewParts(parse, s, pos + n, num, h), Done, pos', num, ts)
    requires b.Some? ==> pos' <= |s| && FindBorder(s, pos', b) == Some(r)
    requires b.None? ==> r == Stop(Done, 0)
    ensures Met(parse, s, View(parse, s, pos, num, h, b), r.status, pos' + r.len, num, ts)
  {
    hide FindBorder, ViewParts, AllPlaced;
  }

  /** The pieces of a multipart, with the border after it. */
  lemma MultiPieces(s: seq<byte>, pos: nat, t: Part, line: seq<byte>)
    returns (first: seq<byte>, start: nat, last: seq<byte>, end: nat)
    requires t.Multi? && Has(s, pos, Body(t) + line)
    ensures first == t.preamble + BorderLine(t.boundary, false) && last == t.epilogue + line
    ensures Has(s, pos, first) && start == pos + |first|
    ensures Has(s, start, Series(t.parts, t.boundary)) && end == start + |Series(t.parts, t.boundary)|
    ensures Has(s, end, last) && pos <= start <= end && end + |last| == pos + |Body(t)| + |line| <= |s|
  {
    first, last := t.preamble + BorderLine(t.boundary, false), t.epilogue + line;
    var series := Series(t.parts, t.boundary);
    assert Body(t) + line == first + (series + last);
    hide BorderLine, Series, Has;
    HasRoom(s, pos, Body(t) + line);
    HasBoth(s, pos, first, series + last);
    start := pos + |first|;
    HasBoth(s, start, series, last);
    end := start + |series|;
  }

  lemma {:induction false} ViewPart(parse: seq<byte> -> Header, s: seq<byte>, pos: nat, num: nat, t: Part, b: seq<byte>,
                                    parent: ContType, last: bool)
    returns (end: nat)
    requires WellFormed(parse, t, b, parent) && NL !in b && 0 !in b && Has(s, pos, Body(t) + BorderLine(b, last))
    ensures pos <= end == pos + |Body(t)| + |BorderLine(b, last)| <= |s|
    ensures var w := View(parse, s, pos, num, Typed(parse(t.header), parent), Some(b));
            Met(parse, s, w, EndOf(last), end, num, Below(t, pos))
    decreases t, 1
  {
    hide *;
    var h := Typed(parse(t.header), parent);
    end := pos + |Body(t)| + |BorderLine(b, last)|;
    if t.Leaf? {
      LeafIs(parse, t, b, parent);
      HasRoom(s, pos, Body(t) + BorderLine(b, last));
      BorderAfter(s, pos, t.body, b, last);
      ViewLeaf(parse, s, pos, num, h, Some(b), Stop(EndOf(last), |t.body| + |BorderLine(b, last)|));
    } else {
      MultiIs(parse, t, b, parent);
      var first, start, line, end' := MultiPieces(s, pos, t, BorderLine(b, last));
      BorderAfter(s, pos, t.preamble, t.boundary, false);
      var stop := ViewSeries(parse, s, start, num, t.parts, t.boundary, h);
      assert stop == end';
      BorderAfter(s, stop, t.epilogue, b, last);
      ViewMulti(parse, s, pos, num, h, Some(b), |first|, stop, Below(t, pos), Stop(EndOf(last), |line|));
      assert stop + |line| == end;
    }
  }

  /** The text of the parts after the first. */
  function RestOf(ts: Parts, b: seq<byte>): seq<byte> {
    if ts.Last? then [] else Series(ts.rest, b)
  }

  lemma SeriesText(ts: Parts, b: seq<byte>)
    ensures var t, line := ts.part, BorderLine(b, ts.Last?);
            && Series(ts, b) == t.header + (Body(t) + line + RestOf(ts, b))
            && |Series(ts, b)| == |t.header| + |Body(t)| + |line| + |RestOf(ts, b)|
  {
    var t, line := ts.part, BorderLine(b, ts.Last?);
    assert Series(ts, b) == t.header + Body(t) + line + RestOf(ts, b);
    hide *;
    Regroup(t.header, Body(t), line, RestOf(ts, b));
  }

  /** The pieces of a series: where its first part's walk begins, and where that ends. */
  lemma SeriesBegins(parse: seq<byte> -> Header, s: seq<byte>, pos: nat, ts: Parts, b: seq<byte>)
    returns (begin: nat, end: nat)
    requires IsHeader(ts.part.header) && Has(s, pos, Series(ts, b))
    ensures pos <= begin == pos + |ts.part.header| && NextHeader(parse, s, pos) == Some((parse(ts.part.header), begin))
    ensures Has(s, begin, Body(ts.part)) && Has(s, begin, Body(ts.part) + BorderLine(b, ts.Last?))
            && Has(s, end, RestOf(ts, b))
    ensures end == begin + |Body(ts.part)| + |BorderLine(b, ts.Last?)|
    ensures begin <= end && end + |RestOf(ts, b)| == pos + |Series(ts, b)| <= |s|
  {
    hide *;
    var t := ts.part;
    var body, line := Body(t), BorderLine(b, ts.Last?);
    begin := pos + |t.header|;
    SeriesText(ts, b);
    HasRoom(s, pos, Series(ts, b));
    HasBoth(s, pos, t.header, body + line + RestOf(ts, b));
    HeaderAt(parse, s, pos, t.header);
    HasBoth(s, begin, body + line, RestOf(ts, b));
    HasBoth(s, begin, body, line);
    end := begin + |body + line|;
  }

  /** The walk over the first part of a series. */
  lemma FirstMet(parse: seq<byte> -> Header, s: seq<byte>, pos: nat, num: nat, h: Header, t: Part, pos': nat, w: Walk)
    returns (visit: Visit)
    requires pos <= |s| && NextHeader(parse, s, pos) == Some((parse(t.header), pos')) && Has(s, pos', Body(t))
    requires View(parse, s, pos', num + 1, Typed(parse(t.header), h.contType), h.boundary) == Some(w)
    requires parse(t.header).contType == NoType ==> h.contType != Digest
    ensures AllPlaced(parse, s, [visit], [Place(pos', t)])
    ensures w.status == Done ==> ViewParts(parse, s, pos, num, h) == Some(w.(visits := [visit] + w.visits))
    ensures w.status == Found ==>
              var rest := ViewParts(parse, s, w.pos, w.num, h);
              ViewParts(parse, s, pos, num, h) == if rest.None? then None else Some(Joined(visit, w, rest.value))
  {
    hide View, NextHeader, Body, Has;
    visit := Visit(num + 1, pos', Typed(parse(t.header), h.contType), h.boundary);
  }

  /** One part met, the last one. */
  lemma LastMet(parse: seq<byte> -> Header, s: seq<byte>, num: nat, t: Place, visit: Visit, w: Walk, below: seq<Place>)
    requires AllPlaced(parse, s, [visit], [t]) && Met(parse, s, Some(w), Done, w.pos, num + 1, below)
    ensures Met(parse, s, Some(w.(visits := [visit] + w.visits)), Done, w.pos, num, [t] + below)
  {
    hide AllPlaced;
    PlacedAfter(parse, s, [visit], w.visits, [t], below);
  }

  /** One part met, and the parts after it. */
  lemma MoreMet(parse: seq<byte> -> Header, s: seq<byte>, num: nat, t: Place, visit: Visit, w: Walk, rest: Walk,
                end: nat, below: seq<Place>, later: seq<Place>)
    requires AllPlaced(parse, s, [visit], [t]) && Met(parse, s, Some(w), Found, w.pos, num + 1, below)
    requires Met(parse, s, Some(rest), Done, end, w.num, later)
    ensures Met(parse, s, Some(Joined(visit, w, rest)), Done, end, num, [t] + below + later)
  {
    hide AllPlaced;
    PlacedAfter(parse, s, [visit], w.visits, [t], below);
    PlacedAfter(parse, s, [visit] + w.visits, rest.visits, [t] + below, later);
  }

  lemma MetIs(parse: seq<byte> -> Header, s: seq<byte>, w: Option<Walk>, status: Status, pos: nat, num: nat,
              ts: seq<Place>)
    requires Met(parse, s, w, status, pos, num, ts)
    ensures w.Some? && w.value.status == status && w.value.pos == pos && w.value.num == num + |ts|
  {
    hide AllPlaced;
  }

  lemma {:induction false} ViewFirst(parse: seq<byte> -> Header, s: seq<byte>, pos: nat, num: nat, ts: Parts,
                                     b: seq<byte>, h: Header)
    returns (body: nat, end: nat, w: Walk, visit: Visit)
    requires AllWellFormed(parse, ts, b, h.contType) && NL !in b && 0 !in b && h.boundary == Some(b)
             && Has(s, pos, Series(ts, b))
    ensures pos <= end == w.pos && Has(s, end, RestOf(ts, b)) && end + |RestOf(ts, b)| == pos + |Series(ts, b)| <= |s|
    ensures body == pos + |ts.part.header| && end == body + |Body(ts.part)| + |BorderLine(b, ts.Last?)|
    ensures AllPlaced(parse, s, [visit], [Place(body, ts.part)])
    ensures Met(parse, s, Some(w), if ts.Last? then Done else Found, end, num + 1, Below(ts.part, body))
    ensures ts.Last? ==> ViewParts(parse, s, pos, num, h) == Some(w.(visits := [visit] + w.visits))
    ensures ts.More? ==>
              var rest := ViewParts(parse, s, end, w.num, h);
              ViewParts(parse, s, pos, num, h) == if rest.None? then None else Some(Joined(visit, w, rest.value))
    decreases ts, 0
  {
    var t := ts.part;
    PartsAre(parse, ts, b, h.contType);
    assert EndOf(ts.Last?) == if ts.Last? then Done else Found;
    hide *;
    var stop;
    body, stop := SeriesBegins(parse, s, pos, ts, b);
    end := ViewPart(parse, s, body, num + 1, t, b, h.contType, ts.Last?);
    assert end == stop;
    var r := View(parse, s, body, num + 1, Typed(parse(t.header), h.contType), Some(b));
    MetIs(parse, s, r, EndOf(ts.Last?), end, num + 1, Below(t, body));
    w := r.value;
    visit := FirstMet(parse, s, pos, num, h, t, body, w);
  }

  lemma {:induction false} ViewSeries(parse: seq<byte> -> Header, s: seq<byte>, pos: nat, num: nat, ts: Parts,
                                      b: seq<byte>, h: Header)
    returns (end: nat)
    requires AllWellFormed(parse, ts, b, h.contType) && NL !in b && 0 !in b && h.boundary == Some(b)
             && Has(s, pos, Series(ts, b))
    ensures pos <= end == pos + |Series(ts, b)| <= |s|
    ensures Met(parse, s, ViewParts(parse, s, pos, num, h), Done, end, num, Listed(ts, b, pos))
    decreases ts, 1
  {
    hide *;
    var body, w, visit;
    PartsAre(parse, ts, b, h.contType);
    body, end, w, visit := ViewFirst(parse, s, pos, num, ts, b, h);
    var place, below := Place(body, ts.part), Below(ts.part, body);
    ListedIs(ts, b, pos);
    if ts.Last? {
      LastMet(parse, s, num, place, visit, w, below);
    } else {
      end := ViewSeries(parse, s, w.pos, w.num, ts.rest, b, h);
      var rest := ViewParts(parse, s, w.pos, w.num, h);
      var later := Listed(ts.rest, b, w.pos);
      MetIs(parse, s, rest, Done, end, w.num, later);
      MoreMet(parse, s, num, place, visit, w, rest.value, end, below, later);
    }
  }

  lemma ListedIs(ts: Parts, b: seq<byte>, pos: nat)
    ensures var body := pos + |ts.part.header|;
            var here := [Place(body, ts.part)] + Below(ts.part, body);
            Listed(ts, b, pos)
            == if ts.Last? then here else here + Listed(ts.rest, b, body + |Body(ts.part)| + |BorderLine(b, ts.Last?)|)
  {
    hide Below, Body;
  }

  /** t can be a whole message: a multipart. */
  ghost predicate IsMessage(parse: seq<byte> -> Header, t: Part) {
    && t.Multi? && IsHeader(t.header)
    && var h := parse(t.header);
       && (h.contType == Mixed || h.contType == Parallel || h.contType == Digest || h.contType == OtherMultipart)
       && h.boundary == Some(t.boundary) && WellFormedParts(parse, t, h.contType)
  }

  /** The viewer's walk over a message in a file meets its parts in order. */
  lemma MessageIsViewed(parse: seq<byte> -> Header, s: seq<byte>, start: nat, t: Part) returns (pos: nat, end: nat)
    requires IsMessage(parse, t) && Has(s, start, Text(t))
    ensures pos == start + |t.header| <= |s| && NextHeader(parse, s, start) == Some((parse(t.header), pos))
    ensures Met(parse, s, View(parse, s, pos, 1, parse(t.header), None), Done, end, 1, Below(t, pos))
  {
    hide *;
    var h := parse(t.header);
    pos := start + |t.header|;
    TextHas(s, start, t);
    MessageIs(parse, t);
    HeaderAt(parse, s, start, t.header);
    var first, begin, line, end' := MultiPieces(s, pos, t, []);
    BorderAfter(s, pos, t.preamble, t.boundary, false);
    end := ViewSeries(parse, s, begin, 1, t.parts, t.boundary, h);
    ViewMulti(parse, s, pos, 1, h, None, |first|, end, Below(t, pos), Stop(Done, 0));
  }

  lemma TextHas(s: seq<byte>, start: nat, t: Part)
    requires Has(s, start, Text(t))
    ensures Has(s, start, t.header) && Has(s, start + |t.header|, Body(t) + [])
  {
    hide Body;
    HasBoth(s, start, t.header, Body(t));
    assert Body(t) + [] == Body(t);
  }

  lemma MessageIs(parse: seq<byte> -> Header, t: Part)
    requires IsMessage(parse, t)
    ensures var h := parse(t.header);
            && t.Multi? && IsHeader(t.header) && IsMulti(h.contType) && h.boundary == Some(t.boundary)
            && NL !in t.boundary && 0 !in t.boundary && Quiet(t.preamble, t.boundary)
            && AllWellFormed(parse, t.parts, t.boundary, h.contType)
            && forall pos: nat ::
                 Below(t, pos) == Listed(t.parts, t.boundary, pos + |t.preamble + BorderLine(t.boundary, false)|)
  {
    hide Quiet, IsHeader, AllWellFormed;
  }

  /**
    In a file that holds a well-formed message, the finder told to look for part p stops at the
    offset of the body of the p-th part of the tree, counted in order with the message itself as the
    first, and there the viewer gives out the number p. For other numbers above 1 no part is found.
   */
  lemma LinkLeadsToPart(parse: seq<byte> -> Header, s: seq<byte>, start: nat, t: Part, p: int) returns (pos: nat)
    requires IsMessage(parse, t) && Has(s, start, Text(t)) && p > 1
    ensures pos == start + |t.header| <= |s|
    ensures var h := parse(t.header);
            var w, f := View(parse, s, pos, 1, h, None), Find(parse, s, pos, 1, h, h.boundary, p);
            var places := Below(t, pos);
            && w.Some? && |w.value.visits| == |places|
            && (p - 2 < |places| ==>
                  && f == Some(At(w.value.visits[p - 2])) && f.value.visit.num == p
                  && f.value.visit.pos == places[p - 2].pos && Placed(parse, s, f.value.visit, places[p - 2]))
            && (p - 2 >= |places| ==> f.None? || f.value.Past?)
  {
    var end;
    var h := parse(t.header);
    pos, end := MessageIsViewed(parse, s, start, t);
    MessageIs(parse, t);
    assert Typed(h, Mixed) == h;
    hide View, Find, NextHeader, IsMessage, Below, Placed, Has, Text;
    LinksAreFound(parse, s, start, p);
  }
}
