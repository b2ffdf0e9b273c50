/**
  The two walks over a multipart message: the viewer, which numbers the parts for its links, and
  the finder, which looks for the part with a number. Both follow section 5.1 of RFC 2046.
 */
module MimeWalk {
  import opened Bytes
  import opened Border
  import opened MailFile
  import Headers
  import opened Wrappers

  datatype ContType =
    | NoType | TextPlain | TextOther | Image | OtherType
    | Mixed | Parallel | Digest | OtherMultipart | Alternative | Rfc822

  /** What the walks use of a header: image stands for the JPEG and GIF types. */
  datatype Header = Header(contType: ContType, boundary: Option<seq<byte>>, attachment: bool)

  /** The types whose parts both walks number one after the other. */
  predicate IsMulti(t: ContType) {
    t == Mixed || t == Parallel || t == Digest || t == OtherMultipart
  }

  /** The types that the two walks number differently. */
  predicate Differs(t: ContType) {
    t == Alternative || t == Rfc822
  }

  predicate IsText(h: Header) {
    (h.contType == TextPlain || h.contType == TextOther) && !h.attachment
  }

  /** A part without a type gets the default of the multipart it is in. */
  function Typed(h: Header, parent: ContType): (r: Header)
    ensures r.contType != NoType && r.boundary == h.boundary
  {
    if h.contType != NoType then h
    else h.(contType := if parent == Digest then Rfc822 else TextPlain)
  }

  /** The header at pos, and where it ends; none when the file ends inside it. */
  function NextHeader(parse: seq<byte> -> Header, s: seq<byte>, pos: nat): (r: Option<(Header, nat)>)
    requires pos <= |s|
    ensures r.Some? ==> pos < r.value.1 <= |s|
  {
    var n := Headers.HeaderLength(s[pos..]);
    Headers.HeaderNotEmpty(s[pos..]);
    if n < 0 then None else Some((parse(s[pos..][..n]), pos + n))
  }

  /** A part as a walk meets it: its number, where its body begins, its header, and the boundary around it. */
  datatype Visit = Visit(num: nat, pos: nat, header: Header, boundary: Option<seq<byte>>)

  // ---------------------------------------------------------------- the viewer

  /** The end of a walk, its last part number, and the parts below the one it started with. */
  datatype Walk = Walk(status: Status, pos: nat, num: nat, visits: seq<Visit>)

  /**
    The viewer's walk over a part with header h whose body begins at pos. None stands for a walk
    that never ends, and for one that meets a part whose type Differs.
   */
  function View(parse: seq<byte> -> Header, s: seq<byte>, pos: nat, num: nat, h: Header,
                b: Option<seq<byte>>): (r: Option<Walk>)
    requires pos <= |s|
    ensures r.Some? ==> pos <= r.value.pos <= |s|
    decreases |s| - pos, 2
  {
    if IsMulti(h.contType) then ViewMultipart(parse, s, pos, num, h, b)
    else if Differs(h.contType) then None
    else if IsText(h) then
      var r := TextStop(s, pos, b);
      Some(Walk(r.status, pos + r.len, num, []))
    else if b.None? then Some(Walk(Error, pos, num, []))
    else
      match FindBorder(s, pos, b)
      case None => None
      case Some(r) => Some(Walk(r.status, pos + r.len, num, []))
  }

  function ViewMultipart(parse: seq<byte> -> Header, s: seq<byte>, pos: nat, num: nat, h: Header,
                         b: Option<seq<byte>>): (r: Option<Walk>)
    requires pos <= |s|
    ensures r.Some? ==> pos <= r.value.pos <= |s|
    decreases |s| - pos, 1
  {
    if h.boundary.None? then Some(Walk(Error, pos, num, [])) else
    match FindBorder(s, pos, h.boundary)
    case None => None
    case Some(r) =>
      if r.status == Error || r.status == Done then Some(Walk(r.status, pos + r.len, num, [])) else
      match ViewParts(parse, s, pos + r.len, num, h)
      case None => None
      case Some(w) => Leave(s, w, b)
  }

  /** After its parts a multipart runs to the next border around it. */
  function Leave(s: seq<byte>, w: Walk, b: Option<seq<byte>>): (r: Option<Walk>)
    requires w.pos <= |s|
    ensures r.Some? ==> w.pos <= r.value.pos <= |s|
  {
    if w.status == Error || b.None? then Some(w) else
    match FindBorder(s, w.pos, b)
    case None => None
    case Some(r) => Some(w.(status := r.status, pos := w.pos + r.len))
  }

  /** The walk over a part, and when it is not the last one the walk over the rest. */
  function Joined(visit: Visit, w: Walk, rest: Walk): Walk {
    rest.(visits := [visit] + w.visits + rest.visits)
  }

  /** The parts of a multipart with header h, from the one whose header begins at pos. */
  function ViewParts(parse: seq<byte> -> Header, s: seq<byte>, pos: nat, num: nat, h: Header): (r: Option<Walk>)
    requires pos <= |s|
    ensures r.Some? ==> pos <= r.value.pos <= |s|
    decreases |s| - pos, 0
  {
    match NextHeader(parse, s, pos)
    case None => None
    case Some((next, pos')) =>
      var part := Typed(next, h.contType);
      var visit := Visit(num + 1, pos', part, h.boundary);
      match View(parse, s, pos', num + 1, part, h.boundary)
      case None => None
      case Some(w) =>
        if w.status != Pending && w.status != Found then Some(w.(visits := [visit] + w.visits)) else
        match ViewParts(parse, s, w.pos, w.num, h)
        case None => None
        case Some(rest) => Some(Joined(visit, w, rest))
  }

  // ---------------------------------------------------------------- the finder

  /** Either the part was reached, or the walk went past the part it started with. */
  datatype Search = At(visit: Visit) | Past(status: Status, pos: nat, num: nat)

  function Continue(status: Status): Status {
    if status == Found then Pending else status
  }

  /** The finder's search for part number p; None as for View. */
  function Find(parse: seq<byte> -> Header, s: seq<byte>, pos: nat, num: nat, h: Header, b: Option<seq<byte>>,
                p: int): (r: Option<Search>)
    requires pos <= |s|
    ensures r.Some? && r.value.Past? ==> pos <= r.value.pos <= |s|
    decreases |s| - pos, 2
  {
    if num >= p then Some(At(Visit(num, pos, h, b)))
    else if IsMulti(h.contType) then FindMultipart(parse, s, pos, num, h, b, p)
    else if Differs(h.contType) then None
    else if b.None? then Some(Past(Error, pos, num))
    else
      match FindBorder(s, pos, b)
      case None => None
      case Some(r) => Some(Past(Continue(r.status), pos + r.len, num))
  }

  function FindMultipart(parse: seq<byte> -> Header, s: seq<byte>, pos: nat, num: nat, h: Header, b: Option<seq<byte>>,
                         p: int): (r: Option<Search>)
    requires pos <= |s|
    ensures r.Some? && r.value.Past? ==> pos <= r.value.pos <= |s|
    decreases |s| - pos, 1
  {
    if h.boundary.None? then Some(Past(Error, pos, num)) else
    match FindBorder(s, pos, h.boundary)
    case None => None
    case Some(r) =>
      if r.status == Error || r.status == Done then Some(Past(r.status, pos + r.len, num)) else
      match FindParts(parse, s, pos + r.len, num, h, p)
      case None => None
      case Some(f) => FindLeave(s, f, b)
  }

  function FindLeave(s: seq<byte>, f: Search, b: Option<seq<byte>>): (r: Option<Search>)
    requires f.Past? ==> f.pos <= |s|
    ensures r.Some? && r.value.Past? ==> f.Past? && f.pos <= r.value.pos <= |s|
  {
    if f.At? || f.status != Done || b.None? then Some(f) else
    match FindBorder(s, f.pos, b)
    case None => None
    case Some(r) => Some(Past(Continue(r.status), f.pos + r.len, f.num))
  }

  function FindParts(parse: seq<byte> -> Header, s: seq<byte>, pos: nat, num: nat, h: Header,
                     p: int): (r: Option<Search>)
    requires pos <= |s|
    ensures r.Some? && r.value.Past? ==> pos <= r.value.pos <= |s|
    decreases |s| - pos, 0
  {
    match NextHeader(parse, s, pos)
    case None => None
    case Some((next, pos')) =>
      match Find(parse, s, pos', num + 1, Typed(next, h.contType), h.boundary, p)
      case Some(Past(Pending, pos'', num')) => FindParts(parse, s, pos'', num', h, p)
      case r => r
  }

  // ---------------------------------------------------------------- the two walks agree

  /** What the search for p > num finds, by the viewer's walk w from part num. */
  ghost predicate Agrees(w: Walk, num: nat, p: int, r: Option<Search>)
    requires num < p
  {
    && w.num == num + |w.visits|
    && (forall i :: 0 <= i < |w.visits| ==> w.visits[i].num == num + 1 + i)
    && (p <= w.num ==> r == Some(At(w.visits[p - num - 1])))
    && (p > w.num && w.status != Error ==> r == Some(Past(Continue(w.status), w.pos, w.num)))
    && (p > w.num && w.status == Error ==> r.None? || (r.value.Past? && r.value.status == Error))
  }

  lemma {:induction false} ViewAgrees(parse: seq<byte> -> Header, s: seq<byte>, pos: nat, num: nat, h: Header,
                                      b: Option<seq<byte>>, p: int)
    requires pos <= |s| && num < p && View(parse, s, pos, num, h, b).Some?
    ensures Agrees(View(parse, s, pos, num, h, b).value, num, p, Find(parse, s, pos, num, h, b, p))
    ensures View(parse, s, pos, num, h, b).value.status in {Done, Error, Found}
    decreases |s| - pos, 2
  {
    hide ViewMultipart, FindMultipart, FindBorder;
    if IsMulti(h.contType) {
      MultipartAgrees(parse, s, pos, num, h, b, p);
    } else if b.None? {
      NoBoundaryNoBorder(s, pos);
    }
  }

  lemma {:induction false} MultipartAgrees(parse: seq<byte> -> Header, s: seq<byte>, pos: nat, num: nat, h: Header,
                                           b: Option<seq<byte>>, p: int)
    requires pos <= |s| && num < p && ViewMultipart(parse, s, pos, num, h, b).Some?
    ensures Agrees(ViewMultipart(parse, s, pos, num, h, b).value, num, p, FindMultipart(parse, s, pos, num, h, b, p))
    ensures ViewMultipart(parse, s, pos, num, h, b).value.status in {Done, Error, Found}
    decreases |s| - pos, 1
  {
    hide *;
    if HasParts(s, pos, h) {
      var pos' := FirstPart(parse, s, pos, num, h, b, p);
      PartsAgree(parse, s, pos', num, h, p);
      LeaveAgrees(s, ViewParts(parse, s, pos', num, h).value, num, p, FindParts(parse, s, pos', num, h, p), b);
    } else {
      NoPartsAgree(parse, s, pos, num, h, b, p);
    }
  }

  /** A multipart in which a first border is found. */
  ghost predicate HasParts(s: seq<byte>, pos: nat, h: Header)
    requires pos <= |s|
  {
    h.boundary.Some? && FindBorder(s, pos, h.boundary).Some? && FindBorder(s, pos, h.boundary).value.status == Found
  }

  lemma FirstPart(parse: seq<byte> -> Header, s: seq<byte>, pos: nat, num: nat, h: Header, b: Option<seq<byte>>, p: int)
    returns (pos': nat)
    requires pos <= |s| && HasParts(s, pos, h)
    ensures pos < pos' <= |s|
    ensures var w := ViewParts(parse, s, pos', num, h);
            ViewMultipart(parse, s, pos, num, h, b) == if w.None? then None else Leave(s, w.value, b)
    ensures var f := FindParts(parse, s, pos', num, h, p);
            FindMultipart(parse, s, pos, num, h, b, p) == if f.None? then None else FindLeave(s, f.value, b)
  {
    hide FindBorder, ViewParts, FindParts, Leave, FindLeave;
    pos' := pos + FindBorder(s, pos, h.boundary).value.len;
  }

  lemma NoPartsAgree(parse: seq<byte> -> Header, s: seq<byte>, pos: nat, num: nat, h: Header, b: Option<seq<byte>>,
                     p: int)
    requires pos <= |s| && num < p && !HasParts(s, pos, h) && ViewMultipart(parse, s, pos, num, h, b).Some?
    ensures Agrees(ViewMultipart(parse, s, pos, num, h, b).value, num, p, FindMultipart(parse, s, pos, num, h, b, p))
    ensures ViewMultipart(parse, s, pos, num, h, b).value.status in {Done, Error, Found}
  {
    hide FindBorder, ViewParts, FindParts, Leave, FindLeave;
  }

  lemma LeaveAgrees(s: seq<byte>, w: Walk, num: nat, p: int, f: Option<Search>, b: Option<seq<byte>>)
    requires num < p && w.pos <= |s| && Agrees(w, num, p, f) && w.status in {Done, Error} && Leave(s, w, b).Some?
    requires f.Some? && f.value.Past? ==> f.value.pos <= |s|
    ensures Leave(s, w, b).value.status in {Done, Error, Found}
    ensures Agrees(Leave(s, w, b).value, num, p, if f.None? then None else FindLeave(s, f.value, b))
  {
    hide FindBorder;
  }

  /** One part of both walks over a series. */
  lemma PartUnfolds(parse: seq<byte> -> Header, s: seq<byte>, pos: nat, num: nat, h: Header, p: int)
    returns (visit: Visit, w: Walk)
    requires pos <= |s| && ViewParts(parse, s, pos, num, h).Some?
    ensures pos < visit.pos <= w.pos <= |s| && visit == Visit(num + 1, visit.pos, visit.header, h.boundary)
    ensures View(parse, s, visit.pos, num + 1, visit.header, h.boundary) == Some(w)
    ensures var all := ViewParts(parse, s, pos, num, h);
            if w.status == Found || w.status == Pending then
              var rest := ViewParts(parse, s, w.pos, w.num, h); rest.Some? && all == Some(Joined(visit, w, rest.value))
            else all == Some(w.(visits := [visit] + w.visits))
    ensures var f := Find(parse, s, visit.pos, num + 1, visit.header, h.boundary, p);
            FindParts(parse, s, pos, num, h, p)
            == if f.Some? && f.value.Past? && f.value.status == Pending then
                 FindParts(parse, s, f.value.pos, f.value.num, h, p)
               else f
  {
    hide View, Find, Joined;
    var (next, pos') := NextHeader(parse, s, pos).value;
    var part := Typed(next, h.contType);
    hide NextHeader, Typed;
    visit, w := Visit(num + 1, pos', part, h.boundary), View(parse, s, pos', num + 1, part, h.boundary).value;
  }

  lemma {:induction false} PartsAgree(parse: seq<byte> -> Header, s: seq<byte>, pos: nat, num: nat, h: Header, p: int)
    requires pos <= |s| && num < p && ViewParts(parse, s, pos, num, h).Some?
    ensures Agrees(ViewParts(parse, s, pos, num, h).value, num, p, FindParts(parse, s, pos, num, h, p))
    ensures ViewParts(parse, s, pos, num, h).value.status in {Done, Error}
    decreases |s| - pos, 0
  {
    hide View, ViewParts, Find, FindParts, Joined;
    var visit, w := PartUnfolds(parse, s, pos, num, h, p);
    var p' := if p > num + 1 then p else num + 2;
    ViewAgrees(parse, s, visit.pos, num + 1, visit.header, h.boundary, p');
    FindsItself(parse, s, visit.pos, num + 1, visit.header, h.boundary, p);
    var f := Find(parse, s, visit.pos, num + 1, visit.header, h.boundary, p');
    if w.status == Found || w.status == Pending {
      var p'' := if p > w.num then p else w.num + 1;
      PartsAgree(parse, s, w.pos, w.num, h, p'');
      var rest := ViewParts(parse, s, w.pos, w.num, h).value;
      JoinedAgrees(visit, num, w, rest, p, f, FindParts(parse, s, w.pos, w.num, h, p''));
      JoinedEnds(visit, w, rest);
    } else {
      LastAgrees(visit, num, w, p, f);
    }
  }

  lemma JoinedEnds(visit: Visit, w: Walk, rest: Walk)
    ensures Joined(visit, w, rest).status == rest.status
  {}

  lemma FindsItself(parse: seq<byte> -> Header, s: seq<byte>, pos: nat, num: nat, h: Header, b: Option<seq<byte>>,
                    p: int)
    requires pos <= |s|
    ensures p <= num ==> Find(parse, s, pos, num, h, b, p) == Some(At(Visit(num, pos, h, b)))
  {}

  lemma LastAgrees(visit: Visit, num: nat, w: Walk, p: int, f: Option<Search>)
    requires num < p && visit.num == num + 1 && Agrees(w, num + 1, if p > num + 1 then p else num + 2, f)
    ensures Agrees(w.(visits := [visit] + w.visits), num, p, if p == num + 1 then Some(At(visit)) else f)
  {}

  lemma JoinedAgrees(visit: Visit, num: nat, w: Walk, rest: Walk, p: int, f: Option<Search>, f': Option<Search>)
    requires num < p && visit.num == num + 1 && Agrees(w, num + 1, if p > num + 1 then p else num + 2, f)
    requires Agrees(rest, w.num, if p > w.num then p else w.num + 1, f')
    ensures Agrees(Joined(visit, w, rest), num, p,
                   if p == num + 1 then Some(At(visit)) else if p <= w.num then f else f')
  {
    var all := Joined(visit, w, rest);
    assert |all.visits| == 1 + |w.visits| + |rest.visits|;
    if p > num + 1 && p <= w.num {
      assert all.visits[p - num - 1] == w.visits[p - num - 2];
    } else if w.num < p <= rest.num {
      assert all.visits[p - num - 1] == rest.visits[p - w.num - 1];
    }
  }

  /**
    For every message on which the viewer's walk ends without meeting a part whose type Differs:
    the part that the viewer numbers p is where the finder stops when it looks for p, and the
    finder finds no part for a number that the viewer gave to none.
   */
  lemma LinksAreFound(parse: seq<byte> -> Header, s: seq<byte>, start: nat, p: int)
    requires start <= |s| && NextHeader(parse, s, start).Some? && p > 1
    requires var (h, pos) := NextHeader(parse, s, start).value; View(parse, s, pos, 1, Typed(h, Mixed), None).Some?
    ensures var (h, pos) := NextHeader(parse, s, start).value;
            var w := View(parse, s, pos, 1, Typed(h, Mixed), None).value;
            var f := Find(parse, s, pos, 1, h, h.boundary, p);
            && w.num == 1 + |w.visits|
            && (p <= w.num ==> w.visits[p - 2].num == p && f == Some(At(w.visits[p - 2])))
            && (p > w.num ==> f.None? || f.value.Past?)
  {
    var (h, pos) := NextHeader(parse, s, start).value;
    ViewAgrees(parse, s, pos, 1, Typed(h, Mixed), None, p);
    hide View;
    FindsBelow(parse, s, pos, 1, h, None, h.boundary, p);
  }

  /** What is found below a part does not depend on the boundary around it. */
  lemma FindsBelow(parse: seq<byte> -> Header, s: seq<byte>, pos: nat, num: nat, h: Header, b: Option<seq<byte>>,
                   b': Option<seq<byte>>, p: int)
    requires pos <= |s| && num < p
    ensures var f, f' := Find(parse, s, pos, num, h, b, p), Find(parse, s, pos, num, h, b', p);
            f == f' || ((f.None? || f.value.Past?) && (f'.None? || f'.value.Past?))
  {
    hide FindBorder, FindParts;
  }

  // ---------------------------------------------------------------- by the types' names

  /** The first part of a multipart of any of the four types is found as the next part. */
  lemma FirstPartIsFound(parse: seq<byte> -> Header, s: seq<byte>, pos: nat, num: nat, h: Header, b: Option<seq<byte>>,
                         start: nat)
    requires h.contType == Mixed || h.contType == Parallel || h.contType == Digest || h.contType == OtherMultipart
    requires pos <= start <= |s| && FindBorder(s, pos, h.boundary) == Some(Stop(Found, start - pos))
    requires NextHeader(parse, s, start).Some?
    ensures var (next, body) := NextHeader(parse, s, start).value;
            && Find(parse, s, pos, num, h, b, num + 1).Some?
            && Find(parse, s, pos, num, h, b, num + 1).value.At?
            && var v := Find(parse, s, pos, num, h, b, num + 1).value.visit;
               && v.num == num + 1 && v.pos == body && v.boundary == h.boundary
               && v.header.boundary == next.boundary && v.header.attachment == next.attachment
               && v.header.contType == if next.contType != NoType then next.contType
                                       else if h.contType == Digest then Rfc822 else TextPlain
  {
    if h.boundary.None? {
      NoBoundaryNoBorder(s, pos);
      assert false;
    }
    hide FindBorder, NextHeader;
    var (next, body) := NextHeader(parse, s, start).value;
    FindsItself(parse, s, body, num + 1, Typed(next, h.contType), h.boundary, num + 1);
    hide Find;
    assert FindParts(parse, s, start, num, h, num + 1)
        == Some(At(Visit(num + 1, body, Typed(next, h.contType), h.boundary)));
    MultiIsSearched(parse, s, pos, num, h, b, start);
  }

  lemma MultiIsSearched(parse: seq<byte> -> Header, s: seq<byte>, pos: nat, num: nat, h: Header, b: Option<seq<byte>>,
                        start: nat)
    requires h.contType == Mixed || h.contType == Parallel || h.contType == Digest || h.contType == OtherMultipart
    requires pos <= start <= |s| && FindBorder(s, pos, h.boundary) == Some(Stop(Found, start - pos))
    requires h.boundary.Some? && FindParts(parse, s, start, num, h, num + 1).Some?
    requires FindParts(parse, s, start, num, h, num + 1).value.At?
    ensures Find(parse, s, pos, num, h, b, num + 1) == FindParts(parse, s, start, num, h, num + 1)
  {
    hide FindBorder, FindParts;
  }

  /**
    A multipart of any of the four types, in which a first border is found: a walk that ends has met
    its first part, numbered next, and that is where the finder stops for this number.
   */
  lemma FirstPartIsMet(parse: seq<byte> -> Header, s: seq<byte>, pos: nat, num: nat, h: Header, b: Option<seq<byte>>,
                       start: nat)
    requires h.contType == Mixed || h.contType == Parallel || h.contType == Digest || h.contType == OtherMultipart
    requires pos <= start <= |s| && FindBorder(s, pos, h.boundary) == Some(Stop(Found, start - pos))
    requires View(parse, s, pos, num, h, b).Some?
    ensures var w := View(parse, s, pos, num, h, b).value;
            && NextHeader(parse, s, start).Some? && w.visits != []
            && w.visits[0].num == num + 1 && w.visits[0].pos == NextHeader(parse, s, start).value.1
            && Find(parse, s, pos, num, h, b, num + 1) == Some(At(w.visits[0]))
  {
    ViewAgrees(parse, s, pos, num, h, b, num + 1);
    if h.boundary.None? {
      NoBoundaryNoBorder(s, pos);
      assert false;
    }
    HeaderIsThere(parse, s, pos, num, h, b, start);
    FirstPartIsFound(parse, s, pos, num, h, b, start);
    hide View, Find, FindBorder, NextHeader;
  }

  lemma HeaderIsThere(parse: seq<byte> -> Header, s: seq<byte>, pos: nat, num: nat, h: Header, b: Option<seq<byte>>,
                      start: nat)
    requires h.contType == Mixed || h.contType == Parallel || h.contType == Digest || h.contType == OtherMultipart
    requires pos <= start <= |s| && FindBorder(s, pos, h.boundary) == Some(Stop(Found, start - pos))
    requires h.boundary.Some? && View(parse, s, pos, num, h, b).Some?
    ensures NextHeader(parse, s, start).Some?
  {
    hide FindBorder, NextHeader, Leave;
    assert ViewParts(parse, s, start, num, h).Some?;
  }

  /** A multipart without a boundary, or whose first border is its last or starts a message, has no parts. */
  lemma NoFirstPart(parse: seq<byte> -> Header, s: seq<byte>, pos: nat, num: nat, h: Header, b: Option<seq<byte>>,
                    p: int)
    requires h.contType == Mixed || h.contType == Parallel || h.contType == Digest || h.contType == OtherMultipart
    requires pos <= |s| && num < p
    ensures h.boundary.None? ==>
              && View(parse, s, pos, num, h, b) == Some(Walk(Error, pos, num, []))
              && Find(parse, s, pos, num, h, b, p) == Some(Past(Error, pos, num))
    ensures var first := FindBorder(s, pos, h.boundary);
            h.boundary.Some? && first.Some? && first.value.status != Found ==>
              && (first.value.status == Done || first.value.status == Error)
              && View(parse, s, pos, num, h, b) == Some(Walk(first.value.status, pos + first.value.len, num, []))
              && Find(parse, s, pos, num, h, b, p) == Some(Past(first.value.status, pos + first.value.len, num))
  {
    hide FindBorder, ViewParts, FindParts, Leave, FindLeave;
  }

  /** A part of any other type is a leaf to both walks, which pass it by its next border. */
  lemma LeafIsPassed(parse: seq<byte> -> Header, s: seq<byte>, pos: nat, num: nat, h: Header, b: Option<seq<byte>>,
                     p: int)
    requires pos <= |s| && num < p
    requires h.contType == TextPlain || h.contType == TextOther || h.contType == Image || h.contType == OtherType
    ensures var w := View(parse, s, pos, num, h, b);
            && (w.Some? ==> w.value.num == num && w.value.visits == [])
            && (FindBorder(s, pos, b).Some? && b.Some? ==>
                  w.Some? && w.value.status == FindBorder(s, pos, b).value.status
                  && w.value.pos == pos + FindBorder(s, pos, b).value.len)
            && (FindBorder(s, pos, b).None? && !h.attachment && (h.contType == TextPlain || h.contType == TextOther)
                ==> w.Some? && w.value.status == Error && w.value.pos == |s|)
            && (h.attachment || h.contType == Image || h.contType == OtherType ==>
                  FindBorder(s, pos, b).None? && b.Some? ==> w.None?)
            && (b.None? && (h.attachment || h.contType == Image || h.contType == OtherType)
                ==> w.Some? && w.value.status == Error && w.value.pos == pos)
    ensures Find(parse, s, pos, num, h, b, p).Some? ==> Find(parse, s, pos, num, h, b, p).value.Past?
  {
    hide FindBorder;
  }

  // ---------------------------------------------------------------- the methods

  method FillMailHeader(file: File, parse: seq<byte> -> Header) returns (h: Option<Header>)
    requires file.pos <= |file.bytes|
    modifies file`pos
    ensures old(file.pos) <= file.pos <= |file.bytes|
    ensures match NextHeader(parse, file.bytes, old(file.pos))
            case None => h == None
            case Some((next, pos)) => h == Some(next) && file.pos == pos
  {
    Headers.HeaderNotEmpty(file.bytes[file.pos..]);
    hide Headers.HeaderLength;
    var ok, header := Headers.FillHeader(file);
    h := if ok then Some(parse(header)) else None;
  }

  /** A walk by a method: its status, its last part number and the parts it met; the file has moved with it. */
  datatype Walked = Walked(status: Status, num: nat, visits: seq<Visit>)

  /** The method has done the walk w. */
  ghost predicate Did(r: Option<Walked>, pos: nat, w: Option<Walk>) {
    match w
    case None => r == None
    case Some(w) => r == Some(Walked(w.status, w.num, w.visits)) && pos == w.pos
  }

  method ViewMessageBody(file: File, parse: seq<byte> -> Header, num: nat, h: Header, b: Option<seq<byte>>)
    returns (r: Option<Walked>)
    requires file.pos <= |file.bytes|
    modifies file`pos
    ensures old(file.pos) <= file.pos <= |file.bytes|
    ensures Did(r, file.pos, View(parse, file.bytes, old(file.pos), num, h, b))
    decreases |file.bytes| - file.pos, 3
  {
    if IsMulti(h.contType) {
      r := ViewBodyCtMultipart(file, parse, num, h, b);
      return;
    }
    if Differs(h.contType) {
      return None;
    }
    if IsText(h) {
      var status := ReadText(file, b);
      return Some(Walked(status, num, []));
    }
    if b.None? {
      return Some(Walked(Error, num, []));
    }
    var status := FindNextBorder(file, b);
    r := if status.None? then None else Some(Walked(status.value, num, []));
  }

  method ViewBodyCtMultipart(file: File, parse: seq<byte> -> Header, num: nat, h: Header, b: Option<seq<byte>>)
    returns (r: Option<Walked>)
    requires file.pos <= |file.bytes|
    modifies file`pos
    ensures old(file.pos) <= file.pos <= |file.bytes|
    ensures Did(r, file.pos, ViewMultipart(parse, file.bytes, old(file.pos), num, h, b))
    decreases |file.bytes| - file.pos, 2
  {
    hide FindBorder, ViewParts, Leave;
    if h.boundary.None? {
      return Some(Walked(Error, num, []));
    }
    var status := FindNextBorder(file, h.boundary);
    if status.None? {
      return None;
    }
    if status.value == Error || status.value == Done {
      return Some(Walked(status.value, num, []));
    }
    r := ViewEveryPart(file, parse, num, h);
    if r.None? {
      return;
    }
    r := LeaveMultipart(file, r.value, b);
  }

  method LeaveMultipart(file: File, w: Walked, b: Option<seq<byte>>) returns (r: Option<Walked>)
    requires file.pos <= |file.bytes|
    modifies file`pos
    ensures old(file.pos) <= file.pos <= |file.bytes|
    ensures Did(r, file.pos, Leave(file.bytes, Walk(w.status, old(file.pos), w.num, w.visits), b))
  {
    if w.status == Error || b.None? {
      return Some(w);
    }
    hide FindBorder;
    var status := FindNextBorder(file, b);
    r := if status.None? then None else Some(w.(status := status.value));
  }

  /** The parts of a walk so far, put before those of the rest. */
  function Before(visits: seq<Visit>, w: Option<Walk>): Option<Walk> {
    if w.None? then None else Some(w.value.(visits := visits + w.value.visits))
  }

  /** A walk over parts that started at start has come to pos. */
  ghost predicate Viewing(parse: seq<byte> -> Header, s: seq<byte>, start: nat, n: nat, h: Header, pos: nat,
                          r: Walked) {
    start <= pos <= |s| && ViewParts(parse, s, start, n, h)
    == if r.status == Pending || r.status == Found then Before(r.visits, ViewParts(parse, s, pos, r.num, h))
       else Some(Walk(r.status, pos, r.num, r.visits))
  }

  lemma ViewingStarts(parse: seq<byte> -> Header, s: seq<byte>, start: nat, n: nat, h: Header)
    requires start <= |s|
    ensures Viewing(parse, s, start, n, h, start, Walked(Pending, n, []))
  {
    var w := ViewParts(parse, s, start, n, h);
    assert w.Some? ==> [] + w.value.visits == w.value.visits;
  }

  /** One more part. */
  lemma ViewingNext(parse: seq<byte> -> Header, s: seq<byte>, start: nat, n: nat, h: Header, pos: nat, r: Walked)
    requires Viewing(parse, s, start, n, h, pos, r) && (r.status == Pending || r.status == Found)
    ensures pos <= |s|
    ensures match OnePart(parse, s, pos, r, h)
            case None => ViewParts(parse, s, start, n, h) == None
            case Some(w) => Viewing(parse, s, start, n, h, w.pos, Walked(w.status, w.num, w.visits))
  {
    hide View, NextHeader, Typed;
    var next := NextHeader(parse, s, pos);
    if next.Some? {
      var (h', pos') := next.value;
      var part := Typed(h', h.contType);
      var w := View(parse, s, pos', r.num + 1, part, h.boundary);
      if w.Some? {
        var visit := Visit(r.num + 1, pos', part, h.boundary);
        assert r.visits + ([visit] + w.value.visits) == r.visits + [visit] + w.value.visits;
        if w.value.status == Pending || w.value.status == Found {
          var rest := ViewParts(parse, s, w.value.pos, w.value.num, h);
          if rest.Some? {
            assert r.visits + ([visit] + w.value.visits + rest.value.visits)
                == r.visits + [visit] + w.value.visits + rest.value.visits;
          }
        }
      }
    }
  }

  /** One round of the viewer's loop: the next part, with the walk below it. */
  function OnePart(parse: seq<byte> -> Header, s: seq<byte>, pos: nat, r: Walked, h: Header): (w: Option<Walk>)
    requires pos <= |s|
    ensures w.Some? ==> pos < w.value.pos <= |s|
  {
    match NextHeader(parse, s, pos)
    case None => None
    case Some((next, pos')) =>
      var part := Typed(next, h.contType);
      Before(r.visits + [Visit(r.num + 1, pos', part, h.boundary)], View(parse, s, pos', r.num + 1, part, h.boundary))
  }

  method ViewOnePart(file: File, parse: seq<byte> -> Header, all: Walked, h: Header) returns (r: Option<Walked>)
    requires file.pos <= |file.bytes|
    modifies file`pos
    ensures old(file.pos) <= file.pos <= |file.bytes| && (r.Some? ==> old(file.pos) < file.pos)
    ensures Did(r, file.pos, OnePart(parse, file.bytes, old(file.pos), all, h))
    decreases |file.bytes| - file.pos, 0
  {
    hide View, NextHeader, Typed;
    var next := FillMailHeader(file, parse);
    if next == None {
      return None;
    }
    var part := Typed(next.value, h.contType);
    var visit := Visit(all.num + 1, file.pos, part, h.boundary);
    r := ViewMessageBody(file, parse, all.num + 1, part, h.boundary);
    if r.Some? {
      r := Some(r.value.(visits := all.visits + [visit] + r.value.visits));
    }
  }

  lemma ViewingEnds(parse: seq<byte> -> Header, s: seq<byte>, start: nat, n: nat, h: Header, pos: nat, r: Walked)
    requires Viewing(parse, s, start, n, h, pos, r) && r.status != Pending && r.status != Found
    ensures start <= pos <= |s| && Did(Some(r), pos, ViewParts(parse, s, start, n, h))
  {}

  method ViewEveryPart(file: File, parse: seq<byte> -> Header, num: nat, h: Header) returns (r: Option<Walked>)
    requires file.pos <= |file.bytes|
    modifies file`pos
    ensures old(file.pos) <= file.pos <= |file.bytes|
    ensures Did(r, file.pos, ViewParts(parse, file.bytes, old(file.pos), num, h))
    decreases |file.bytes| - file.pos, 1
  {
    var start := file.pos;
    var all := Walked(Pending, num, []);
    hide *;
    ViewingStarts(parse, file.bytes, start, num, h);
    while all.status == Pending || all.status == Found
      invariant start <= file.pos <= |file.bytes|
      invariant Viewing(parse, file.bytes, start, num, h, file.pos, all)
      decreases |file.bytes| - file.pos, all.status == Pending || all.status == Found
    {
      ViewingNext(parse, file.bytes, start, num, h, file.pos, all);
      r := ViewOnePart(file, parse, all, h);
      if r == None {
        return;
      }
      all := r.value;
    }
    ViewingEnds(parse, file.bytes, start, num, h, file.pos, all);
    r := Some(all);
  }

  function PosOf(f: Search): nat {
    if f.At? then f.visit.pos else f.pos
  }

  /** Stops the file at the body of part p, when it is there. */
  method FindAttachment(file: File, parse: seq<byte> -> Header, num: nat, h: Header, b: Option<seq<byte>>, p: int)
    returns (r: Option<Search>)
    requires file.pos <= |file.bytes|
    modifies file`pos
    ensures old(file.pos) <= file.pos <= |file.bytes|
    ensures r == Find(parse, file.bytes, old(file.pos), num, h, b, p) && (r.Some? ==> file.pos == PosOf(r.value))
    decreases |file.bytes| - file.pos, 3
  {
    hide FindBorder;
    if num >= p {
      return Some(At(Visit(num, file.pos, h, b)));
    }
    if IsMulti(h.contType) {
      r := FindNextCtMultipart(file, parse, num, h, b, p);
      return;
    }
    if Differs(h.contType) {
      return None;
    }
    if b.None? {
      return Some(Past(Error, file.pos, num));
    }
    var status := FindNextBorder(file, b);
    r := if status.None? then None else Some(Past(Continue(status.value), file.pos, num));
  }

  method FindNextCtMultipart(file: File, parse: seq<byte> -> Header, num: nat, h: Header, b: Option<seq<byte>>, p: int)
    returns (r: Option<Search>)
    requires file.pos <= |file.bytes|
    modifies file`pos
    ensures old(file.pos) <= file.pos <= |file.bytes|
    ensures r == FindMultipart(parse, file.bytes, old(file.pos), num, h, b, p)
            && (r.Some? ==> file.pos == PosOf(r.value))
    decreases |file.bytes| - file.pos, 2
  {
    hide FindBorder, FindParts, FindLeave;
    if h.boundary.None? {
      return Some(Past(Error, file.pos, num));
    }
    var status := FindNextBorder(file, h.boundary);
    if status.None? {
      return None;
    }
    if status.value == Error || status.value == Done {
      return Some(Past(status.value, file.pos, num));
    }
    r := FindInParts(file, parse, num, h, p);
    if r.None? {
      return;
    }
    r := LeaveUnfound(file, r.value, b);
  }

  method LeaveUnfound(file: File, f: Search, b: Option<seq<byte>>) returns (r: Option<Search>)
    requires file.pos == PosOf(f) <= |file.bytes|
    modifies file`pos
    ensures old(file.pos) <= file.pos <= |file.bytes|
    ensures r == FindLeave(file.bytes, f, b) && (r.Some? ==> file.pos == PosOf(r.value))
  {
    if f.At? || f.status != Done || b.None? {
      return Some(f);
    }
    hide FindBorder;
    var status := FindNextBorder(file, b);
    r := if status.None? then None else Some(Past(Continue(status.value), file.pos, f.num));
  }

  method FindInParts(file: File, parse: seq<byte> -> Header, num: nat, h: Header, p: int) returns (r: Option<Search>)
    requires file.pos <= |file.bytes|
    modifies file`pos
    ensures old(file.pos) <= file.pos <= |file.bytes|
    ensures r == FindParts(parse, file.bytes, old(file.pos), num, h, p) && (r.Some? ==> file.pos == PosOf(r.value))
    decreases |file.bytes| - file.pos, 1
  {
    ghost var start := file.pos;
    r := Some(Past(Pending, file.pos, num));
    hide Find, NextHeader, Typed;
    while r.Some? && r.value.Past? && r.value.status == Pending
      invariant start <= file.pos <= |file.bytes| && (r.Some? ==> file.pos == PosOf(r.value))
      invariant FindParts(parse, file.bytes, start, num, h, p)
             == if r.Some? && r.value.Past? && r.value.status == Pending then
                  FindParts(parse, file.bytes, file.pos, r.value.num, h, p)
                else r
      decreases |file.bytes| - file.pos, r.Some? && r.value.Past? && r.value.status == Pending
    {
      var n := r.value.num + 1;
      var next := FillMailHeader(file, parse);
      if next == None {
        r := None;
      } else {
        r := FindAttachment(file, parse, n, Typed(next.value, h.contType), h.boundary, p);
      }
    }
  }
}
