/** The address book kept in the preference file: one line an entry, in order, changed by splices. */
module AddressBook {
  import opened Bytes
  import opened Address
  import CStrings
  import opened MailFile
  import Mailbox
  import Splice
  import opened Wrappers

  /** address_book(main), with its newline */
  const HEADER: seq<byte> := [97, 100, 100, 114, 101, 115, 115, 95, 98, 111, 111, 107, 40, 109, 97, 105, 110, 41, 10]

  // ---------------------------------------------------------------- the order

  function Lower(c: byte): byte {
    if 65 <= c <= 90 then c + 32 else c
  }

  /** strcasecmp: negative, zero or positive. */
  function CaseCompare(a: seq<byte>, b: seq<byte>): int {
    if a == [] then (if b == [] then 0 else -1)
    else if b == [] then 1
    else if Lower(a[0]) != Lower(b[0]) then Lower(a[0]) as int - Lower(b[0]) as int
    else CaseCompare(a[1..], b[1..])
  }

  lemma {:induction false} CompareSwaps(a: seq<byte>, b: seq<byte>)
    ensures CaseCompare(a, b) > 0 <==> CaseCompare(b, a) < 0
    ensures CaseCompare(a, b) == 0 <==> CaseCompare(b, a) == 0
  {
    if a != [] && b != [] { CompareSwaps(a[1..], b[1..]); }
  }

  lemma {:induction false} CompareChains(a: seq<byte>, b: seq<byte>, c: seq<byte>)
    requires CaseCompare(a, b) <= 0 && CaseCompare(b, c) <= 0
    ensures CaseCompare(a, c) <= 0
    ensures CaseCompare(a, c) == 0 ==> CaseCompare(a, b) == 0 && CaseCompare(b, c) == 0
    ensures CaseCompare(a, b) == 0 && CaseCompare(b, c) == 0 ==> CaseCompare(a, c) == 0
  {
    if a != [] && b != [] && c != [] && Lower(a[0]) == Lower(b[0]) == Lower(c[0]) {
      CompareChains(a[1..], b[1..], c[1..]);
    }
  }

  /** The same byte, or a capital letter and its small letter. */
  predicate SameLetter(x: byte, y: byte) {
    x == y || (65 <= x <= 90 && 97 <= y <= 122 && y == x + 32) || (65 <= y <= 90 && 97 <= x <= 122 && x == y + 32)
  }

  predicate SameText(a: seq<byte>, b: seq<byte>) {
    |a| == |b| && forall i :: 0 <= i < |a| ==> SameLetter(a[i], b[i])
  }

  /** Two texts compare as equal exactly when they differ in the case of their letters only. */
  lemma {:induction false} EqualIsSameText(a: seq<byte>, b: seq<byte>)
    ensures CaseCompare(a, b) == 0 <==> SameText(a, b)
  {
    if a != [] && b != [] {
      EqualIsSameText(a[1..], b[1..]);
      assert SameText(a, b) <==> SameLetter(a[0], b[0]) && SameText(a[1..], b[1..]);
    }
  }

  /** Other texts are ordered by their first difference: a shorter one first, capitals counted as small letters. */
  lemma {:induction false} FirstDifferenceDecides(a: seq<byte>, b: seq<byte>, i: nat)
    requires i <= |a| && i <= |b| && !(i == |a| && i == |b|)
    requires forall j :: 0 <= j < i ==> SameLetter(a[j], b[j])
    requires i < |a| && i < |b| ==> !SameLetter(a[i], b[i])
    ensures i == |a| ==> CaseCompare(a, b) < 0
    ensures i == |b| ==> CaseCompare(a, b) > 0
    ensures i < |a| && i < |b| ==>
              && CaseCompare(a, b) != 0
              && (CaseCompare(a, b) < 0 <==>
                    (if 65 <= a[i] <= 90 then a[i] + 32 else a[i]) < (if 65 <= b[i] <= 90 then b[i] + 32 else b[i]))
  {
    if i > 0 {
      assert SameLetter(a[0], b[0]);
      FirstDifferenceDecides(a[1..], b[1..], i - 1);
    }
  }

  datatype Entry = Entry(name: Option<seq<byte>>, email: seq<byte>)

  /**
    Entries without a name come first, by address; the others follow by name and address, all
    without regard to case.
   */
  function Compare(x: Entry, y: Entry): int {
    if x.name.None? then (if y.name.None? then CaseCompare(x.email, y.email) else -1)
    else if y.name.None? then 1
    else
      var c := CaseCompare(x.name.value, y.name.value);
      if c != 0 then c else CaseCompare(x.email, y.email)
  }

  /** Entries are equal when their names, if any, and their addresses differ in case only. */
  predicate SameEntry(x: Entry, y: Entry) {
    && SameText(x.email, y.email)
    && (x.name.None? <==> y.name.None?)
    && (x.name.Some? && y.name.Some? ==> SameText(x.name.value, y.name.value))
  }

  /** What the order goes by: first no name before any name, then names, and last addresses. */
  lemma OrderGoesBy(x: Entry, y: Entry)
    ensures Compare(x, y) == 0 <==> SameEntry(x, y)
    ensures x.name.None? && y.name.Some? ==> Compare(x, y) < 0
    ensures x.name.None? && y.name.None? ==> Compare(x, y) == CaseCompare(x.email, y.email)
    ensures x.name.Some? && y.name.Some? && !SameText(x.name.value, y.name.value) ==>
              Compare(x, y) == CaseCompare(x.name.value, y.name.value)
    ensures x.name.Some? && y.name.Some? && SameText(x.name.value, y.name.value) ==>
              Compare(x, y) == CaseCompare(x.email, y.email)
  {
    EqualIsSameText(x.email, y.email);
    if x.name.Some? && y.name.Some? { EqualIsSameText(x.name.value, y.name.value); }
    hide CaseCompare;
  }

  lemma OrderSwaps(x: Entry, y: Entry)
    ensures Compare(x, y) > 0 <==> Compare(y, x) < 0
    ensures Compare(x, y) == 0 <==> Compare(y, x) == 0
  {
    hide CaseCompare;
    CompareSwaps(x.email, y.email);
    if x.name.Some? && y.name.Some? { CompareSwaps(x.name.value, y.name.value); }
  }

  lemma OrderChains(x: Entry, y: Entry, z: Entry)
    requires Compare(x, y) <= 0 && Compare(y, z) <= 0
    ensures Compare(x, z) <= 0
    ensures Compare(x, z) == 0 ==> Compare(x, y) == 0 && Compare(y, z) == 0
  {
    hide CaseCompare;
    if x.name.Some? && y.name.Some? && z.name.Some? {
      CompareChains(x.name.value, y.name.value, z.name.value);
    }
    if CaseCompare(x.email, y.email) <= 0 && CaseCompare(y.email, z.email) <= 0 {
      CompareChains(x.email, y.email, z.email);
    }
  }

  ghost predicate Sorted(l: seq<Entry>) {
    forall i, j :: 0 <= i < j < |l| ==> Compare(l[i], l[j]) <= 0
  }

  /** Where e is inserted: before the first entry that is greater. */
  function Rank(l: seq<Entry>, e: Entry): (k: nat)
    ensures k <= |l| && (k < |l| ==> Compare(l[k], e) > 0)
    ensures forall i :: 0 <= i < k ==> Compare(l[i], e) <= 0
  {
    if l == [] || Compare(l[0], e) > 0 then 0 else 1 + Rank(l[1..], e)
  }

  function Inserted(l: seq<Entry>, e: Entry): seq<Entry> {
    var k := Rank(l, e);
    l[..k] + [e] + l[k..]
  }

  lemma InsertKeepsSorted(l: seq<Entry>, e: Entry)
    requires Sorted(l)
    ensures Sorted(Inserted(l, e))
  {
    var k, r := Rank(l, e), Inserted(l, e);
    hide Compare, Rank;
    forall i, j | 0 <= i < j < |r| ensures Compare(r[i], r[j]) <= 0 {
      if i < k && j == k {
      } else if i == k {
        OrderSwaps(l[k], e);
        if j > k + 1 { OrderChains(e, l[k], l[j - 1]); }
      }
    }
  }

  /** The first entry with e's name and address, without regard to case; |l| when there is none. */
  function Match(l: seq<Entry>, e: Entry): (k: nat)
    ensures k <= |l| && (k < |l| ==> Compare(l[k], e) == 0)
    ensures forall i :: 0 <= i < k ==> Compare(l[i], e) != 0
  {
    if l == [] || Compare(l[0], e) == 0 then 0 else 1 + Match(l[1..], e)
  }

  function Deleted(l: seq<Entry>, e: Entry): seq<Entry> {
    var k := Match(l, e);
    if k < |l| then l[..k] + l[k + 1..] else l
  }

  lemma SelfEqual(e: Entry)
    ensures Compare(e, e) == 0
  {
    OrderSwaps(e, e);
  }

  /** B goes behind a; and with bob, an entry for Bob is deleted. */
  lemma CaseIsNoMatter()
    ensures var a, b := Entry(Some(Ascii("a")), Ascii("x")), Entry(Some(Ascii("B")), Ascii("y"));
            Inserted([a], b) == [a, b]
    ensures var big, small := Entry(None, Ascii("Bob@x.org")), Entry(None, Ascii("bob@x.org"));
            Deleted([big], small) == []
  {
    hide CaseCompare, Compare;
    var a, b := Entry(Some(Ascii("a")), Ascii("x")), Entry(Some(Ascii("B")), Ascii("y"));
    FirstDifferenceDecides(Ascii("a"), Ascii("B"), 0);
    OrderGoesBy(a, b);
    EqualIsSameText(Ascii("a"), Ascii("B"));
    OneEntry(a, b);
    var big, small := Entry(None, Ascii("Bob@x.org")), Entry(None, Ascii("bob@x.org"));
    SmallBob();
    OrderGoesBy(big, small);
    OneEntry(big, small);
  }

  lemma SmallBob()
    ensures SameText(Ascii("Bob@x.org"), Ascii("bob@x.org"))
  {}

  lemma OneEntry(x: Entry, e: Entry)
    ensures Compare(x, e) < 0 ==> Inserted([x], e) == [x, e]
    ensures Compare(x, e) == 0 ==> Deleted([x], e) == []
  {
    hide Compare;
  }

  /**
    Adding and then deleting an entry restores a sorted book exactly when the entries equal to it up
    to case are equal to it.
   */
  lemma AddThenDelete(l: seq<Entry>, e: Entry)
    requires Sorted(l)
    ensures Deleted(Inserted(l, e), e) == l <==> forall i :: 0 <= i < |l| && Compare(l[i], e) == 0 ==> l[i] == e
  {
    var k, m, d := Rank(l, e), Match(Inserted(l, e), e), Deleted(Inserted(l, e), e);
    DeletedInserted(l, e);
    EqualToNew(l, e, k, m);
    hide *;
    if d == l {
      forall i | m <= i < k ensures l[i] == NextOf(l, i, k, e) { assert d[i] == l[i]; }
      AllSame(l, m, k, e);
    }
    if forall i :: 0 <= i < |l| && Compare(l[i], e) == 0 ==> l[i] == e {
      forall i | 0 <= i < |l| ensures d[i] == l[i] {
        if m <= i < k { assert l[i] == e && (i + 1 < k ==> l[i + 1] == e); NextIs(l, i, k, e); }
      }
      assert d == l;
    }
  }

  lemma NextIs(l: seq<Entry>, i: nat, k: nat, e: Entry)
    requires i < k <= |l|
    ensures NextOf(l, i, k, e) == if i + 1 < k then l[i + 1] else e
  {}

  /** What deleting leaves of a book to which e was added. */
  lemma DeletedInserted(l: seq<Entry>, e: Entry)
    ensures var k, m, d := Rank(l, e), Match(Inserted(l, e), e), Deleted(Inserted(l, e), e);
            && m <= k && (m < k ==> Compare(l[m], e) == 0) && (forall i :: 0 <= i < m ==> Compare(l[i], e) != 0)
            && |d| == |l| && forall i :: 0 <= i < |l| ==> d[i] == if m <= i < k then NextOf(l, i, k, e) else l[i]
  {
    var k, r := Rank(l, e), Inserted(l, e);
    var m := Match(r, e);
    SelfEqual(e);
    hide Compare, Rank, Match;
    assert r[k] == e && m <= k;
    assert forall i :: 0 <= i < k ==> r[i] == l[i];
    RemoveInserted(l, e, k, m);
    hide NextOf;
  }

  lemma RemoveInserted(l: seq<Entry>, e: Entry, k: nat, m: nat)
    requires m <= k <= |l|
    ensures var r := l[..k] + [e] + l[k..];
            var d := r[..m] + r[m + 1..];
            |d| == |l| && forall i :: 0 <= i < |l| ==> d[i] == if m <= i < k then NextOf(l, i, k, e) else l[i]
  {}

  /** In a sorted book the entries equal to e are those from the first match to where e belongs. */
  lemma EqualToNew(l: seq<Entry>, e: Entry, k: nat, m: nat)
    requires Sorted(l) && k == Rank(l, e) && m <= k && (m < k ==> Compare(l[m], e) == 0)
    requires forall i :: 0 <= i < m ==> Compare(l[i], e) != 0
    ensures forall i :: 0 <= i < |l| ==> (Compare(l[i], e) == 0 <==> m <= i < k)
  {
    hide Compare, Rank;
    forall i | 0 <= i < |l| ensures Compare(l[i], e) == 0 <==> m <= i < k {
      if m < i < k {
        OrderChains(l[m], l[i], e);
      } else if i >= k {
        if Compare(l[i], e) == 0 && i > k { OrderChains(l[k], l[i], e); }
      }
    }
  }

  function NextOf(l: seq<Entry>, i: nat, k: nat, e: Entry): Entry
    requires i < k <= |l|
  {
    if i + 1 < k then l[i + 1] else e
  }

  lemma {:induction false} AllSame(l: seq<Entry>, m: nat, k: nat, e: Entry)
    requires m <= k <= |l| && forall i :: m <= i < k ==> l[i] == NextOf(l, i, k, e)
    ensures forall i :: m <= i < k ==> l[i] == e
    decreases k - m
  {
    if m < k {
      AllSame(l, m + 1, k, e);
      assert l[m] == NextOf(l, m, k, e);
    }
  }

  // ---------------------------------------------------------------- the scans of the file

  /** What the entry of the line that begins at pos is; only lines that begin with a tab are entries. */
  datatype Seen = End | Seen(filled: Filled, next: nat)

  function EntryAt(bytes: seq<byte>, pos: nat): (r: Seen)
    requires pos <= |bytes|
    ensures r.Seen? ==> pos < r.next <= |bytes|
  {
    var line := Mailbox.LineOf(bytes[pos..]);
    if line == [] || line[0] != TAB then End else Seen(FillAddr(CString(line)), pos + |line|)
  }

  /** Crash: the original hands a null pointer to strcasecmp. */
  datatype Place = Found(start: nat, end: nat) | Missing | Crash

  /** Whether the entry read comes after the new one; none where the original compares a missing address. */
  function ComesAfter(a: Addr, e: Entry): Option<bool> {
    if e.name.Some? then
      if a.name.None? then Some(false) else
      var c := CaseCompare(a.name.value, e.name.value);
      if c != 0 then Some(c > 0)
      else if a.email.None? then None
      else Some(CaseCompare(a.email.value, e.email) > 0)
    else if a.name.Some? then Some(true)
    else if a.email.None? then None
    else Some(CaseCompare(a.email.value, e.email) > 0)
  }

  /** Whether the entry read is the one to delete. */
  function IsSame(a: Addr, e: Entry): Option<bool> {
    if a.name.Some? != e.name.Some? || (e.name.Some? && CaseCompare(a.name.value, e.name.value) != 0) then Some(false)
    else if a.email.None? then None
    else Some(CaseCompare(a.email.value, e.email) == 0)
  }

  /** A null pointer is compared exactly when the entry read has no address and the names do not decide. */
  lemma MissingAddressCrashes(a: Addr, e: Entry)
    ensures ComesAfter(a, e) == None <==> IsSame(a, e) == None
    ensures IsSame(a, e) == None <==> a.email == None && SameName(a.name, e.name)
    ensures a.email.Some? ==> IsSame(a, e) == Some(SameName(a.name, e.name) && SameText(a.email.value, e.email))
  {
    if a.name.Some? && e.name.Some? { EqualIsSameText(a.name.value, e.name.value); }
    if a.email.Some? { EqualIsSameText(a.email.value, e.email); }
    hide CaseCompare;
  }

  predicate SameName(x: Option<seq<byte>>, y: Option<seq<byte>>) {
    if x.Some? && y.Some? then SameText(x.value, y.value) else x.None? && y.None?
  }

  /** Where e is to be inserted, from the entries at pos on; Missing when a line holds more than one address. */
  function NextEmailOrder(bytes: seq<byte>, pos: nat, e: Entry): (r: Place)
    requires pos <= |bytes|
    ensures r.Found? ==> pos <= r.start == r.end <= |bytes|
    decreases |bytes| - pos
  {
    match EntryAt(bytes, pos)
    case End => Found(pos, pos)
    case Seen(filled, next) =>
      if filled.rest >= 0 then Missing else
      match ComesAfter(filled.addr, e)
      case None => Crash
      case Some(after) => if after then Found(pos, pos) else NextEmailOrder(bytes, next, e)
  }

  /** Where the line of e is, from the entries at pos on. */
  function EmailPosition(bytes: seq<byte>, pos: nat, e: Entry): (r: Place)
    requires pos <= |bytes|
    ensures r.Found? ==> pos <= r.start < r.end <= |bytes|
    decreases |bytes| - pos
  {
    match EntryAt(bytes, pos)
    case End => Missing
    case Seen(filled, next) =>
      match IsSame(filled.addr, e)
      case None => Crash
      case Some(same) => if same then Found(pos, next) else EmailPosition(bytes, next, e)
  }

  /** Where the first entry can be, behind the line that heads the book. */
  function BookStart(bytes: seq<byte>, pos: nat): (r: Option<nat>)
    requires pos <= |bytes|
    ensures r.Some? ==> pos <= r.value <= |bytes|
    decreases |bytes| - pos
  {
    var line := Mailbox.LineOf(bytes[pos..]);
    if line == [] then None
    else if CString(line) == HEADER then Some(pos + |line|)
    else BookStart(bytes, pos + |line|)
  }

  /** Whether the line at pos heads the book, and its length; none at the end of the file. */
  function HeadAt(bytes: seq<byte>, pos: nat): (r: Option<(bool, nat)>)
    requires pos <= |bytes|
    ensures r.Some? ==> 0 < r.value.1 && pos + r.value.1 <= |bytes|
  {
    var line := Mailbox.LineOf(bytes[pos..]);
    if line == [] then None else Some((CString(line) == HEADER, |line|))
  }

  method ReadHead(file: File) returns (r: Option<(bool, nat)>)
    requires file.pos <= |file.bytes|
    modifies file`pos
    ensures r == HeadAt(file.bytes, old(file.pos))
    ensures if r.Some? then file.pos == old(file.pos) + r.value.1 else file.pos == old(file.pos) == |file.bytes|
  {
    var line := Mailbox.GetLine(file);
    r := if line == [] then None else Some((CString(line) == HEADER, |line|));
  }

  /** The search for the book has come to pos; done when its head was just read or the file is at an end. */
  ghost predicate Searching(bytes: seq<byte>, pos: nat, err: int, done: bool) {
    pos <= |bytes| &&
    if !done then err == 0 && BookStart(bytes, 0) == BookStart(bytes, pos)
    else if err == 0 then BookStart(bytes, 0) == Some(pos)
    else err == -1 && BookStart(bytes, 0) == None && pos == |bytes|
  }

  lemma SearchStarts(bytes: seq<byte>)
    ensures Searching(bytes, 0, 0, false)
  {}

  lemma SearchNext(bytes: seq<byte>, pos: nat)
    requires Searching(bytes, pos, 0, false)
    ensures pos <= |bytes|
    ensures match HeadAt(bytes, pos)
            case None => pos == |bytes| ==> Searching(bytes, pos, -1, true)
            case Some((head, n)) => Searching(bytes, pos + n, 0, head)
  {
    hide Mailbox.LineOf, CString, HEADER;
  }

  lemma SearchEnds(bytes: seq<byte>, pos: nat, err: int)
    requires Searching(bytes, pos, err, true)
    ensures match BookStart(bytes, 0)
            case None => err == -1 && pos == |bytes|
            case Some(p) => err == 0 && pos == p
  {}

  method FindAddrBookStart(file: File) returns (err: int)
    modifies file`pos
    ensures file.pos <= |file.bytes|
    ensures match BookStart(file.bytes, 0)
            case None => err == -1 && file.pos == |file.bytes|
            case Some(p) => err == 0 && file.pos == p
  {
    hide *;
    var rewound := file.Seek(0);
    var done := false;
    err := 0;
    SearchStarts(file.bytes);
    while !done
      invariant file.pos <= |file.bytes| && (!done ==> err == 0)
      invariant Searching(file.bytes, file.pos, err, done)
      decreases |file.bytes| - file.pos, !done
    {
      SearchNext(file.bytes, file.pos);
      var line := ReadHead(file);
      if line == None {
        err, done := -1, true;
      } else {
        done := line.value.0;
      }
    }
    SearchEnds(file.bytes, file.pos, err);
  }

  /** Reads the next line as an entry. */
  method ReadEntry(file: File) returns (r: Seen)
    requires file.pos <= |file.bytes|
    modifies file`pos
    ensures r == EntryAt(file.bytes, old(file.pos)) && old(file.pos) <= file.pos <= |file.bytes|
    ensures r.Seen? ==> file.pos == r.next
  {
    var line := Mailbox.GetLine(file);
    if line == [] || line[0] != TAB {
      return End;
    }
    hide *;
    var buff := ToBuffer(line);
    BufferHolds(line);
    var addr, rest := FillAddrInPlace(buff, CString(line));
    r := Seen(Filled(addr, rest), file.pos);
  }

  /** The buffer that getline leaves, with its NUL. */
  method ToBuffer(line: seq<byte>) returns (buff: array<byte>)
    ensures fresh(buff) && buff[..] == line + [0]
  {
    buff := new byte[|line| + 1](i => 0);
    for i := 0 to |line|
      invariant buff[..i] == line[..i] && buff[|line|] == 0
    {
      buff[i] := line[i];
    }
  }

  lemma {:induction false} BufferHolds(line: seq<byte>)
    ensures CStrings.Holds(line + [0], 0, CString(line))
  {
    CStrings.StringHolds(line + [0], 0);
    assert (line + [0])[0..] == line + [0];
    ZeroEnds(line);
  }

  lemma {:induction false} ZeroEnds(line: seq<byte>)
    ensures CString(line + [0]) == CString(line)
  {
    if line != [] && line[0] != 0 {
      assert (line + [0])[1..] == line[1..] + [0];
      ZeroEnds(line[1..]);
    }
  }

  method FindNextEmailOrder(file: File, e: Entry) returns (r: Place)
    requires file.pos <= |file.bytes|
    modifies file`pos
    ensures file.pos <= |file.bytes| && r == NextEmailOrder(file.bytes, old(file.pos), e)
  {
    hide EntryAt, ComesAfter;
    ghost var start := file.pos;
    var filePtr := file.pos;
    var status := false;
    r := Missing;
    while !status
      invariant file.pos <= |file.bytes|
      invariant NextEmailOrder(file.bytes, start, e) == if status then r else NextEmailOrder(file.bytes, file.pos, e)
      decreases |file.bytes| - file.pos, !status
    {
      filePtr := file.pos;
      var seen := ReadEntry(file);
      match seen {
        case End =>
          r, status := Found(filePtr, filePtr), true;
        case Seen(filled, next) =>
          if filled.rest >= 0 {
            r, status := Missing, true;
          } else {
            match ComesAfter(filled.addr, e)
            case None => r, status := Crash, true;
            case Some(after) =>
              if after {
                r, status := Found(filePtr, filePtr), true;
              }
          }
      }
    }
  }

  method FindEmailPosition(file: File, e: Entry) returns (r: Place)
    requires file.pos <= |file.bytes|
    modifies file`pos
    ensures file.pos <= |file.bytes| && r == EmailPosition(file.bytes, old(file.pos), e)
  {
    hide EntryAt, IsSame;
    ghost var start := file.pos;
    var filePtr := file.pos;
    var status := false;
    r := Missing;
    while !status
      invariant file.pos <= |file.bytes|
      invariant EmailPosition(file.bytes, start, e) == if status then r else EmailPosition(file.bytes, file.pos, e)
      decreases |file.bytes| - file.pos, !status
    {
      filePtr := file.pos;
      var seen := ReadEntry(file);
      match seen {
        case End =>
          r, status := Missing, true;
        case Seen(filled, next) =>
          match IsSame(filled.addr, e)
          case None => r, status := Crash, true;
          case Some(same) =>
            if same {
              r, status := Found(filePtr, next), true;
            }
      }
    }
  }

  // ---------------------------------------------------------------- changing the file

  function EntryLine(e: Entry): seq<byte> {
    Line(if e.name.Some? then e.name.value else [], e.email)
  }

  lemma WrittenHead()
    ensures HEADER == Ascii("address_book(main)\n")
  {}

  /** A line of the book as the programs write it. */
  lemma WrittenLines()
    ensures EntryLine(Entry(Some(Ascii("Ann")), Ascii("a@b.c"))) == Ascii("\t\"Ann\" <a@b.c>\n")
    ensures EntryLine(Entry(None, Ascii("a@b.c"))) == Ascii("\t\"\" <a@b.c>\n")
  {}

  /** The file with the head of a book, appended when it was missing. */
  function Headed(bytes: seq<byte>): seq<byte> {
    if BookStart(bytes, 0).None? then bytes + HEADER else bytes
  }

  /** Where e is to be added. */
  function AddPlace(bytes: seq<byte>, e: Entry): (r: Place)
    ensures r.Found? ==> r.start <= |Headed(bytes)|
  {
    var headed, start := Headed(bytes), BookStart(bytes, 0);
    NextEmailOrder(headed, if start.None? then |headed| else start.value, e)
  }

  /**
    The file after adding e, and what is returned; none for a crash. Where the book cannot be put in
    order nothing is added.
   */
  function Added(bytes: seq<byte>, e: Entry): (seq<byte>, Option<int>) {
    var headed := Headed(bytes);
    match AddPlace(bytes, e)
    case Crash => (headed, None)
    case Missing => (headed, Some(0))
    case Found(p, _) => (headed[..p] + EntryLine(e) + headed[p..], Some(0))
  }

  /** The file after deleting e, and what is returned. */
  function Removed(bytes: seq<byte>, e: Entry): (seq<byte>, Option<int>) {
    match BookStart(bytes, 0)
    case None => (bytes, Some(-1))
    case Some(start) =>
      match EmailPosition(bytes, start, e)
      case Crash => (bytes, None)
      case Missing => (bytes, Some(-1))
      case Found(p, q) => (bytes[..p] + bytes[q..], Some(0))
  }

  lemma NothingGrows(bytes: seq<byte>, line: seq<byte>, p: nat, q: nat)
    requires p <= q && line == []
    ensures Splice.Covered(|bytes|, |line|, q, p) && Splice.Ends(|bytes|, |line|, q, p)
  {}

  /** The splice that adds e, if there is one, is covered. */
  ghost predicate AddIsCovered(bytes: seq<byte>, e: Entry) {
    var place := AddPlace(bytes, e);
    place.Found? ==> Splice.Covered(|Headed(bytes)|, |EntryLine(e)|, place.start, place.start)
  }

  ghost predicate AddEnds(bytes: seq<byte>, e: Entry) {
    var place := AddPlace(bytes, e);
    place.Found? ==> Splice.Ends(|Headed(bytes)|, |EntryLine(e)|, place.start, place.start)
  }

  /** A line of at most the largest buffer is always covered. */
  lemma ShortLineIsCovered(bytes: seq<byte>, e: Entry)
    ensures AddIsCovered(bytes, e) ==> AddEnds(bytes, e)
    ensures |EntryLine(e)| <= Splice.LARGEST ==> AddIsCovered(bytes, e)
  {
    hide AddPlace, Headed, EntryLine;
  }

  /** Adds an entry in its place; where the splice is not covered, with what its loop then leaves. */
  method AddPrefEmail(file: File, e: Entry) returns (r: Option<int>)
    requires AddEnds(file.bytes, e)
    modifies file
    ensures r == old(Added(file.bytes, e)).1
    ensures old(AddIsCovered(file.bytes, e)) ==> file.bytes == old(Added(file.bytes, e)).0
    ensures old(!AddIsCovered(file.bytes, e)) ==>
              var place := old(AddPlace(file.bytes, e));
              var start :=
                Splice.Start(old(Headed(file.bytes)), EntryLine(e), place.start, place.start, Splice.LARGEST);
              Splice.Results(start, Splice.LARGEST, file.bytes)
  {
    hide BookStart, NextEmailOrder, EntryLine, Splice.Covered, Splice.Ends, Splice.Start, Splice.Results, Splice.Chosen;
    ghost var before := file.bytes;
    var err := FindAddrBookStart(file);
    if err != 0 {
      file.Write(HEADER);
      assert file.bytes == before + HEADER;
    }
    var place := FindNextEmailOrder(file, e);
    match place {
      case Crash => r := None;
      case Missing => r := Some(0);
      case Found(p, q) =>
        ghost var headed := file.bytes;
        ghost var size;
        err, size := Splice.InsertLineInFile(file, EntryLine(e), p, p);
        if !AddIsCovered(before, e) {
          Splice.UncoveredIsLargest(|headed|, |EntryLine(e)|, p, p, size);
        }
        r := Some(if err != 0 then -1 else 0);
    }
  }

  method DeletePrefEmail(file: File, e: Entry) returns (r: Option<int>)
    modifies file
    ensures Removed(old(file.bytes), e) == (file.bytes, r)
  {
    hide BookStart, EmailPosition, Splice.Covered, Splice.Ends, Splice.Start, Splice.Results, Splice.Chosen;
    var err := FindAddrBookStart(file);
    if err != 0 {
      return Some(-1);
    }
    var place := FindEmailPosition(file, e);
    match place {
      case Crash => r := None;
      case Missing => r := Some(-1);
      case Found(p, q) =>
        NothingGrows(file.bytes, [], p, q);
        ghost var size;
        err, size := Splice.InsertLineInFile(file, [], q, p);
        assert file.bytes == old(file.bytes)[..p] + old(file.bytes)[q..];
        r := Some(if err != 0 then -1 else 0);
    }
  }

  // ---------------------------------------------------------------- files that hold a book

  /** An entry whose line is read back as it was written. */
  predicate CleanEntry(e: Entry) {
    && CleanEmail(e.email) && 0 !in e.email && NL !in e.email
    && (e.name.Some? ==> e.name.value != [] && 0 !in e.name.value && NL !in e.name.value && CleanName(e.name.value))
  }

  predicate Clean(l: seq<Entry>) {
    forall i :: 0 <= i < |l| ==> CleanEntry(l[i])
  }

  function Lines(l: seq<Entry>): seq<byte> {
    if l == [] then [] else EntryLine(l[0]) + Lines(l[1..])
  }

  /** Complete lines, none of which heads a book. */
  predicate Preamble(pre: seq<byte>)
    decreases |pre|
  {
    pre != [] ==>
      Mailbox.Complete(pre) && CString(Mailbox.LineOf(pre)) != HEADER && Preamble(pre[Mailbox.LineLength(pre)..])
  }

  /** Something that does not go on with an entry. */
  predicate NoEntry(post: seq<byte>) {
    post != [] ==> post[0] != TAB
  }

  function Book(pre: seq<byte>, l: seq<Entry>, post: seq<byte>): seq<byte> {
    pre + HEADER + (Lines(l) + post)
  }

  lemma FirstLineIs(s: seq<byte>, line: seq<byte>, rest: seq<byte>)
    requires s == line + rest && line != [] && Mailbox.Complete(line) && Mailbox.LineLength(line) == |line|
    ensures Mailbox.LineOf(s) == line && s[|line|..] == rest
  {
    Mailbox.LineLengthPrefix(line, rest);
    hide Mailbox.LineLength;
  }

  lemma HeaderIsLine()
    ensures HEADER != [] && Mailbox.Complete(HEADER) && Mailbox.LineLength(HEADER) == |HEADER|
            && CString(HEADER) == HEADER
  {
    hide CString, Mailbox.LineLength;
    Mailbox.LineLengthIs(HEADER);
  }

  lemma PreambleLine(pre: seq<byte>) returns (line: seq<byte>, rest: seq<byte>)
    requires Preamble(pre) && pre != []
    ensures pre == line + rest && line != [] && Mailbox.Complete(line) && Mailbox.LineLength(line) == |line|
    ensures CString(line) != HEADER && Preamble(rest)
  {
    line, rest := Mailbox.LineOf(pre), pre[Mailbox.LineLength(pre)..];
    Mailbox.FirstLine(pre);
    Mailbox.LineEndsComplete(pre);
    hide CString, Mailbox.LineLength;
  }

  /** One line of the search for the book. */
  lemma BookStartLine(bytes: seq<byte>, pos: nat, line: seq<byte>, rest: seq<byte>)
    requires pos <= |bytes| && bytes[pos..] == line + rest
    requires line != [] && Mailbox.Complete(line) && Mailbox.LineLength(line) == |line|
    ensures pos + |line| <= |bytes| && bytes[pos + |line|..] == rest
    ensures BookStart(bytes, pos)
            == if CString(line) == HEADER then Some(pos + |line|) else BookStart(bytes, pos + |line|)
  {
    FirstLineIs(bytes[pos..], line, rest);
    hide Mailbox.LineOf, Mailbox.LineLength, CString, HEADER;
    assert bytes[pos + |line|..] == bytes[pos..][|line|..];
  }

  lemma {:induction false} BookStartIs(bytes: seq<byte>, pos: nat, pre: seq<byte>, tail: seq<byte>)
    requires pos <= |bytes| && bytes[pos..] == pre + HEADER + tail && Preamble(pre)
    ensures BookStart(bytes, pos) == Some(pos + |pre| + |HEADER|)
    decreases |pre|
  {
    hide *;
    if pre == [] {
      HeaderIsLine();
      assert pre + HEADER + tail == HEADER + tail;
      BookStartLine(bytes, pos, HEADER, tail);
    } else {
      var line, rest := PreambleLine(pre);
      assert pre + HEADER + tail == line + (rest + HEADER + tail);
      BookStartLine(bytes, pos, line, rest + HEADER + tail);
      BookStartIs(bytes, pos + |line|, rest, tail);
    }
  }

  lemma EntryLineIs(e: Entry)
    requires CleanEntry(e)
    ensures var line := EntryLine(e);
            && line != [] && line[0] == TAB && Mailbox.Complete(line) && Mailbox.LineLength(line) == |line|
            && CString(line) == line && FillAddr(line) == Filled(Addr(e.name, Some(e.email)), -1)
  {
    var name := if e.name.Some? then e.name.value else [];
    assert CleanName([]) && (e.name.Some? ==> NameOf(name) == e.name);
    hide FillAddr, CleanName, CleanEmail, Line, CString, Mailbox.LineLength;
    LineBytes(name, e.email);
    LineIsRead(name, e.email);
    LineHasNoEnd(name, e.email);
    Mailbox.LineLengthIs(EntryLine(e));
  }

  lemma LineHasNoEnd(name: seq<byte>, email: seq<byte>)
    requires 0 !in email && NL !in email && 0 !in name && NL !in name
    ensures var line := Line(name, email);
            |line| > 0 && forall i :: 0 <= i < |line| ==> line[i] != 0 && (line[i] == NL ==> i == |line| - 1)
  {
    LineBytes(name, email);
    hide Line;
    var line := Line(name, email);
    forall i | 0 <= i < |line| ensures line[i] != 0 && (line[i] == NL ==> i == |line| - 1) {
      if 2 <= i < |name| + 2 {
        assert line[i] in name;
      } else if |name| + 5 <= i < |name| + |email| + 5 {
        assert line[i] in email;
      }
    }
  }

  lemma EntryAtLine(bytes: seq<byte>, pos: nat, e: Entry, rest: seq<byte>)
    requires pos <= |bytes| && bytes[pos..] == EntryLine(e) + rest && CleanEntry(e)
    ensures var next := pos + |EntryLine(e)|;
            && next <= |bytes| && bytes[next..] == rest
            && EntryAt(bytes, pos) == Seen(Filled(Addr(e.name, Some(e.email)), -1), next)
  {
    EntryLineIs(e);
    FirstLineIs(bytes[pos..], EntryLine(e), rest);
    hide Mailbox.LineOf, Mailbox.LineLength, CString, EntryLine, FillAddr;
    assert bytes[pos + |EntryLine(e)|..] == bytes[pos..][|EntryLine(e)|..];
  }

  lemma EntriesEnd(bytes: seq<byte>, pos: nat, post: seq<byte>)
    requires pos <= |bytes| && bytes[pos..] == post && NoEntry(post)
    ensures EntryAt(bytes, pos) == End
  {
    if post != [] { assert Mailbox.LineOf(post)[0] == post[0]; }
  }

  lemma ReadsCompare(x: Entry, e: Entry)
    ensures ComesAfter(Addr(x.name, Some(x.email)), e) == Some(Compare(x, e) > 0)
    ensures IsSame(Addr(x.name, Some(x.email)), e) == Some(Compare(x, e) == 0)
  {
    hide CaseCompare;
  }

  lemma {:induction false} OrderIsRank(bytes: seq<byte>, pos: nat, l: seq<Entry>, post: seq<byte>, e: Entry)
    requires pos <= |bytes| && bytes[pos..] == Lines(l) + post && Clean(l) && NoEntry(post)
    ensures var p := pos + |Lines(l[..Rank(l, e)])|; NextEmailOrder(bytes, pos, e) == Found(p, p)
    decreases |l|
  {
    hide EntryAt, ComesAfter, Compare, CleanEntry, EntryLine, NoEntry;
    if l == [] {
      assert Lines(l) + post == post;
      EntriesEnd(bytes, pos, post);
    } else {
      var x, rest := l[0], Lines(l[1..]) + post;
      assert Lines(l) + post == EntryLine(x) + rest;
      EntryAtLine(bytes, pos, x, rest);
      ReadsCompare(x, e);
      if Compare(x, e) > 0 {
        assert l[..0] == [];
      } else {
        OrderIsRank(bytes, pos + |EntryLine(x)|, l[1..], post, e);
        LinesTake(l, Rank(l, e));
      }
    }
  }

  lemma LinesTake(l: seq<Entry>, k: nat)
    requires 0 < k <= |l|
    ensures Lines(l[..k]) == EntryLine(l[0]) + Lines(l[1..][..k - 1])
  {
    hide EntryLine;
    assert l[..k][1..] == l[1..][..k - 1];
  }

  lemma {:induction false} PositionIsMatch(bytes: seq<byte>, pos: nat, l: seq<Entry>, post: seq<byte>, e: Entry)
    requires pos <= |bytes| && bytes[pos..] == Lines(l) + post && Clean(l) && NoEntry(post)
    ensures var m := Match(l, e);
            EmailPosition(bytes, pos, e)
            == if m < |l| then Found(pos + |Lines(l[..m])|, pos + |Lines(l[..m + 1])|) else Missing
    decreases |l|
  {
    hide EntryAt, IsSame, Compare, CleanEntry, EntryLine, NoEntry;
    if l == [] {
      assert Lines(l) + post == post;
      EntriesEnd(bytes, pos, post);
    } else {
      var x, rest := l[0], Lines(l[1..]) + post;
      assert Lines(l) + post == EntryLine(x) + rest;
      EntryAtLine(bytes, pos, x, rest);
      ReadsCompare(x, e);
      LinesTake(l, 1);
      if Compare(x, e) == 0 {
        assert l[..0] == [] && l[1..][..0] == [] && Lines([]) == [];
      } else {
        PositionIsMatch(bytes, pos + |EntryLine(x)|, l[1..], post, e);
        var m := Match(l, e);
        LinesTake(l, m);
        if m < |l| { LinesTake(l, m + 1); }
      }
    }
  }

  lemma {:induction false} LinesAppend(a: seq<Entry>, b: seq<Entry>)
    ensures Lines(a + b) == Lines(a) + Lines(b)
  {
    hide EntryLine;
    if a == [] {
      assert a + b == b;
    } else {
      assert (a + b)[1..] == a[1..] + b;
      LinesAppend(a[1..], b);
    }
  }

  /** In a file that holds a book an entry is added in order, and nothing else changes. */
  lemma AddInserts(pre: seq<byte>, l: seq<Entry>, post: seq<byte>, e: Entry)
    requires Preamble(pre) && Clean(l) && NoEntry(post)
    ensures Added(Book(pre, l, post), e) == (Book(pre, Inserted(l, e), post), Some(0))
  {
    hide NextEmailOrder, BookStart, Preamble, Clean, NoEntry, Lines, EntryLine, Rank, HEADER;
    var bytes, k, start := Book(pre, l, post), Rank(l, e), |pre| + |HEADER|;
    assert bytes[0..] == pre + HEADER + (Lines(l) + post);
    BookStartIs(bytes, 0, pre, Lines(l) + post);
    assert bytes[start..] == Lines(l) + post;
    OrderIsRank(bytes, start, l, post, e);
    assert l == l[..k] + l[k..];
    LinesAppend(l[..k], l[k..]);
    LinesAppend(l[..k] + [e], l[k..]);
    LinesAppend(l[..k], [e]);
    LinesOne(e);
    Splices(pre + HEADER, Lines(l[..k]), Lines(l[k..]), EntryLine(e), post);
  }

  lemma LinesOne(e: Entry)
    ensures Lines([e]) == EntryLine(e)
  {
    hide EntryLine;
    assert Lines([e]) == EntryLine(e) + Lines([]);
  }

  lemma Splices(head: seq<byte>, a: seq<byte>, b: seq<byte>, x: seq<byte>, post: seq<byte>)
    ensures var bytes, p := head + (a + b + post), |head| + |a|;
            bytes[..p] + x + bytes[p..] == head + (a + x + b + post)
  {
    var bytes, p := head + (a + b + post), |head| + |a|;
    assert bytes[..p] == head + a && bytes[p..] == b + post;
  }

  /** In such a file the first matching entry is deleted, and nothing else changes. */
  lemma DeleteRemoves(pre: seq<byte>, l: seq<Entry>, post: seq<byte>, e: Entry)
    requires Preamble(pre) && Clean(l) && NoEntry(post)
    ensures Removed(Book(pre, l, post), e)
            == (Book(pre, Deleted(l, e), post), Some(if Match(l, e) < |l| then 0 else -1))
  {
    hide EmailPosition, BookStart, Preamble, Clean, NoEntry, Lines, EntryLine, Match, HEADER;
    var bytes, m, start := Book(pre, l, post), Match(l, e), |pre| + |HEADER|;
    assert bytes[0..] == pre + HEADER + (Lines(l) + post);
    BookStartIs(bytes, 0, pre, Lines(l) + post);
    assert bytes[start..] == Lines(l) + post;
    PositionIsMatch(bytes, start, l, post, e);
    if m < |l| {
      LinesAround(l, m);
      Unsplices(pre + HEADER, Lines(l[..m]), Lines([l[m]]), Lines(l[m + 1..]), post);
    }
  }

  lemma LinesAround(l: seq<Entry>, m: nat)
    requires m < |l|
    ensures Lines(l) == Lines(l[..m]) + Lines([l[m]]) + Lines(l[m + 1..])
    ensures Lines(l[..m + 1]) == Lines(l[..m]) + Lines([l[m]])
    ensures Lines(l[..m] + l[m + 1..]) == Lines(l[..m]) + Lines(l[m + 1..])
  {
    hide *;
    Around(l, m);
    LinesOfThree(l[..m], [l[m]], l[m + 1..]);
  }

  lemma Around(l: seq<Entry>, m: nat)
    requires m < |l|
    ensures l[..m + 1] == l[..m] + [l[m]] && l == l[..m] + [l[m]] + l[m + 1..]
  {}

  lemma LinesOfThree(a: seq<Entry>, x: seq<Entry>, b: seq<Entry>)
    ensures Lines(a + x + b) == Lines(a) + Lines(x) + Lines(b)
    ensures Lines(a + x) == Lines(a) + Lines(x) && Lines(a + b) == Lines(a) + Lines(b)
  {
    LinesAppend(a + x, b);
    LinesAppend(a, x);
    LinesAppend(a, b);
    hide *;
  }

  lemma Unsplices(head: seq<byte>, a: seq<byte>, x: seq<byte>, b: seq<byte>, post: seq<byte>)
    ensures var bytes, p, q := head + (a + x + b + post), |head| + |a|, |head| + |a + x|;
            bytes[..p] + bytes[q..] == head + (a + b + post)
  {
    var bytes, p, q := head + (a + x + b + post), |head| + |a|, |head| + |a + x|;
    assert bytes[..p] == head + a && bytes[q..] == b + post;
  }

  lemma LineTellsEntry(x: Entry, y: Entry, rest: seq<byte>, rest': seq<byte>)
    requires CleanEntry(x) && CleanEntry(y) && EntryLine(x) + rest == EntryLine(y) + rest'
    ensures x == y && rest == rest'
  {
    EntryLineIs(x);
    EntryLineIs(y);
    hide EntryLine, CString, FillAddr, CleanEntry;
    var s := EntryLine(x) + rest;
    FirstLineIs(s, EntryLine(x), rest);
    FirstLineIs(s, EntryLine(y), rest');
  }

  /** Different books are different texts. */
  lemma {:induction false} LinesTellEntries(a: seq<Entry>, b: seq<Entry>)
    requires Clean(a) && Clean(b) && Lines(a) == Lines(b)
    ensures a == b
  {
    hide CleanEntry, EntryLine;
    if a != [] && b != [] {
      LineTellsEntry(a[0], b[0], Lines(a[1..]), Lines(b[1..]));
      LinesTellEntries(a[1..], b[1..]);
      assert a == [a[0]] + a[1..] && b == [b[0]] + b[1..];
    } else {
      if a != [] { EntryLineIs(a[0]); }
      if b != [] { EntryLineIs(b[0]); }
    }
  }

  /**
    Adding an entry to a sorted book and deleting it again restores the file, byte for byte, exactly
    when every entry that equals the new one without regard to case is the new one.
   */
  lemma AddThenDeleteRestores(pre: seq<byte>, l: seq<Entry>, post: seq<byte>, e: Entry)
    requires Preamble(pre) && Clean(l) && NoEntry(post) && CleanEntry(e) && Sorted(l)
    ensures var bytes := Book(pre, l, post);
            && Removed(Added(bytes, e).0, e).1 == Some(0)
            && (Removed(Added(bytes, e).0, e).0 == bytes
              <==> forall i :: 0 <= i < |l| && Compare(l[i], e) == 0 ==> l[i] == e)
  {
    hide *;
    var r := Inserted(l, e);
    var d := Deleted(r, e);
    StaysClean(l, e);
    AddInserts(pre, l, post, e);
    DeleteRemoves(pre, r, post, e);
    AddThenDelete(l, e);
    if Book(pre, d, post) == Book(pre, l, post) { BookTellsEntries(pre, d, l, post); }
  }

  lemma StaysClean(l: seq<Entry>, e: Entry)
    requires Clean(l) && CleanEntry(e)
    ensures var r := Inserted(l, e); Clean(r) && Clean(Deleted(r, e)) && Match(r, e) < |r|
  {
    var r := Inserted(l, e);
    SelfEqual(e);
    hide CleanEntry, Rank, Match, Compare;
    assert r[Rank(l, e)] == e;
  }

  lemma BookTellsEntries(pre: seq<byte>, a: seq<Entry>, b: seq<Entry>, post: seq<byte>)
    requires Clean(a) && Clean(b) && Book(pre, a, post) == Book(pre, b, post)
    ensures a == b
  {
    hide Clean, Lines, HEADER;
    Middle(pre + HEADER, Lines(a), Lines(b), post);
    LinesTellEntries(a, b);
  }

  lemma Middle(head: seq<byte>, a: seq<byte>, b: seq<byte>, post: seq<byte>)
    requires head + (a + post) == head + (b + post)
    ensures a == b
  {
    assert (head + (a + post))[|head|..] == a + post && (head + (b + post))[|head|..] == b + post;
    assert |a| == |b| && (a + post)[..|a|] == a && (b + post)[..|b|] == b;
  }

  // ---------------------------------------------------------------- files that hold none

  /** A file of complete lines without a head is a preamble. */
  lemma {:induction false} NoHeadIsPreamble(bytes: seq<byte>, pos: nat)
    requires pos <= |bytes| && BookStart(bytes, pos) == None && Mailbox.Complete(bytes[pos..])
    ensures Preamble(bytes[pos..])
    decreases |bytes| - pos
  {
    var s := bytes[pos..];
    if s != [] {
      var line, rest := NextLine(s);
      hide BookStart, Preamble, CString, HEADER;
      BookStartLine(bytes, pos, line, rest);
      NoHeadIsPreamble(bytes, pos + |line|);
      PreambleGrows(line, rest);
    }
  }

  /** The first of complete lines. */
  lemma NextLine(s: seq<byte>) returns (line: seq<byte>, rest: seq<byte>)
    requires s != [] && Mailbox.Complete(s)
    ensures s == line + rest && line != [] && Mailbox.Complete(line) && Mailbox.LineLength(line) == |line|
    ensures Mailbox.Complete(rest)
  {
    line, rest := Mailbox.LineOf(s), s[Mailbox.LineLength(s)..];
    Mailbox.FirstLine(s);
    hide Mailbox.LineLength;
    if rest != [] { assert rest[|rest| - 1] == s[|s| - 1]; }
  }

  lemma PreambleGrows(line: seq<byte>, rest: seq<byte>)
    requires line != [] && Mailbox.Complete(line) && Mailbox.LineLength(line) == |line|
    requires CString(line) != HEADER && Preamble(rest) && Mailbox.Complete(rest)
    ensures Preamble(line + rest)
  {
    hide CString, HEADER, Mailbox.LineLength, Mailbox.Complete, Mailbox.LineOf;
    CompleteBoth(line, rest);
    FirstLineIs(line + rest, line, rest);
    LineGoes(line, rest);
  }

  lemma CompleteBoth(line: seq<byte>, rest: seq<byte>)
    requires Mailbox.Complete(line) && Mailbox.Complete(rest)
    ensures Mailbox.Complete(line + rest)
  {}

  lemma LineGoes(line: seq<byte>, rest: seq<byte>)
    requires line != [] && Mailbox.Complete(line) && Mailbox.LineLength(line) == |line|
    ensures Mailbox.LineLength(line + rest) == |line|
  {
    Mailbox.LineLengthPrefix(line, rest);
    hide Mailbox.LineLength;
  }

  /** A head that is put behind an unfinished line is no line of its own. */
  lemma MergedIsNoHead(part: seq<byte>) returns (line: seq<byte>)
    requires part != [] && forall i :: 0 <= i < |part| ==> part[i] != NL
    ensures line == part + HEADER && line != [] && Mailbox.Complete(line) && Mailbox.LineLength(line) == |line|
    ensures CString(line) != HEADER
  {
    line := part + HEADER;
    hide CString, Mailbox.LineLength;
    assert HEADER[|HEADER| - 1] == NL && forall i :: 0 <= i < |HEADER| - 1 ==> HEADER[i] != NL;
    hide HEADER;
    Mailbox.LineLengthIs(line);
    assert line[|HEADER| - 1] != NL;
  }

  /** The first line of a text that does not end in a newline. */
  lemma NextPart(s: seq<byte>) returns (line: seq<byte>, rest: seq<byte>)
    requires !Mailbox.Complete(s)
    ensures s == line + rest && line != []
    ensures rest != [] ==>
              Mailbox.Complete(line) && Mailbox.LineLength(line) == |line| && !Mailbox.Complete(rest)
    ensures rest == [] ==> forall i :: 0 <= i < |line| ==> line[i] != NL
  {
    line, rest := Mailbox.LineOf(s), s[Mailbox.LineLength(s)..];
    Mailbox.FirstLine(s);
    Mailbox.LineShape(s);
    hide Mailbox.LineLength;
    if rest != [] { assert rest[|rest| - 1] == s[|s| - 1]; }
  }

  /** Behind an unfinished line neither the head nor the entry is found as a head. */
  lemma {:induction false} UnfinishedHidesHead(bytes: seq<byte>, pos: nat, e: Entry)
    requires pos <= |bytes| && BookStart(bytes, pos) == None && !Mailbox.Complete(bytes[pos..]) && CleanEntry(e)
    ensures BookStart(bytes + HEADER + EntryLine(e), pos) == None
    decreases |bytes| - pos
  {
    hide *;
    var entry := EntryLine(e);
    var all := bytes + HEADER + entry;
    var line, rest := NextPart(bytes[pos..]);
    assert all[pos..] == bytes[pos..] + HEADER + entry;
    if rest != [] {
      BookStartLine(bytes, pos, line, rest);
      assert all[pos..] == line + (rest + HEADER + entry);
      BookStartLine(all, pos, line, rest + HEADER + entry);
      UnfinishedHidesHead(bytes, pos + |line|, e);
    } else {
      var merged := MergedIsNoHead(line);
      assert all[pos..] == merged + entry;
      BookStartLine(all, pos, merged, entry);
      EntryIsNoHead(all, pos + |merged|, e);
    }
  }

  lemma EntryIsNoHead(bytes: seq<byte>, pos: nat, e: Entry)
    requires pos <= |bytes| && bytes[pos..] == EntryLine(e) && CleanEntry(e)
    ensures BookStart(bytes, pos) == None
  {
    var entry := EntryLine(e);
    EntryLineIs(e);
    assert HEADER[0] != TAB;
    hide CString, HEADER, EntryLine, CleanEntry, Mailbox.LineLength;
    assert bytes[pos..] == entry + [];
    BookStartLine(bytes, pos, entry, []);
    assert bytes[pos + |entry|..] == [];
  }

  /**
    A file without a book gets a head and the entry behind it. The book is found again exactly when
    the file was empty or ended in a newline; then deleting the entry leaves the head, and otherwise
    it fails and changes nothing.
   */
  lemma AddWithoutBook(bytes: seq<byte>, e: Entry)
    requires BookStart(bytes, 0) == None && CleanEntry(e)
    ensures Added(bytes, e) == (bytes + HEADER + EntryLine(e), Some(0))
    ensures BookStart(Added(bytes, e).0, 0).Some? <==> Mailbox.Complete(bytes)
    ensures Removed(Added(bytes, e).0, e)
            == if Mailbox.Complete(bytes) then (bytes + HEADER, Some(0)) else (Added(bytes, e).0, Some(-1))
  {
    AddedToEnd(bytes, e);
    var all := bytes + HEADER + EntryLine(e);
    assert bytes[0..] == bytes;
    hide *;
    if Mailbox.Complete(bytes) {
      NoHeadIsPreamble(bytes, 0);
      OneEntryGoes(bytes, e);
    } else {
      UnfinishedHidesHead(bytes, 0, e);
      NothingRemoved(all, e);
    }
  }

  lemma AddedToEnd(bytes: seq<byte>, e: Entry)
    requires BookStart(bytes, 0) == None
    ensures Added(bytes, e) == (bytes + HEADER + EntryLine(e), Some(0))
  {
    var headed := bytes + HEADER;
    hide BookStart, HEADER, EntryLine;
    assert headed[|headed|..] == Lines([]) + [];
    OrderIsRank(headed, |headed|, [], [], e);
    assert Rank([], e) == 0 && Lines([][..0]) == [];
    assert AddPlace(bytes, e) == Found(|headed|, |headed|);
    assert headed[..|headed|] == headed && headed[|headed|..] == [];
    assert headed + EntryLine(e) + [] == headed + EntryLine(e);
  }

  lemma OneEntryGoes(pre: seq<byte>, e: Entry)
    requires Preamble(pre) && CleanEntry(e)
    ensures var all := pre + HEADER + EntryLine(e);
            BookStart(all, 0).Some? && Removed(all, e) == (pre + HEADER, Some(0))
  {
    var all := pre + HEADER + EntryLine(e);
    SelfEqual(e);
    LinesOne(e);
    hide BookStart, Preamble, CleanEntry, HEADER, EntryLine, Compare, Removed;
    assert all == Book(pre, [e], []) && all[0..] == all;
    BookStartIs(all, 0, pre, EntryLine(e));
    DeleteRemoves(pre, [e], [], e);
    assert Match([e], e) == 0 && Deleted([e], e) == [];
    assert Book(pre, [], []) == pre + HEADER;
  }

  lemma NothingRemoved(bytes: seq<byte>, e: Entry)
    requires BookStart(bytes, 0) == None
    ensures Removed(bytes, e) == (bytes, Some(-1))
  {}
}
