/**
  Saving an uploaded file from a multipart/form-data body: everything before the delimiter, which
  section 5.1.1 of RFC 2046 defines as CRLF, two hyphens and the boundary.
 */
module FormFile {
  import opened Bytes
  import opened MailFile
  import opened Wrappers

  /** The delimiter as bytes of the input. */
  function Wanted(boundary: seq<byte>): (p: seq<int>)
    ensures |p| == 4 + |boundary| && forall i :: 0 <= i < |p| ==> 0 <= p[i] < 256
  {
    [CR, 10, DASH, DASH] + seq(|boundary|, i requires 0 <= i < |boundary| => boundary[i] as int)
  }

  /** The buffer the input is compared with: bytes from 128 up are negative in it. */
  function Delimiter(boundary: seq<byte>): (p: seq<int>)
    ensures |p| == 4 + |boundary| && p[0] == CR
  {
    [CR, 10, DASH, DASH] + seq(|boundary|, i requires 0 <= i < |boundary| => SignedChar(boundary[i]))
  }

  // ---------------------------------------------------------------- the matcher

  /** How much of p is held after one more character c. */
  function Next(p: seq<int>, hold: nat, c: int): nat
    requires hold < |p|
  {
    if c == p[hold] then hold + 1 else if c == p[0] then 1 else 0
  }

  /** Where the match starts that the matcher, holding hold characters at pos, finds in s. */
  function Scan(p: seq<int>, s: seq<byte>, pos: nat, hold: nat): Option<nat>
    requires hold <= |p| && hold <= pos <= |s|
    decreases |s| - pos
  {
    if hold == |p| then Some(pos - hold)
    else if pos == |s| then None
    else Scan(p, s, pos + 1, Next(p, hold, s[pos]))
  }

  /** p agrees with s from i on, as far as the first end characters of s go. */
  ghost predicate Alive(p: seq<int>, s: seq<byte>, i: nat, end: nat)
    requires end <= |s|
  {
    forall k :: 0 <= k < |p| && i + k < end ==> s[i + k] == p[k]
  }

  ghost predicate OccursAt(p: seq<int>, s: seq<byte>, i: nat) {
    i + |p| <= |s| && Alive(p, s, i, |s|)
  }

  /** r is the first place where p occurs in s. */
  ghost predicate IsFirst(p: seq<int>, s: seq<byte>, r: Option<nat>) {
    match r
    case None => forall i: nat :: !OccursAt(p, s, i)
    case Some(n) => OccursAt(p, s, n) && forall i: nat :: i < n ==> !OccursAt(p, s, i)
  }

  /** Wherever the first character of p recurs, p starts over and nothing else follows. */
  ghost predicate Simple(p: seq<int>) {
    forall j {:trigger StartsOver(p, j)} :: 1 <= j < |p| && p[j] == p[0] ==> StartsOver(p, j)
  }

  /** From j on p repeats its own beginning, as far as it goes. */
  ghost predicate StartsOver(p: seq<int>, j: nat) {
    forall k :: 0 <= k < |p| - j ==> p[j + k] == p[k]
  }

  /** What the matcher knows: the last hold characters begin p, and nothing earlier can. */
  ghost predicate Tracks(p: seq<int>, s: seq<byte>, pos: nat, hold: nat) {
    && hold <= |p| && hold <= pos <= |s| && Alive(p, s, pos - hold, pos)
    && forall i: nat :: i < pos - hold ==> !Alive(p, s, i, pos)
  }

  lemma TracksNext(p: seq<int>, s: seq<byte>, pos: nat, hold: nat)
    requires Simple(p) && Tracks(p, s, pos, hold) && hold < |p| && pos < |s|
    ensures Tracks(p, s, pos + 1, Next(p, hold, s[pos]))
  {
    var c := s[pos];
    var hold' := Next(p, hold, c);
    var start := pos - hold;
    forall i: nat {:trigger Alive(p, s, i, pos + 1)} | i < pos + 1 - hold' ensures !Alive(p, s, i, pos + 1) {
      if i < start {
        assert !Alive(p, s, i, pos);
        var k :| 0 <= k < |p| && i + k < pos && s[i + k] != p[k];
      } else if i == start {
        assert s[start + hold] != p[hold];
      } else if i == pos {
        assert s[i + 0] != p[0];
      } else {
        var j := i - start;
        assert s[start + j] == p[j];
        if p[j] == p[0] {
          assert StartsOver(p, j);
          assert p[j + (hold - j)] == p[hold - j];
          assert s[i + (hold - j)] != p[hold - j];
        } else {
          assert s[i + 0] != p[0];
        }
      }
    }
  }

  lemma {:induction false} ScanIsFirst(p: seq<int>, s: seq<byte>, pos: nat, hold: nat)
    requires Simple(p) && Tracks(p, s, pos, hold)
    ensures IsFirst(p, s, Scan(p, s, pos, hold))
    decreases |s| - pos
  {
    if hold == |p| {
      assert forall k :: 0 <= k < |p| ==> s[pos - hold + k] == p[k];
      forall i: nat | i < pos - hold ensures !OccursAt(p, s, i) {
        assert !Alive(p, s, i, pos);
      }
    } else if pos == |s| {
      forall i: nat ensures !OccursAt(p, s, i) {
        if i < pos - hold { assert !Alive(p, s, i, pos); }
      }
    } else {
      TracksNext(p, s, pos, hold);
      ScanIsFirst(p, s, pos + 1, Next(p, hold, s[pos]));
    }
  }

  // ---------------------------------------------------------------- exactly when it is right

  /** Comparing with p, the matcher finds the first w in every input. */
  ghost predicate AlwaysFirst(w: seq<int>, p: seq<int>) {
    forall s: seq<byte> :: IsFirst(w, s, Scan(p, s, 0, 0))
  }

  /** Too few characters are left to complete p. */
  lemma {:induction false} ScanRunsOut(p: seq<int>, s: seq<byte>, pos: nat, hold: nat)
    requires hold < |p| && hold <= pos <= |s| && hold + (|s| - pos) < |p|
    ensures Scan(p, s, pos, hold) == None
    decreases |s| - pos
  {
    if pos < |s| { ScanRunsOut(p, s, pos + 1, Next(p, hold, s[pos])); }
  }

  lemma {:induction false} ScanFollows(p: seq<int>, s: seq<byte>, pos: nat, n: nat)
    requires pos <= n < |p| && n <= |s| && forall k :: 0 <= k < n ==> s[k] == p[k]
    ensures Scan(p, s, pos, pos) == Scan(p, s, n, n)
    decreases n - pos
  {
    if pos < n { ScanFollows(p, s, pos + 1, n); }
  }

  /** The longest agreement of p with itself shifted by j. */
  lemma {:induction false} Agreement(p: seq<int>, j: nat, lo: nat, hi: nat) returns (e: nat)
    requires 1 <= j && lo <= hi < |p| - j && p[j + hi] != p[hi]
    requires forall k :: 0 <= k < lo ==> p[j + k] == p[k]
    ensures lo <= e <= hi && p[j + e] != p[e]
    ensures forall k :: 0 <= k < e ==> p[j + k] == p[k]
    decreases hi - lo
  {
    if p[j + lo] != p[lo] { e := lo; } else { e := Agreement(p, j, lo + 1, hi); }
  }

  /** The first j characters of p, then p: an occurrence that the matcher runs past. */
  function Masked(p: seq<int>, j: nat): (s: seq<byte>)
    requires j < |p| && forall k :: 0 <= k < |p| ==> 0 <= p[k] < 128
    ensures |s| == j + |p|
    ensures forall i :: 0 <= i < |s| ==> s[i] == if i < j then p[i] else p[i - j]
  {
    seq(j + |p|, i requires 0 <= i < j + |p| => if i < j then p[i] else p[i - j])
  }

  lemma MaskedIsMissed(p: seq<int>, j: nat, e: nat)
    requires 1 <= j < |p| && 1 <= e < |p| - j && p[j + e] != p[e]
    requires forall k :: 0 <= k < |p| ==> 0 <= p[k] < 128
    requires forall k :: 0 <= k < e ==> p[j + k] == p[k]
    ensures Scan(p, Masked(p, j), 0, 0) == None
  {
    var s, n := Masked(p, j), j + e;
    forall k | 0 <= k < n ensures s[k] == p[k] {
      if j <= k { assert p[j + (k - j)] == p[k - j]; }
    }
    ScanFollows(p, s, 0, n);
    assert s[n] != p[n];
    ScanRunsOut(p, s, n + 1, Next(p, n, s[n]));
  }

  /** A delimiter that starts over inside itself is missed where its own beginning precedes it. */
  lemma NotSimpleMisses(p: seq<int>)
    requires !Simple(p) && forall k :: 0 <= k < |p| ==> 0 <= p[k] < 128
    ensures !AlwaysFirst(p, p)
  {
    var j :| 1 <= j < |p| && p[j] == p[0] && !StartsOver(p, j);
    hide Simple, Scan, Masked, Alive;
    NotStartingOverMisses(p, j);
    MaskedOccurs(p, j);
    assert !IsFirst(p, Masked(p, j), Scan(p, Masked(p, j), 0, 0));
  }

  lemma NotStartingOverMisses(p: seq<int>, j: nat)
    requires 1 <= j < |p| && p[j] == p[0] && !StartsOver(p, j) && forall k :: 0 <= k < |p| ==> 0 <= p[k] < 128
    ensures Scan(p, Masked(p, j), 0, 0) == None
  {
    var k :| 0 <= k < |p| - j && p[j + k] != p[k];
    hide Scan, Masked, StartsOver;
    var e := Agreement(p, j, 1, k);
    MaskedIsMissed(p, j, e);
  }

  lemma MaskedOccurs(p: seq<int>, j: nat)
    requires j < |p| && forall k :: 0 <= k < |p| ==> 0 <= p[k] < 128
    ensures OccursAt(p, Masked(p, j), j)
  {}

  lemma SevenBitIsWanted(boundary: seq<byte>)
    requires SevenBit(boundary)
    ensures Delimiter(boundary) == Wanted(boundary)
  {}

  /** No input byte equals a negative character, so the matcher never gets past one. */
  lemma {:induction false} NegativeStops(p: seq<int>, s: seq<byte>, pos: nat, hold: nat, m: nat)
    requires 1 <= m < |p| && p[m] < 0 && hold <= m && hold <= pos <= |s|
    ensures Scan(p, s, pos, hold) == None
    decreases |s| - pos
  {
    if pos < |s| { NegativeStops(p, s, pos + 1, Next(p, hold, s[pos]), m); }
  }

  /** A delimiter with a byte from 128 up is found in no input, not even where it stands. */
  lemma HighByteMisses(boundary: seq<byte>, i: nat)
    requires i < |boundary| && boundary[i] >= 128
    ensures forall s: seq<byte> :: Scan(Delimiter(boundary), s, 0, 0) == None
    ensures !AlwaysFirst(Wanted(boundary), Delimiter(boundary))
  {
    var w, p := Wanted(boundary), Delimiter(boundary);
    assert p[4 + i] < 0;
    forall s: seq<byte> ensures Scan(p, s, 0, 0) == None {
      NegativeStops(p, s, 0, 0, 4 + i);
    }
    var all: seq<byte> := seq(|w|, k requires 0 <= k < |w| => w[k]);
    assert OccursAt(w, all, 0);
    assert !IsFirst(w, all, Scan(p, all, 0, 0));
  }

  /** The reset-to-zero matcher finds the first delimiter in every input exactly when it is 7-bit and simple. */
  lemma MatcherRightIffSimple(boundary: seq<byte>)
    ensures AlwaysFirst(Wanted(boundary), Delimiter(boundary)) <==> SevenBit(boundary) && Simple(Delimiter(boundary))
  {
    var p := Delimiter(boundary);
    if !SevenBit(boundary) {
      var i :| 0 <= i < |boundary| && boundary[i] >= 128;
      HighByteMisses(boundary, i);
    } else {
      SevenBitIsWanted(boundary);
      if Simple(p) {
        forall s: seq<byte> ensures IsFirst(p, s, Scan(p, s, 0, 0)) {
          ScanIsFirst(p, s, 0, 0);
        }
      } else {
        NotSimpleMisses(p);
      }
    }
  }

  /** A boundary without CR gives a simple delimiter. */
  lemma NoReturnIsSimple(boundary: seq<byte>)
    requires forall i :: 0 <= i < |boundary| ==> boundary[i] != CR
    ensures Simple(Delimiter(boundary))
  {}

  /**
    With a 7-bit boundary free of CR, what is found is the first occurrence, and nothing is found
    only when there is none.
   */
  lemma FirstDelimiterIsFound(boundary: seq<byte>, input: seq<byte>)
    requires SevenBit(boundary) && forall i :: 0 <= i < |boundary| ==> boundary[i] != CR
    ensures IsFirst(Wanted(boundary), input, Scan(Delimiter(boundary), input, 0, 0))
  {
    SevenBitIsWanted(boundary);
    NoReturnIsSimple(boundary);
    ScanIsFirst(Delimiter(boundary), input, 0, 0);
  }

  /** Concretely: with the boundary CR "A" the matcher misses an occurrence in some input. */
  lemma ReturnInBoundaryMisses()
    ensures !AlwaysFirst(Wanted([13, 65]), Delimiter([13, 65]))
  {
    var p := Delimiter([13, 65]);
    assert p == [13, 10, 45, 45, 13, 65];
    assert p[4 + 1] != p[1];
    assert !StartsOver(p, 4);
    NotSimpleMisses(p);
    SevenBitIsWanted([13, 65]);
  }

  /** CR, LF, two hyphens and the boundary, where they first stand, are found. */
  lemma FoundAt(x: seq<byte>, boundary: seq<byte>, tail: seq<byte>)
    requires SevenBit(boundary) && CR !in boundary
    requires var s := x + [13, 10, 45, 45] + boundary + tail;
             forall i: nat :: i < |x| ==> !([13, 10, 45, 45] + boundary <= s[i..])
    ensures Scan(Delimiter(boundary), x + [13, 10, 45, 45] + boundary + tail, 0, 0) == Some(|x|)
  {
    var s, d, p := x + [13, 10, 45, 45] + boundary + tail, [13, 10, 45, 45] + boundary, Wanted(boundary);
    FirstDelimiterIsFound(boundary, s);
    hide Scan, Delimiter;
    assert |p| == |d| && forall k :: 0 <= k < |p| ==> p[k] == d[k];
    assert s[|x|..][..|d|] == d;
    forall i: nat ensures OccursAt(p, s, i) <==> i + |d| <= |s| && d <= s[i..] { OccursIs(p, d, s, i); }
  }

  lemma OccursIs(p: seq<int>, d: seq<byte>, s: seq<byte>, i: nat)
    requires |p| == |d| && forall k :: 0 <= k < |p| ==> p[k] == d[k]
    ensures OccursAt(p, s, i) <==> i + |d| <= |s| && d <= s[i..]
  {
    if i + |d| <= |s| {
      assert d <= s[i..] <==> s[i..][..|d|] == d;
      assert forall k :: 0 <= k < |d| ==> s[i..][..|d|][k] == s[i + k];
    }
  }

  // ---------------------------------------------------------------- the method

  /** Between two reads: what was saved and what is held make up the input read so far. */
  ghost predicate Saving(p: seq<int>, input: seq<byte>, pos: nat, hold: nat, saved: seq<byte>) {
    && hold <= |p| && pos == |saved| + hold <= |input|
    && saved <= input && Alive(p, input, |saved|, pos) && Scan(p, input, 0, 0) == Scan(p, input, pos, hold)
  }

  lemma SavingNext(p: seq<int>, input: seq<byte>, pos: nat, hold: nat, saved: seq<byte>)
    requires Saving(p, input, pos, hold, saved) && hold < |p| && pos < |input|
    ensures var hold' := Next(p, hold, input[pos]);
            && hold' <= pos + 1
            && Saving(p, input, pos + 1, hold', input[..pos + 1 - hold'])
            && (input[pos] == p[hold] ==> input[..pos + 1 - hold'] == saved)
            && (hold' == 1 ==> input[pos] == p[0])
  {
    var hold' := Next(p, hold, input[pos]);
    var saved' := input[..pos + 1 - hold'];
    if input[pos] == p[hold] {
      assert saved' == saved;
    }
  }

  /**
    Reads input from its beginning and saves what precedes the delimiter. After a match it also
    takes one more character, and a following hyphen; pos is where reading stops.
   */
  method GetFormFileSave(input: seq<byte>, boundary: seq<byte>) returns (err: int, saved: seq<byte>, pos: nat)
    ensures pos <= |input|
    ensures var r := Scan(Delimiter(boundary), input, 0, 0);
            && (err == 0 <==> r.Some?)
            && (r.Some? ==> r.value + 4 + |boundary| <= |input| && saved == input[..r.value])
            && (r.Some? ==> var end := r.value + 4 + |boundary|;
                  pos == if end == |input| then end
                         else if end + 1 < |input| && input[end + 1] == DASH then end + 2 else end + 1)
  {
    var p := Delimiter(boundary);
    hide Delimiter, Saving, Scan, Alive;
    var hold, more := 0, true;
    saved, pos := [], 0;
    assert Saving(p, input, 0, 0, []) by { SavingStarts(p, input); }
    while more
      invariant 0 <= hold <= |p| && pos <= |input|
      invariant more ==> Saving(p, input, pos, hold, saved)
      invariant !more && hold < |p| ==> Scan(p, input, 0, 0) == None
      invariant !more && hold == |p| ==>
          && Saving(p, input, |saved| + hold, hold, saved)
          && pos == if |saved| + hold == |input| then |input| else |saved| + hold + 1
      decreases |input| - pos, more
    {
      SavingSplits(p, input, pos, hold, saved);
      if pos == |input| {
        more := false;
      } else {
        var c := input[pos];
        if hold < |p| {
          SavingNext(p, input, pos, hold, saved);
          if c == p[hold] {
            hold := hold + 1;
          } else if hold > 0 {
            saved := Flush(p, hold, saved, input);
            hold := 0;
            if c == p[hold] { hold := hold + 1; } else { saved := saved + [c]; }
            assert saved == input[..pos + 1 - hold];
          } else {
            saved := saved + [c];
            assert saved == input[..pos + 1];
          }
        } else {
          more := false;
        }
        pos := pos + 1;
      }
    }
    if hold < |p| {
      return -1, saved, pos;
    }
    SavingSplits(p, input, |saved| + hold, hold, saved);
    // one character, and one hyphen if that follows
    if pos < |input| && input[pos] == DASH {
      pos := pos + 1;
    }
    err := 0;
  }

  lemma SavingStarts(p: seq<int>, input: seq<byte>)
    ensures Saving(p, input, 0, 0, [])
  {}

  lemma SavingSplits(p: seq<int>, input: seq<byte>, pos: nat, hold: nat, saved: seq<byte>)
    requires Saving(p, input, pos, hold, saved)
    ensures pos == |saved| + hold <= |input| && saved == input[..|saved|] && hold <= |p|
            && Alive(p, input, |saved|, pos)
    ensures hold == |p| ==> Scan(p, input, 0, 0) == Some(|saved|)
    ensures hold < |p| && pos == |input| ==> Scan(p, input, 0, 0) == None
  {}

  /** Writes out the characters held so far, which are those the input had there. */
  method Flush(p: seq<int>, hold: nat, saved: seq<byte>, ghost input: seq<byte>) returns (saved': seq<byte>)
    requires hold <= |p| && saved <= input && |saved| + hold <= |input| && Alive(p, input, |saved|, |saved| + hold)
    ensures saved' == input[..|saved| + hold]
  {
    saved' := saved;
    for x := 0 to hold
      invariant saved' == input[..|saved| + x]
    {
      assert input[|saved| + x] == p[x];
      saved' := saved' + [p[x]];
    }
  }
}
