/** NUL-terminated strings inside byte arrays. */
module CStrings {
  import opened Bytes

  /** The string that begins at p in s. */
  function StringAt(s: seq<byte>, p: nat): seq<byte> {
    if p <= |s| then CString(s[p..]) else []
  }

  lemma {:induction false} CStringThen(x: seq<byte>, y: seq<byte>)
    requires NUL !in x
    ensures CString(x + [NUL] + y) == x
  {
    if x == [] {
      assert x + [NUL] + y == [NUL] + y;
    } else {
      assert (x + [NUL] + y)[1..] == x[1..] + [NUL] + y;
      CStringThen(x[1..], y);
    }
  }

  /** t is the string at p in s, and its NUL is inside s. */
  ghost predicate Holds(s: seq<byte>, p: nat, t: seq<byte>) {
    p + |t| < |s| && s[p..p + |t|] == t && NUL !in t && s[p + |t|] == NUL
  }

  lemma HoldsString(s: seq<byte>, p: nat, t: seq<byte>)
    requires Holds(s, p, t)
    ensures StringAt(s, p) == t
  {
    CStringThen(t, s[p + |t| + 1..]);
    hide CString;
    assert s[p..] == t + [NUL] + s[p + |t| + 1..];
  }

  lemma {:induction false} CStringStops(s: seq<byte>)
    requires s != [] && s[|s| - 1] == NUL
    ensures |CString(s)| < |s| && s[|CString(s)|] == NUL
  {
    if s[0] != NUL { CStringStops(s[1..]); }
  }

  lemma StringHolds(s: seq<byte>, p: nat)
    requires p < |s| && s[|s| - 1] == NUL
    ensures Holds(s, p, StringAt(s, p))
  {
    CStringStops(s[p..]);
    hide CString;
  }

  lemma NoNul(s: seq<byte>, p: nat, t: seq<byte>)
    requires Holds(s, p, t)
    ensures NUL !in t
  {}

  lemma HoldsFits(s: seq<byte>, p: nat, t: seq<byte>)
    requires Holds(s, p, t)
    ensures p + |t| < |s|
  {}

  lemma HoldsSame(s: seq<byte>, s': seq<byte>, p: nat, t: seq<byte>)
    requires Holds(s, p, t) && |s'| == |s| && forall i :: p <= i <= p + |t| ==> s'[i] == s[i]
    ensures Holds(s', p, t)
  {
    assert s'[p..p + |t|] == s[p..p + |t|];
  }

  /** strchr: where c first is in the string t at p, or -1. */
  method Strchr(a: array<byte>, p: nat, c: byte, ghost t: seq<byte>) returns (r: int)
    requires Holds(a[..], p, t) && c != NUL
    ensures r < 0 ==> r == -1 && c !in t
    ensures r >= 0 ==> p <= r < p + |t| && t[r - p] == c && c !in t[..r - p]
  {
    r := p;
    while a[r] != NUL && a[r] != c
      invariant p <= r <= p + |t| && c !in t[..r - p]
      decreases p + |t| - r
    {
      assert a[..][p..p + |t|][r - p] == a[r];
      r := r + 1;
    }
    assert r < p + |t| ==> a[..][p..p + |t|][r - p] == a[r];
    if a[r] == NUL {
      assert t[..|t|] == t;
      r := -1;
    }
  }
}
