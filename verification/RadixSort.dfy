/** Radix sort by decimal digits, least significant first, each pass a stable counting sort. */
module RadixSort {
  import opened Integers

  function Digit(v: nat, exp: nat): (d: nat)
    requires exp > 0
    ensures d < 10
  {
    v / exp % 10
  }

  /** The elements of s with digit d, in order. */
  function Filter(s: seq<nat>, exp: nat, d: nat): (r: seq<nat>)
    requires exp > 0
    ensures |r| <= |s| && forall i :: 0 <= i < |r| ==> Digit(r[i], exp) == d
  {
    if s == [] then [] else
    var n := |s| - 1;
    Filter(s[..n], exp, d) + if Digit(s[n], exp) == d then [s[n]] else []
  }

  /** The elements with digits below d, digit by digit. */
  function Below(s: seq<nat>, exp: nat, d: nat): seq<nat>
    requires exp > 0
  {
    if d == 0 then [] else Below(s, exp, d - 1) + Filter(s, exp, d - 1)
  }

  /** s sorted by one digit, equal digits in their old order. */
  function ByDigit(s: seq<nat>, exp: nat): seq<nat>
    requires exp > 0
  {
    Below(s, exp, 10)
  }

  // ---------------------------------------------------------------- a pass permutes and sorts

  lemma {:induction false} FilterCounts(s: seq<nat>, exp: nat, d: nat, x: nat)
    requires exp > 0
    ensures multiset(Filter(s, exp, d))[x] == if Digit(x, exp) == d then multiset(s)[x] else 0
  {
    if s != [] {
      var n := |s| - 1;
      FilterCounts(s[..n], exp, d, x);
      hide Digit;
      assert s == s[..n] + [s[n]];
    }
  }

  lemma {:induction false} BelowCounts(s: seq<nat>, exp: nat, d: nat, x: nat)
    requires exp > 0
    ensures multiset(Below(s, exp, d))[x] == if Digit(x, exp) < d then multiset(s)[x] else 0
  {
    hide Filter, Digit;
    if d > 0 {
      BelowCounts(s, exp, d - 1, x);
      FilterCounts(s, exp, d - 1, x);
      BothCount(Below(s, exp, d - 1), Filter(s, exp, d - 1), x);
    }
  }

  lemma BothCount(a: seq<nat>, b: seq<nat>, x: nat)
    ensures multiset(a + b)[x] == multiset(a)[x] + multiset(b)[x]
  {}

  lemma ByDigitPermutes(s: seq<nat>, exp: nat)
    requires exp > 0
    ensures multiset(ByDigit(s, exp)) == multiset(s) && |ByDigit(s, exp)| == |s|
  {
    var r := ByDigit(s, exp);
    forall x ensures multiset(r)[x] == multiset(s)[x] { BelowCounts(s, exp, 10, x); }
    hide *;
    assert multiset(r) == multiset(s);
    assert |multiset(r)| == |r| && |multiset(s)| == |s|;
  }

  function Mod(v: nat, m: nat): (r: nat)
    requires m > 0
    ensures r < m
  {
    v % m
  }

  /** Sorted by the value modulo m. */
  ghost predicate SortedMod(s: seq<nat>, m: nat)
    requires m > 0
  {
    forall i, j :: 0 <= i < j < |s| ==> Mod(s[i], m) <= Mod(s[j], m)
  }

  lemma {:induction false} FilterMember(s: seq<nat>, exp: nat, d: nat, x: nat)
    requires exp > 0 && x in Filter(s, exp, d)
    ensures x in s && Digit(x, exp) == d
  {
    var n := |s| - 1;
    if x in Filter(s[..n], exp, d) { FilterMember(s[..n], exp, d, x); }
  }

  lemma {:induction false} FilterSorted(s: seq<nat>, exp: nat, d: nat)
    requires exp > 0 && SortedMod(s, exp)
    ensures SortedMod(Filter(s, exp, d), exp)
  {
    if s != [] {
      var n := |s| - 1;
      FilterSorted(s[..n], exp, d);
      forall i | 0 <= i < |Filter(s[..n], exp, d)| ensures Mod(Filter(s[..n], exp, d)[i], exp) <= Mod(s[n], exp) {
        FilterMember(s[..n], exp, d, Filter(s[..n], exp, d)[i]);
      }
    }
  }

  /** The digit is the leading part of the value modulo 10 * exp. */
  lemma ModByDigit(v: nat, exp: nat)
    requires exp > 0
    ensures Mod(v, 10 * exp) == Digit(v, exp) * exp + Mod(v, exp)
  {
    var w, r := v / exp, v % exp;
    Product(v, exp, w, r, w / 10, w % 10);
    Small(w % 10, exp, r);
    Remainder(v, 10 * exp, w / 10, w % 10 * exp + r);
  }

  lemma Product(v: nat, exp: nat, w: nat, r: nat, q: nat, d: nat)
    requires v == w * exp + r && w == 10 * q + d
    ensures v == (10 * exp) * q + (d * exp + r)
  {
    Distribute(exp, q, d);
  }

  lemma Distribute(exp: nat, q: nat, d: nat)
    ensures exp * (10 * q + d) == (10 * exp) * q + d * exp
  {}

  lemma Small(d: nat, exp: nat, r: nat)
    requires d < 10 && r < exp
    ensures d * exp + r < 10 * exp
  {
    assert d * exp <= 9 * exp;
  }

  lemma Remainder(v: nat, m: nat, q: nat, r: nat)
    requires m > 0 && v == m * q + r && r < m
    ensures v % m == r
  {
    var k := v / m - q;
    var t := v % m;
    assert v == m * (v / m) + t;
    assert m * k == m * (v / m) - m * q;
    AtLeast(m, k);
  }

  lemma AtLeast(m: nat, k: int)
    requires m > 0
    ensures k >= 1 ==> m * k >= m
    ensures k <= -1 ==> m * k + m <= 0
    ensures k == 0 ==> m * k == 0
  {}

  /** With the same digit, or a smaller one, the order by the lower digits decides. */
  lemma DigitOrder(x: nat, y: nat, exp: nat)
    requires exp > 0
    ensures Digit(x, exp) < Digit(y, exp) ==> Mod(x, 10 * exp) <= Mod(y, 10 * exp)
    ensures Digit(x, exp) == Digit(y, exp) && Mod(x, exp) <= Mod(y, exp) ==> Mod(x, 10 * exp) <= Mod(y, 10 * exp)
  {
    hide Mod, Digit;
    ModByDigit(x, exp);
    ModByDigit(y, exp);
    if Digit(x, exp) < Digit(y, exp) {
      var k := Digit(y, exp) - Digit(x, exp);
      assert Digit(y, exp) * exp == Digit(x, exp) * exp + k * exp;
      AtLeast(exp, k);
    }
  }

  lemma {:induction false} BelowDigits(s: seq<nat>, exp: nat, d: nat)
    requires exp > 0
    ensures forall i :: 0 <= i < |Below(s, exp, d)| ==> Digit(Below(s, exp, d)[i], exp) < d
  {
    if d > 0 { BelowDigits(s, exp, d - 1); }
  }

  lemma {:induction false} BelowSorted(s: seq<nat>, exp: nat, d: nat)
    requires exp > 0 && SortedMod(s, exp)
    ensures SortedMod(Below(s, exp, d), 10 * exp)
  {
    hide Filter, Digit, Mod;
    if d > 0 {
      var a, b := Below(s, exp, d - 1), Filter(s, exp, d - 1);
      BelowSorted(s, exp, d - 1);
      BelowDigits(s, exp, d - 1);
      FilterSorted(s, exp, d - 1);
      forall i, j | 0 <= i < j < |a + b| ensures Mod((a + b)[i], 10 * exp) <= Mod((a + b)[j], 10 * exp) {
        DigitOrder((a + b)[i], (a + b)[j], exp);
      }
      assert SortedMod(a + b, 10 * exp);
    }
  }

  /** A pass over an array sorted by the lower digits leaves it sorted by one digit more. */
  lemma ByDigitSorts(s: seq<nat>, exp: nat)
    requires exp > 0 && SortedMod(s, exp)
    ensures SortedMod(ByDigit(s, exp), 10 * exp)
  {
    BelowSorted(s, exp, 10);
  }

  // ---------------------------------------------------------------- the counting sort in place

  method GetMax(arr: array<nat>) returns (mx: nat)
    requires arr.Length > 0
    ensures mx in arr[..] && forall i :: 0 <= i < arr.Length ==> arr[i] <= mx
  {
    mx := arr[0];
    for i := 1 to arr.Length
      invariant mx in arr[..] && forall j :: 0 <= j < i ==> arr[j] <= mx
    {
      if arr[i] > mx {
        mx := arr[i];
      }
    }
  }

  lemma FilterNext(s: seq<nat>, exp: nat, i: nat, d: nat)
    requires exp > 0 && i < |s|
    ensures Filter(s[..i + 1], exp, d) == Filter(s[..i], exp, d) + if Digit(s[i], exp) == d then [s[i]] else []
  {
    assert s[..i + 1][..i] == s[..i];
  }

  /** What is kept of a beginning of s begins what is kept of s. */
  lemma {:induction false} FilterPrefix(s: seq<nat>, exp: nat, i: nat, d: nat)
    requires exp > 0 && i <= |s|
    ensures Filter(s[..i], exp, d) <= Filter(s, exp, d)
    decreases |s| - i
  {
    if i < |s| {
      FilterNext(s, exp, i, d);
      FilterPrefix(s, exp, i + 1, d);
    } else {
      assert s[..i] == s;
    }
  }

  lemma {:induction false} BelowGrows(s: seq<nat>, exp: nat, d: nat, e: nat)
    requires exp > 0 && d < e
    ensures |Below(s, exp, d)| + |Filter(s, exp, d)| <= |Below(s, exp, e)|
  {
    if e > d + 1 { BelowGrows(s, exp, d, e - 1); }
  }

  lemma BelowFits(s: seq<nat>, exp: nat, d: nat)
    requires exp > 0 && d < 10
    ensures |Below(s, exp, d)| + |Filter(s, exp, d)| <= |s|
  {
    BelowGrows(s, exp, d, 10);
    ByDigitPermutes(s, exp);
  }

  /** count holds, for each digit, how many of the first i elements have it. */
  ghost predicate Counted(count: seq<nat>, s: seq<nat>, exp: nat, i: nat)
    requires exp > 0 && i <= |s|
  {
    |count| == 10 && forall d :: 0 <= d < 10 ==> count[d] == |Filter(s[..i], exp, d)|
  }

  /** count holds, for each digit, where the next of the first i elements with it belongs, plus one. */
  ghost predicate Placing(count: seq<nat>, s: seq<nat>, exp: nat, i: nat)
    requires exp > 0 && i <= |s|
  {
    |count| == 10 && forall d :: 0 <= d < 10 ==> count[d] == |Below(s, exp, d)| + |Filter(s[..i], exp, d)|
  }

  /** The r-th element with digit d is where it belongs. */
  ghost predicate PlacedAt(output: seq<nat>, s: seq<nat>, exp: nat, d: nat, r: nat)
    requires exp > 0 && r < |Filter(s, exp, d)|
  {
    |Below(s, exp, d)| + r < |output| && output[|Below(s, exp, d)| + r] == Filter(s, exp, d)[r]
  }

  /** The elements from i on are where they belong. */
  ghost predicate Placed(output: seq<nat>, s: seq<nat>, exp: nat, i: nat)
    requires exp > 0 && i <= |s|
  {
    |output| == |s| &&
    forall d, r :: 0 <= d < 10 && |Filter(s[..i], exp, d)| <= r < |Filter(s, exp, d)| ==> PlacedAt(output, s, exp, d, r)
  }

  lemma CountedNext(count: seq<nat>, s: seq<nat>, exp: nat, i: nat)
    requires exp > 0 && i < |s| && Counted(count, s, exp, i)
    ensures var d := Digit(s[i], exp); Counted(count[d := count[d] + 1], s, exp, i + 1)
  {
    var d := Digit(s[i], exp);
    forall e | 0 <= e < 10
      ensures Filter(s[..i + 1], exp, e) == Filter(s[..i], exp, e) + if e == d then [s[i]] else []
    {
      FilterNext(s, exp, i, e);
    }
    hide Filter, Digit;
  }

  /** Where element i belongs. */
  lemma PlaceOf(count: seq<nat>, s: seq<nat>, exp: nat, i: nat)
    requires exp > 0 && i < |s| && Placing(count, s, exp, i + 1)
    ensures var d := Digit(s[i], exp);
            var r := |Filter(s[..i], exp, d)|;
            && |count| == 10 && r < |Filter(s, exp, d)| && Filter(s, exp, d)[r] == s[i]
            && 0 < count[d] <= |s| && count[d] - 1 == |Below(s, exp, d)| + r
            && Placing(count[d := count[d] - 1], s, exp, i)
  {
    var d := Digit(s[i], exp);
    FilterPrefix(s, exp, i + 1, d);
    forall e | 0 <= e < 10
      ensures Filter(s[..i + 1], exp, e) == Filter(s[..i], exp, e) + if e == d then [s[i]] else []
    {
      FilterNext(s, exp, i, e);
    }
    BelowFits(s, exp, d);
    hide Filter, Digit, Below;
    assert Filter(s[..i + 1], exp, d)[|Filter(s[..i], exp, d)|] == s[i];
  }

  /** The next element from the end goes to its place, where nothing was put before. */
  lemma PlacedNext(count: seq<nat>, output: seq<nat>, s: seq<nat>, exp: nat, i: nat)
    requires exp > 0 && i < |s| && Placing(count, s, exp, i + 1) && Placed(output, s, exp, i + 1)
    ensures var d := Digit(s[i], exp);
            && |count| == 10 && 0 < count[d] <= |output|
            && Placing(count[d := count[d] - 1], s, exp, i)
            && Placed(output[count[d] - 1 := s[i]], s, exp, i)
  {
    hide *;
    PlaceOf(count, s, exp, i);
    PlacedSize(output, s, exp, i + 1);
    var d := Digit(s[i], exp);
    var p := count[d] - 1;
    AllStillPlaced(output, output[p := s[i]], s, exp, i, d, p);
  }

  lemma PlacedSize(output: seq<nat>, s: seq<nat>, exp: nat, i: nat)
    requires exp > 0 && i <= |s| && Placed(output, s, exp, i)
    ensures |output| == |s|
  {}

  lemma AllStillPlaced(output: seq<nat>, output': seq<nat>, s: seq<nat>, exp: nat, i: nat, d: nat, p: nat)
    requires exp > 0 && i < |s| && Placed(output, s, exp, i + 1) && d == Digit(s[i], exp)
    requires var r := |Filter(s[..i], exp, d)|;
             r < |Filter(s, exp, d)| && Filter(s, exp, d)[r] == s[i] && p == |Below(s, exp, d)| + r
    requires |output| == |s| && p < |s| && output' == output[p := s[i]]
    ensures Placed(output', s, exp, i)
  {
    hide Filter, Below, Digit, PlacedAt;
    forall e, r | 0 <= e < 10 && |Filter(s[..i], exp, e)| <= r < |Filter(s, exp, e)|
      ensures PlacedAt(output', s, exp, e, r)
    {
      OneStillPlaced(output, s, exp, i, d, e, r);
    }
  }

  lemma OneStillPlaced(output: seq<nat>, s: seq<nat>, exp: nat, i: nat, d: nat, e: nat, r: nat)
    requires exp > 0 && i < |s| && Placed(output, s, exp, i + 1) && d == Digit(s[i], exp)
    requires var r0 := |Filter(s[..i], exp, d)|;
             r0 < |Filter(s, exp, d)| && Filter(s, exp, d)[r0] == s[i] && |Below(s, exp, d)| + r0 < |output|
    requires e < 10 && |Filter(s[..i], exp, e)| <= r < |Filter(s, exp, e)|
    ensures PlacedAt(output[|Below(s, exp, d)| + |Filter(s[..i], exp, d)| := s[i]], s, exp, e, r)
  {
    hide *;
    var r0 := |Filter(s[..i], exp, d)|;
    FilterNext(s, exp, i, e);
    if e == d && r == r0 {
      JustPlaced(output, s, exp, d, r0, s[i]);
    } else {
      WasPlaced(output, s, exp, i + 1, e, r);
      StillPlaced(output, s, exp, e, r, d, r0, s[i]);
    }
  }

  lemma WasPlaced(output: seq<nat>, s: seq<nat>, exp: nat, i: nat, d: nat, r: nat)
    requires exp > 0 && i <= |s| && Placed(output, s, exp, i) && d < 10
             && |Filter(s[..i], exp, d)| <= r < |Filter(s, exp, d)|
    ensures PlacedAt(output, s, exp, d, r)
  {
    hide PlacedAt, Filter;
  }

  lemma JustPlaced(output: seq<nat>, s: seq<nat>, exp: nat, d: nat, r: nat, x: nat)
    requires exp > 0 && r < |Filter(s, exp, d)| && |Below(s, exp, d)| + r < |output| && Filter(s, exp, d)[r] == x
    ensures PlacedAt(output[|Below(s, exp, d)| + r := x], s, exp, d, r)
  {}

  /** Different elements belong to different places. */
  lemma StillPlaced(output: seq<nat>, s: seq<nat>, exp: nat, e: nat, r: nat, d: nat, r0: nat, x: nat)
    requires exp > 0 && r < |Filter(s, exp, e)| && r0 < |Filter(s, exp, d)| && (e != d || r != r0)
    requires PlacedAt(output, s, exp, e, r) && |Below(s, exp, d)| + r0 < |output|
    ensures PlacedAt(output[|Below(s, exp, d)| + r0 := x], s, exp, e, r)
  {
    hide Below, Filter;
    if e < d { BelowGrows(s, exp, e, d); } else if d < e { BelowGrows(s, exp, d, e); }
  }

  lemma {:induction false} AllPlaced(output: seq<nat>, s: seq<nat>, exp: nat, d: nat)
    requires exp > 0 && d <= 10 && Placed(output, s, exp, 0)
    ensures |Below(s, exp, d)| <= |output| && output[..|Below(s, exp, d)|] == Below(s, exp, d)
  {
    hide Filter, PlacedAt;
    if d > 0 {
      AllPlaced(output, s, exp, d - 1);
      FilterOfNothing(exp, d - 1);
      var a, b := Below(s, exp, d - 1), Filter(s, exp, d - 1);
      BelowFits(s, exp, d - 1);
      assert s[..0] == [];
      forall r | 0 <= r < |b| ensures |a| + r < |output| && output[|a| + r] == b[r] {
        assert PlacedAt(output, s, exp, d - 1, r);
        PlacedIs(output, s, exp, d - 1, r);
      }
      assert output[..|a| + |b|] == a + b;
    }
  }

  lemma FilterOfNothing(exp: nat, d: nat)
    requires exp > 0
    ensures Filter([], exp, d) == []
  {}

  lemma PlacedIs(output: seq<nat>, s: seq<nat>, exp: nat, d: nat, r: nat)
    requires exp > 0 && r < |Filter(s, exp, d)| && PlacedAt(output, s, exp, d, r)
    ensures |Below(s, exp, d)| + r < |output| && output[|Below(s, exp, d)| + r] == Filter(s, exp, d)[r]
  {}

  /** The counts of all digits up to each one are where that digit's elements end. */
  ghost predicate Summed(count: seq<nat>, s: seq<nat>, exp: nat, i: nat)
    requires exp > 0
  {
    |count| == 10 && forall d :: 0 <= d < 10 ==>
      count[d] == if d < i then |Below(s, exp, d + 1)| else |Filter(s, exp, d)|
  }

  lemma SummedStarts(count: seq<nat>, s: seq<nat>, exp: nat)
    requires exp > 0 && Counted(count, s, exp, |s|)
    ensures Summed(count, s, exp, 1)
  {
    assert s[..|s|] == s;
    assert Below(s, exp, 0) == [];
    assert Below(s, exp, 1) == Below(s, exp, 0) + Filter(s, exp, 0);
  }

  lemma SummedNext(count: seq<nat>, s: seq<nat>, exp: nat, i: nat)
    requires exp > 0 && 0 < i < 10 && Summed(count, s, exp, i)
    ensures Summed(count[i := count[i] + count[i - 1]], s, exp, i + 1)
  {
    assert Below(s, exp, i + 1) == Below(s, exp, i) + Filter(s, exp, i);
    hide Below, Filter;
  }

  lemma SummedEnds(count: seq<nat>, output: seq<nat>, s: seq<nat>, exp: nat)
    requires exp > 0 && Summed(count, s, exp, 10) && |output| == |s|
    ensures Placing(count, s, exp, |s|) && Placed(output, s, exp, |s|)
  {
    assert s[..|s|] == s;
    forall d | 0 <= d < 10 ensures Below(s, exp, d + 1) == Below(s, exp, d) + Filter(s, exp, d) {}
    hide Below, Filter;
  }

  lemma CountedNothing(count: seq<nat>, s: seq<nat>, exp: nat)
    requires exp > 0 && |count| == 10 && forall d :: 0 <= d < 10 ==> count[d] == 0
    ensures Counted(count, s, exp, 0)
  {
    assert s[..0] == [];
  }

  lemma PlacedEnds(output: seq<nat>, s: seq<nat>, exp: nat)
    requires exp > 0 && Placed(output, s, exp, 0)
    ensures output == ByDigit(s, exp)
  {
    AllPlaced(output, s, exp, 10);
    ByDigitPermutes(s, exp);
    hide Below, Placed;
    assert output[..|output|] == output;
  }

  method CountDigits(arr: array<nat>, exp: nat) returns (count: array<nat>)
    requires exp > 0
    ensures fresh(count) && Counted(count[..], arr[..], exp, arr.Length)
  {
    count := new nat[10](i => 0);
    CountedNothing(count[..], arr[..], exp);
    hide *;
    for i := 0 to arr.Length
      invariant Counted(count[..], arr[..], exp, i) && count.Length == 10
    {
      CountedNext(count[..], arr[..], exp, i);
      ghost var before := count[..];
      var d := Digit(arr[i], exp);
      count[d] := count[d] + 1;
      assert count[..] == before[d := before[d] + 1];
    }
  }

  method SumCounts(count: array<nat>, ghost s: seq<nat>, exp: nat)
    requires exp > 0 && count.Length == 10 && Counted(count[..], s, exp, |s|)
    modifies count
    ensures Summed(count[..], s, exp, 10)
  {
    hide *;
    SummedStarts(count[..], s, exp);
    for i := 1 to 10
      invariant Summed(count[..], s, exp, i)
    {
      SummedNext(count[..], s, exp, i);
      ghost var before := count[..];
      count[i] := count[i] + count[i - 1];
      assert count[..] == before[i := before[i] + before[i - 1]];
    }
  }

  /** Sorts arr by one digit. */
  method CountSort(arr: array<nat>, exp: nat)
    requires exp > 0
    modifies arr
    ensures arr[..] == ByDigit(old(arr[..]), exp)
  {
    ghost var s := arr[..];
    var count := CountDigits(arr, exp);
    assert count.Length == 10;
    hide *;
    SumCounts(count, s, exp);
    var output := new nat[arr.Length](i => 0);
    SummedEnds(count[..], output[..], s, exp);
    BuildOutput(arr, exp, count, output);
    CopyBack(arr, output);
  }

  method CopyBack(arr: array<nat>, output: array<nat>)
    requires arr != output && output.Length == arr.Length
    modifies arr
    ensures arr[..] == output[..]
  {
    for i := 0 to arr.Length
      invariant arr[..i] == output[..i]
    {
      arr[i] := output[i];
    }
    assert arr[..] == arr[..arr.Length] && output[..] == output[..arr.Length];
  }

  method BuildOutput(arr: array<nat>, exp: nat, count: array<nat>, output: array<nat>)
    requires exp > 0 && arr != output && arr != count && count != output && count.Length == 10
             && output.Length == arr.Length
    requires Placing(count[..], arr[..], exp, arr.Length) && Placed(output[..], arr[..], exp, arr.Length)
    modifies count, output
    ensures output[..] == ByDigit(arr[..], exp)
  {
    hide *;
    for i := arr.Length downto 0
      invariant Placing(count[..], arr[..], exp, i) && Placed(output[..], arr[..], exp, i)
    {
      PlaceElement(arr, exp, count, output, i);
    }
    PlacedEnds(output[..], arr[..], exp);
  }

  method PlaceElement(arr: array<nat>, exp: nat, count: array<nat>, output: array<nat>, i: nat)
    requires exp > 0 && arr != output && arr != count && count != output && count.Length == 10
             && output.Length == arr.Length > i
    requires Placing(count[..], arr[..], exp, i + 1) && Placed(output[..], arr[..], exp, i + 1)
    modifies count, output
    ensures Placing(count[..], arr[..], exp, i) && Placed(output[..], arr[..], exp, i)
  {
    hide *;
    var d := Digit(arr[i], exp);
    PlacedNext(count[..], output[..], arr[..], exp, i);
    ghost var counts, places := count[..], output[..];
    output[count[d] - 1] := arr[i];
    count[d] := count[d] - 1;
    assert count[..] == counts[d := counts[d] - 1] && output[..] == places[counts[d] - 1 := arr[i]];
  }

  // ---------------------------------------------------------------- all passes

  ghost predicate Sorted(s: seq<nat>) {
    forall i, j :: 0 <= i < j < |s| ==> s[i] <= s[j]
  }

  /** Sorted by the lower digits is sorted when the values have no others. */
  lemma SortedByAllDigits(s: seq<nat>, m: nat)
    requires m > 0 && SortedMod(s, m) && forall x :: x in s ==> x < m
    ensures Sorted(s)
  {
    forall i | 0 <= i < |s| ensures Mod(s[i], m) == s[i] { assert s[i] in s; SmallMod(s[i], m); }
  }

  lemma SmallMod(x: nat, m: nat)
    requires x < m
    ensures Mod(x, m) == x
  {}

  predicate MoreDigits(max: nat, exp: nat)
    requires exp > 0
  {
    max / exp > 0
  }

  lemma DivPositive(x: nat, e: nat)
    requires e > 0
    ensures MoreDigits(x, e) <==> e <= x
  {
    assert x == e * (x / e) + x % e;
    AtLeast(e, x / e);
  }

  /** One of the powers of ten that an int holds, or something from the next one on. */
  predicate IsPower(exp: nat) {
    exp in {1, 10, 100, 1_000, 10_000, 100_000, 1_000_000, 10_000_000, 100_000_000, 1_000_000_000}
      || exp >= 10_000_000_000
  }

  lemma PowersFit(max: nat, exp: nat, prev: nat)
    requires exp > max && IsPower(exp)
    requires exp == 1 || (exp == 10 * prev && prev <= max && IsPower(prev))
    ensures exp <= INT_MAX <==> max < 1_000_000_000
  {}

  /**
    Sorts a non-empty array; top is the largest power of ten computed, which as an int is right
    for all values below 10^9 and overflows for others.
   */
  method Radixsort(arr: array<nat>) returns (ghost m: nat, ghost top: nat)
    requires arr.Length > 0
    modifies arr
    ensures Sorted(arr[..]) && multiset(arr[..]) == multiset(old(arr[..]))
    ensures IsMax(m, arr[..]) && top > m
    ensures top <= INT_MAX <==> m < 1_000_000_000
  {
    var max := GetMax(arr);
    m := max;
    var exp := 1;
    ghost var prev, before := 0, arr[..];
    DivPositive(max, exp);
    PassesStart(before, max);
    hide *;
    while MoreDigits(max, exp)
      invariant exp > 0 && (MoreDigits(max, exp) <==> exp <= max) && Passes(arr[..], before, max, exp, prev)
      decreases if exp <= max then 1 + max - exp else 0
    {
      PassesNext(arr[..], before, max, exp, prev);
      prev := exp;
      CountSort(arr, exp);
      exp := exp * 10;
      DivPositive(max, exp);
    }
    top := exp;
    PassesEnd(arr[..], before, max, exp, prev);
  }

  ghost predicate IsMax(m: nat, s: seq<nat>) {
    m in s && forall x :: x in s ==> x <= m
  }

  /** After the passes below exp: sorted by the lower digits, and a permutation; prev is the last power used. */
  ghost predicate Passes(s: seq<nat>, before: seq<nat>, max: nat, exp: nat, prev: nat)
    requires exp > 0
  {
    && IsMax(max, before) && SortedMod(s, exp) && multiset(s) == multiset(before) && IsPower(exp)
    && (exp == 1 || (exp == 10 * prev && prev <= max && IsPower(prev)))
  }

  lemma PassesStart(s: seq<nat>, max: nat)
    requires max in s && forall i :: 0 <= i < |s| ==> s[i] <= max
    ensures Passes(s, s, max, 1, 0)
  {}

  lemma PassesNext(s: seq<nat>, before: seq<nat>, max: nat, exp: nat, prev: nat)
    requires 0 < exp <= max && Passes(s, before, max, exp, prev)
    ensures Passes(ByDigit(s, exp), before, max, exp * 10, exp)
  {
    ByDigitSorts(s, exp);
    ByDigitPermutes(s, exp);
    hide SortedMod, ByDigit;
  }

  lemma PassesEnd(s: seq<nat>, before: seq<nat>, max: nat, exp: nat, prev: nat)
    requires exp > max && Passes(s, before, max, exp, prev)
    ensures Sorted(s) && multiset(s) == multiset(before) && IsMax(max, s)
    ensures exp <= INT_MAX <==> max < 1_000_000_000
  {
    hide SortedMod;
    PowersFit(max, exp, prev);
    SameMembers(s, before, max);
    SortedByAllDigits(s, exp);
  }

  lemma SameMembers(s: seq<nat>, t: seq<nat>, max: nat)
    requires multiset(s) == multiset(t) && max in t && forall x :: x in t ==> x <= max
    ensures max in s && forall x :: x in s ==> x <= max
  {
    assert max in multiset(s);
    forall x | x in s ensures x in t { assert x in multiset(t); }
  }
}
