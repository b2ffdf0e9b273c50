/**
  Sending an attachment as base64 and displaying it again, section 6.8 of RFC 2045. The masks and
  shifts of the original, all on non-negative ints, are written with / and %.
 */
module Base64 {
  import opened Bytes
  import opened MailFile
  import opened Mailbox
  import opened Border
  import opened Sequences
  import opened Wrappers

  const PAD: byte := 61

  /** Stands for a byte that the attachment no longer has. */
  const MISSING := 0xff00

  // ---------------------------------------------------------------- one group of three bytes

  /** (x & mask) >> shift, where k is 2 to the shift and m is as large as the shifted mask allows. */
  function Field(x: int, k: int, m: int): (r: int)
    requires k > 0 && m > 0
    ensures 0 <= r < m
  {
    x / k % m
  }

  function CharOf(c: int): byte {
    if 0 <= c <= 25 then c + 65
    else if 26 <= c <= 51 then c - 26 + 97
    else if 52 <= c <= 61 then c - 52 + 48
    else if c == 62 then 43
    else if c == 63 then 47
    else 0
  }

  /** 64 for the padding, -1 for bytes outside the alphabet. */
  function ValueOf(c: byte): (v: int)
    ensures -1 <= v <= 64
  {
    if 65 <= c <= 90 then c - 65
    else if 97 <= c <= 122 then c - 97 + 26
    else if 48 <= c <= 57 then c - 48 + 52
    else if c == 43 then 62
    else if c == 47 then 63
    else if c == PAD then 64
    else -1
  }

  /** The 24 bits of three bytes as one number. */
  function Bits(a: int, b: int, c: int): int {
    a * 65536 + b * 256 + c
  }

  /** Byte x of g, zero where g has run out. */
  function ByteAt(g: seq<byte>, x: nat): byte {
    if x < |g| then g[x] else 0
  }

  /** The 24 bits of one to three bytes, six at a time. */
  function Sixes(g: seq<byte>): (r: seq<int>)
    ensures |r| == 4 && forall x :: 0 <= x < 4 ==> 0 <= r[x] < 64
  {
    var v := Bits(ByteAt(g, 0), ByteAt(g, 1), ByteAt(g, 2));
    [Field(v, 262144, 64), Field(v, 4096, 64), Field(v, 64, 64), Field(v, 1, 64)]
  }

  /** Up to three bytes as four characters, with padding for what is missing. */
  function Group(g: seq<byte>): (r: seq<byte>)
    requires |g| <= 3
    ensures |r| == 4
  {
    var r := Sixes(g);
    [ if |g| >= 1 then CharOf(r[0]) else PAD, if |g| >= 1 then CharOf(r[1]) else PAD,
      if |g| >= 2 then CharOf(r[2]) else PAD, if |g| == 3 then CharOf(r[3]) else PAD ]
  }

  /** Four digits of six bits. */
  lemma FourDigits(v: int, d0: int, d1: int, d2: int, d3: int)
    requires 0 <= d0 < 64 && 0 <= d1 < 64 && 0 <= d2 < 64 && 0 <= d3 < 64
    requires v == d0 * 262144 + d1 * 4096 + d2 * 64 + d3
    ensures Field(v, 262144, 64) == d0 && Field(v, 4096, 64) == d1 && Field(v, 64, 64) == d2 && Field(v, 1, 64) == d3
  {
    assert v / 64 == d0 * 4096 + d1 * 64 + d2;
    assert v / 4096 == d0 * 64 + d1;
    assert v / 262144 == d0;
  }

  /** A byte cut in two. */
  lemma Cut(a: int)
    requires 0 <= a < 256
    ensures a == Field(a, 4, 64) * 4 + Field(a, 1, 4)
    ensures a == Field(a, 16, 16) * 16 + Field(a, 1, 16)
    ensures a == Field(a, 64, 4) * 64 + Field(a, 1, 64)
  {
    CutAt(a, 4, 64);
    CutAt(a, 16, 16);
    CutAt(a, 64, 4);
  }

  lemma CutAt(a: int, k: int, m: int)
    requires 0 <= a < 256 && ((k == 4 && m == 64) || (k == 16 && m == 16) || (k == 64 && m == 4))
    ensures a == Field(a, k, m) * k + Field(a, 1, k)
  {}

  lemma SixBits(a: int, b: int, c: int)
    requires 0 <= a < 256 && 0 <= b < 256 && 0 <= c < 256
    ensures var v := Bits(a, b, c);
            && Field(v, 262144, 64) == Field(a, 4, 64)
            && Field(v, 4096, 64) == Field(a, 1, 4) * 16 + Field(b, 16, 16)
            && Field(v, 64, 64) == Field(b, 1, 16) * 4 + Field(c, 64, 4)
            && Field(v, 1, 64) == Field(c, 1, 64)
  {
    hide Field;
    Cut(a);
    Cut(b);
    Cut(c);
    FourDigits(Bits(a, b, c), Field(a, 4, 64), Field(a, 1, 4) * 16 + Field(b, 16, 16),
               Field(b, 1, 16) * 4 + Field(c, 64, 4), Field(c, 1, 64));
  }

  /** The mark for a missing byte has zeros wherever it is masked, and so has the value of the padding. */
  lemma MissingIsZero()
    ensures Field(MISSING, 4, 64) == 0 && Field(MISSING, 1, 4) == 0 && Field(MISSING, 16, 16) == 0
    ensures Field(MISSING, 1, 16) == 0 && Field(MISSING, 64, 4) == 0 && Field(MISSING, 1, 64) == 0
    ensures Field(0, 4, 64) == 0 && Field(0, 1, 4) == 0 && Field(0, 16, 16) == 0
    ensures Field(0, 1, 16) == 0 && Field(0, 64, 4) == 0 && Field(0, 1, 64) == 0
    ensures Field(64, 1, 64) == 0
  {}

  /** What the masks and shifts give for g. */
  lemma Shifts(g: seq<byte>, in0: int, in1: int, in2: int)
    requires |g| <= 3 && in0 == if |g| > 0 then g[0] else MISSING
    requires (in1 == if |g| > 1 then g[1] else MISSING) && in2 == if |g| > 2 then g[2] else MISSING
    ensures var r := Sixes(g);
            && r[0] == Field(in0, 4, 64) && r[1] == Field(in0, 1, 4) * 16 + Field(in1, 16, 16)
            && r[2] == Field(in1, 1, 16) * 4 + Field(in2, 64, 4) && r[3] == Field(in2, 1, 64)
  {
    hide Bits, Field;
    SixBits(ByteAt(g, 0), ByteAt(g, 1), ByteAt(g, 2));
    MissingIsZero();
  }

  /** input holds g, with what is missing marked. */
  method ConvToBase64(input: array<int>, output: array<byte>, ghost g: seq<byte>)
    requires input.Length == 3 && output.Length == 4 && |g| <= 3
    requires forall x :: 0 <= x < 3 ==> input[x] == if x < |g| then g[x] else MISSING
    modifies output
    ensures output[..] == Group(g)
  {
    var in0, in1, in2 := input[0], input[1], input[2];
    Shifts(g, in0, in1, in2);
    assert (in0 == MISSING <==> |g| < 1) && (in1 == MISSING <==> |g| < 2) && (in2 == MISSING <==> |g| < 3);
    hide Sixes, CharOf, Field, Group, MISSING;
    output[0] := Field(in0, 4, 64);
    output[1] := Field(in0, 1, 4) * 16 + Field(in1, 16, 16);
    output[2] := Field(in1, 1, 16) * 4 + Field(in2, 64, 4);
    output[3] := Field(in2, 1, 64);
    for x := 0 to 4
      invariant forall y :: 0 <= y < 4 ==> output[y] == if y < x then CharOf(Sixes(g)[y]) else Sixes(g)[y]
    {
      output[x] := CharOf(output[x]);
    }
    if in0 == MISSING {
      output[0], output[1], output[2], output[3] := PAD, PAD, PAD, PAD;
    }
    if in1 == MISSING {
      output[2], output[3] := PAD, PAD;
    }
    if in2 == MISSING {
      output[3] := PAD;
    }
    GroupIs(g, output[..]);
  }

  lemma GroupIs(g: seq<byte>, o: seq<byte>)
    requires |g| <= 3 && |o| == 4
    requires var r := Sixes(g);
             && o[0] == (if |g| >= 1 then CharOf(r[0]) else PAD) && o[1] == (if |g| >= 1 then CharOf(r[1]) else PAD)
             && o[2] == (if |g| >= 2 then CharOf(r[2]) else PAD) && o[3] == (if |g| == 3 then CharOf(r[3]) else PAD)
    ensures o == Group(g)
  {
    hide Sixes, CharOf;
  }

  /**
    The 24-bit number of four values, padding counting as zero, cut into three bytes; -1 for what
    the padding leaves out.
   */
  function Ungroup(c: seq<byte>): (r: Option<seq<int>>)
    requires |c| == 4
    ensures r.Some? ==> |r.value| == 3 && 0 <= r.value[0] && forall x :: 0 <= x < 3 ==> -1 <= r.value[x] < 256
  {
    var v := seq(4, x requires 0 <= x < 4 => ValueOf(c[x]));
    if -1 in v || v[0] == 64 || v[1] == 64 then None else
    var n := v[0] * 262144 + v[1] * 4096 + Field(v[2], 1, 64) * 64 + Field(v[3], 1, 64);
    Some([Field(n, 65536, 256),
          if v[2] == 64 then -1 else Field(n, 256, 256),
          if v[3] == 64 then -1 else Field(n, 1, 256)])
  }

  /** Three digits of eight bits. */
  lemma ThreeDigits(n: int, x: int, y: int, z: int)
    requires 0 <= x < 256 && 0 <= y < 256 && 0 <= z < 256 && n == x * 65536 + y * 256 + z
    ensures Field(n, 65536, 256) == x && Field(n, 256, 256) == y && Field(n, 1, 256) == z
  {
    assert n / 256 == x * 256 + y;
    assert n / 65536 == x;
  }

  /** Six bits cut in two; the mark for padding has only zeros there. */
  lemma CutValue(a: int)
    requires 0 <= a <= 64
    ensures a < 64 ==> Field(a, 1, 64) == a
    ensures Field(a, 1, 64) == Field(a, 16, 4) * 16 + Field(a, 1, 16)
    ensures Field(a, 1, 64) == Field(a, 4, 16) * 4 + Field(a, 1, 4)
  {
    if a < 64 {
      assert a / 16 < 4 && a / 4 < 16;
    }
  }

  lemma EightBits(n: int, a: int, b: int, c: int, d: int)
    requires 0 <= a < 64 && 0 <= b < 64 && 0 <= c <= 64 && 0 <= d <= 64
    requires n == a * 262144 + b * 4096 + Field(c, 1, 64) * 64 + Field(d, 1, 64)
    ensures Field(n, 65536, 256) == Field(a, 1, 64) * 4 + Field(b, 16, 4)
    ensures Field(n, 256, 256) == Field(b, 1, 16) * 16 + Field(c, 4, 16)
    ensures Field(n, 1, 256) == Field(c, 1, 4) * 64 + Field(d, 1, 64)
  {
    hide Field;
    CutValue(a);
    CutValue(b);
    CutValue(c);
    CutValue(d);
    ThreeDigits(n, Field(a, 1, 64) * 4 + Field(b, 16, 4), Field(b, 1, 16) * 16 + Field(c, 4, 16),
                Field(c, 1, 4) * 64 + Field(d, 1, 64));
  }

  /** What the masks and shifts give for the values of c. */
  lemma Unshifts(c: seq<byte>, in0: int, in1: int, in2: int, in3: int)
    requires |c| == 4 && in0 == ValueOf(c[0]) && in1 == ValueOf(c[1]) && in2 == ValueOf(c[2]) && in3 == ValueOf(c[3])
    ensures in0 == -1 || in1 == -1 || in2 == -1 || in3 == -1 || in0 == 64 || in1 == 64 <==> Ungroup(c).None?
    ensures Ungroup(c).Some? ==>
        var r := Ungroup(c).value;
        && r[0] == Field(in0, 1, 64) * 4 + Field(in1, 16, 4)
        && r[1] == (if in2 == 64 then -1 else Field(in1, 1, 16) * 16 + Field(in2, 4, 16))
        && r[2] == if in3 == 64 then -1 else Field(in2, 1, 4) * 64 + Field(in3, 1, 64)
  {
    hide ValueOf, Field;
    var v := seq(4, x requires 0 <= x < 4 => ValueOf(c[x]));
    assert -1 in v <==> v[0] == -1 || v[1] == -1 || v[2] == -1 || v[3] == -1;
    if Ungroup(c).Some? {
      EightBits(in0 * 262144 + in1 * 4096 + Field(in2, 1, 64) * 64 + Field(in3, 1, 64), in0, in1, in2, in3);
    }
  }

  /** input holds the characters c, possibly sign-extended. */
  method ConvFromBase64(input: array<int>, output: array<int>, ghost c: seq<byte>) returns (err: int)
    requires input.Length == 4 && output.Length == 3 && input != output && |c| == 4
    requires forall x :: 0 <= x < 4 ==> input[x] == c[x] || input[x] + 256 == c[x]
    modifies input, output
    ensures if Ungroup(c).None? then err == -1 else err == 0 && output[..] == Ungroup(c).value
  {
    for x := 0 to 4
      invariant forall y :: 0 <= y < 4 ==> input[y] == c[y] || (y >= x && input[y] + 256 == c[y])
    {
      input[x] := input[x] % 256;
    }
    for x := 0 to 3
      invariant input[..] == c
    {
      output[x] := 0;
    }
    Unshifts(c, ValueOf(c[0]), ValueOf(c[1]), ValueOf(c[2]), ValueOf(c[3]));
    hide ValueOf, Field, Ungroup;
    for x := 0 to 4
      invariant forall y :: 0 <= y < 4 ==> input[y] == if y < x then ValueOf(c[y]) else c[y]
      invariant forall y :: 0 <= y < x ==> ValueOf(c[y]) != -1
    {
      input[x] := ValueOf(input[x]);
      if input[x] == -1 {
        return -1;
      }
    }
    if input[1] == 64 || input[0] == 64 {
      return -1;
    }
    var in0, in1, in2, in3 := input[0], input[1], input[2], input[3];
    output[0] := Field(in0, 1, 64) * 4 + Field(in1, 16, 4);
    output[1] := Field(in1, 1, 16) * 16 + Field(in2, 4, 16);
    output[2] := Field(in2, 1, 4) * 64 + Field(in3, 1, 64);
    if in3 == 64 {
      output[2] := -1;
    }
    if in2 == 64 {
      output[1] := -1;
    }
    err := 0;
  }

  lemma CharIsDecoded(d: int)
    requires 0 <= d < 64
    ensures ValueOf(CharOf(d)) == d
  {}

  /** Six bits at a time lose nothing, and missing bytes leave zeros. */
  lemma SixesSum(g: seq<byte>)
    requires |g| <= 3
    ensures var r := Sixes(g);
            Bits(ByteAt(g, 0), ByteAt(g, 1), ByteAt(g, 2)) == r[0] * 262144 + r[1] * 4096 + r[2] * 64 + r[3]
    ensures |g| < 3 ==> Sixes(g)[3] == 0
    ensures |g| < 2 ==> Sixes(g)[2] == 0
  {
    var a, b, c := ByteAt(g, 0), ByteAt(g, 1), ByteAt(g, 2);
    hide Field;
    SixBits(a, b, c);
    Cut(a);
    Cut(b);
    Cut(c);
    MissingIsZero();
  }

  /** The values of the four characters. */
  lemma GroupValues(g: seq<byte>)
    requires 1 <= |g| <= 3
    ensures var c, r := Group(g), Sixes(g);
            forall x :: 0 <= x < 4 ==> 0 <= r[x] < 64 && ValueOf(c[x]) == if x <= |g| then r[x] else 64
  {
    forall x | 0 <= x < 4 {
      CharIsDecoded(Sixes(g)[x]);
    }
  }

  /** As a number they are the 24 bits again. */
  lemma GroupNumber(g: seq<byte>)
    requires 1 <= |g| <= 3
    ensures var c := Group(g);
            Bits(ByteAt(g, 0), ByteAt(g, 1), ByteAt(g, 2))
            == ValueOf(c[0]) * 262144 + ValueOf(c[1]) * 4096 + Field(ValueOf(c[2]), 1, 64) * 64
              + Field(ValueOf(c[3]), 1, 64)
  {
    hide *;
    GroupValues(g);
    SixesSum(g);
    CutValue(Sixes(g)[2]);
    CutValue(Sixes(g)[3]);
    MissingIsZero();
  }

  lemma ThreeBytes(a: byte, b: byte, c: byte)
    ensures var n := Bits(a, b, c); Field(n, 65536, 256) == a && Field(n, 256, 256) == b && Field(n, 1, 256) == c
  {
    ThreeDigits(Bits(a, b, c), a, b, c);
  }

  lemma UngroupIs(c: seq<byte>, n: int)
    requires |c| == 4 && ValueOf(c[0]) != 64 && ValueOf(c[1]) != 64 && forall x :: 0 <= x < 4 ==> ValueOf(c[x]) != -1
    requires n == ValueOf(c[0]) * 262144 + ValueOf(c[1]) * 4096 + Field(ValueOf(c[2]), 1, 64) * 64
             + Field(ValueOf(c[3]), 1, 64)
    ensures Ungroup(c) == Some([Field(n, 65536, 256),
                                if ValueOf(c[2]) == 64 then -1 else Field(n, 256, 256),
                                if ValueOf(c[3]) == 64 then -1 else Field(n, 1, 256)])
  {
    hide ValueOf, Field;
    var v := seq(4, x requires 0 <= x < 4 => ValueOf(c[x]));
    assert v == [ValueOf(c[0]), ValueOf(c[1]), ValueOf(c[2]), ValueOf(c[3])];
  }

  /** Four characters give back the bytes they stand for. */
  lemma GroupIsDecoded(g: seq<byte>)
    requires 1 <= |g| <= 3
    ensures Ungroup(Group(g)) == Some([g[0], if |g| > 1 then g[1] else -1, if |g| > 2 then g[2] else -1])
  {
    GroupValues(g);
    GroupNumber(g);
    ThreeBytes(ByteAt(g, 0), ByteAt(g, 1), ByteAt(g, 2));
    assert ByteAt(g, 0) == g[0] && (|g| > 1 ==> ByteAt(g, 1) == g[1]) && (|g| > 2 ==> ByteAt(g, 2) == g[2]);
    hide *;
    UngroupIs(Group(g), Bits(ByteAt(g, 0), ByteAt(g, 1), ByteAt(g, 2)));
  }

  // ---------------------------------------------------------------- the alphabet

  /** The 64 characters in order: capital letters, small letters, digits, plus and slash; = is the padding. */
  lemma Alphabet(v: int)
    ensures 0 <= v < 26 ==> CharOf(v) == 'A' as int + v
    ensures 26 <= v < 52 ==> CharOf(v) == 'a' as int + (v - 26)
    ensures 52 <= v < 62 ==> CharOf(v) == '0' as int + (v - 52)
    ensures CharOf(62) == '+' as int && CharOf(63) == '/' as int && PAD == '=' as int
  {}

  /** Every other byte is outside, and each character has the value of its place. */
  lemma AlphabetValues(c: byte, v: int)
    ensures 0 <= v < 64 ==> (ValueOf(c) == v <==> c == CharOf(v))
    ensures ValueOf(c) == 64 <==> c == '=' as int
    ensures ValueOf(c) == -1 <==> c != '=' as int && forall x :: 0 <= x < 64 ==> CharOf(x) != c
  {
    if ValueOf(c) != -1 && c != 61 { assert CharOf(ValueOf(c)) == c; }
  }

  /** The four characters of a group of three bytes, of which those behind n are missing. */
  lemma GroupOf(a: byte, b: byte, c: byte, d0: int, d1: int, d2: int, d3: int)
    requires 0 <= d0 < 64 && 0 <= d1 < 64 && 0 <= d2 < 64 && 0 <= d3 < 64
    requires a * 65536 + b * 256 + c == d0 * 262144 + d1 * 4096 + d2 * 64 + d3
    ensures b == 0 && c == 0 ==> Group([a]) == [CharOf(d0), CharOf(d1), 61, 61]
    ensures c == 0 ==> Group([a, b]) == [CharOf(d0), CharOf(d1), CharOf(d2), 61]
    ensures Group([a, b, c]) == [CharOf(d0), CharOf(d1), CharOf(d2), CharOf(d3)]
  {
    FourDigits(Bits(a, b, c), d0, d1, d2, d3);
    hide Field, CharOf;
  }

  /** The examples of section 10 of RFC 4648. */
  lemma StandardGroups()
    ensures Group(Ascii("f")) == Ascii("Zg==")
    ensures Group(Ascii("fo")) == Ascii("Zm8=")
    ensures Group(Ascii("foo")) == Ascii("Zm9v")
  {
    GroupOf(102, 0, 0, 25, 32, 0, 0);
    GroupOf(102, 111, 0, 25, 38, 60, 0);
    GroupOf(102, 111, 111, 25, 38, 61, 47);
    hide Group;
    assert Ascii("f") == [102] && Ascii("fo") == [102, 111] && Ascii("foo") == [102, 111, 111];
    assert Ascii("Zg==") == [90, 103, 61, 61];
    assert Ascii("Zm8=") == [90, 109, 56, 61];
    assert Ascii("Zm9v") == [90, 109, 57, 118];
  }

  // ---------------------------------------------------------------- encoding a file

  /** A line is broken after this many groups. */
  const GROUPS := 19

  /** att as base64 text, from a line that already has k groups on it. */
  function Encode(att: seq<byte>, k: nat): seq<byte> {
    if att == [] then [NL] else
    var n := Min(3, |att|);
    Group(att[..n]) + if k + 1 >= GROUPS then [NL] + Encode(att[n..], 0) else Encode(att[n..], k + 1)
  }

  /** The next bytes of att, marking what is missing of three. */
  method ReadGroup(att: File, input: array<int>) returns (n: nat, charRead: int)
    requires att.pos <= |att.bytes| && input.Length == 3
    modifies att`pos, input
    ensures n == Min(3, |att.bytes| - old(att.pos)) && att.pos == old(att.pos) + n
    ensures charRead == EOF <==> n < 3
    ensures forall y :: 0 <= y < 3 ==> input[y] == if y < n then att.bytes[old(att.pos) + y] else MISSING
  {
    n, charRead := 0, 0;
    while n < 3
      invariant n <= 3 && att.pos == old(att.pos) + n <= |att.bytes| && charRead != EOF
      invariant forall y :: 0 <= y < n ==> input[y] == att.bytes[old(att.pos) + y]
    {
      charRead := att.GetC();
      if charRead == EOF { break; }
      input[n] := charRead;
      n := n + 1;
    }
    for x := n to 3
      invariant att.pos == old(att.pos) + n
      invariant forall y :: 0 <= y < x ==> input[y] == if y < n then att.bytes[old(att.pos) + y] else MISSING
    {
      input[x] := MISSING;
    }
  }

  /** One more group written. */
  lemma EncodeNext(att: seq<byte>, k: nat, n: nat)
    requires att != [] && n == Min(3, |att|) && k < GROUPS
    ensures var k' := if k + 1 == GROUPS then 0 else k + 1;
            Encode(att, k) == Group(att[..n]) + (if k + 1 == GROUPS then [NL] else []) + Encode(att[n..], k')
  {
    hide Group;
  }

  /** out is the text of the first pos bytes, its last line having k groups. */
  ghost predicate Encoded(att: seq<byte>, pos: nat, k: nat, out: seq<byte>) {
    pos <= |att| && k < GROUPS && out + Encode(att[pos..], k) == Encode(att, 0)
  }

  lemma EncodedStarts(att: seq<byte>)
    ensures Encoded(att, 0, 0, [])
  {
    assert att[0..] == att;
  }

  lemma EncodedNext(att: seq<byte>, pos: nat, k: nat, out: seq<byte>, n: nat)
    requires Encoded(att, pos, k, out) && pos < |att| && n == Min(3, |att| - pos)
    ensures var out' := out + Group(att[pos..pos + n]);
            if k + 1 >= GROUPS then Encoded(att, pos + n, 0, out' + [NL]) else Encoded(att, pos + n, k + 1, out')
  {
    EncodeNext(att[pos..], k, n);
    var g := Group(att[pos..pos + n]);
    assert att[pos..][n..] == att[pos + n..] && att[pos..][..n] == att[pos..pos + n];
    hide Encode, Group;
    if k + 1 == GROUPS {
      Regroup(out, g, [NL], Encode(att[pos + n..], 0));
    } else {
      Regroup(out, g, [], Encode(att[pos + n..], k + 1));
    }
  }

  lemma EncodedEnds(att: seq<byte>, k: nat, out: seq<byte>)
    requires Encoded(att, |att|, k, out)
    ensures out + [NL] == Encode(att, 0)
  {
    assert att[|att|..] == [];
  }

  method EncodeBody(att: File) returns (out: seq<byte>)
    modifies att`pos
    ensures out == Encode(att.bytes, 0) && att.pos == |att.bytes|
  {
    hide Encode, Group, Encoded;
    var input, output := new int[3], new byte[4];
    var boundary, charRead := 0, 0;
    var rewound := att.Seek(0);
    out := [];
    EncodedStarts(att.bytes);
    while charRead != EOF
      invariant att.pos <= |att.bytes| && boundary < GROUPS
      invariant charRead == EOF ==> att.pos == |att.bytes|
      invariant Encoded(att.bytes, att.pos, boundary, out)
      decreases |att.bytes| - att.pos, charRead != EOF
    {
      ghost var start := att.pos;
      var n;
      n, charRead := ReadGroup(att, input);
      if n == 0 { break; }
      EncodedNext(att.bytes, start, boundary, out, n);
      ConvToBase64(input, output, att.bytes[start..start + n]);
      out := out + output[..];
      boundary := boundary + 1;
      if boundary >= GROUPS {
        out := out + [NL];
        boundary := 0;
      }
    }
    EncodedEnds(att.bytes, boundary, out);
    out := out + [NL];
  }

  // ---------------------------------------------------------------- the shape of the text

  /** No newline among the bytes i to j of s. */
  ghost predicate Unbroken(s: seq<byte>, i: nat, j: nat) {
    i <= j <= |s| && forall x :: i <= x < j ==> s[x] != NL
  }

  lemma UnbrokenTail(s: seq<byte>, i: nat, j: nat, m: nat)
    requires Unbroken(s, i, j) && m <= j
    ensures Unbroken(s[m..], if i < m then 0 else i - m, j - m)
    ensures i < m == 5 && j > 5 && s[4] == NL ==> i > 4
  {}

  /** Lines of encoded text have at most 76 characters, section 6.8 of RFC 2045. */
  lemma {:induction false} LinesAreShort(att: seq<byte>, k: nat)
    requires k < GROUPS
    ensures var s := Encode(att, k);
            forall i: nat, j: nat :: Unbroken(s, i, j) ==> j - i <= 76 && (i == 0 ==> j <= 76 - 4 * k)
  {
    var s := Encode(att, k);
    if att != [] {
      var n := Min(3, |att|);
      EncodeNext(att, k, n);
      hide Encode, Group;
      var k' := if k + 1 == GROUPS then 0 else k + 1;
      var m := if k + 1 == GROUPS then 5 else 4;
      var rest := Encode(att[n..], k');
      assert s[m..] == rest && (m == 5 ==> s[4] == NL);
      hide Unbroken;
      LinesAreShort(att[n..], k');
      forall i: nat, j: nat | Unbroken(s, i, j) ensures j - i <= 76 && (i == 0 ==> j <= 76 - 4 * k) {
        if j > m {
          UnbrokenTail(s, i, j, m);
          assert i < m == 5 ==> i > 4;
        }
      }
    }
  }

  lemma GroupThen(att: seq<byte>, k: nat) returns (g: seq<byte>)
    requires k < 19 && |att| >= 3
    ensures |g| == 4 && (k < 18 ==> Encode(att, k) == g + Encode(att[3..], k + 1))
    ensures k == 18 ==> Encode(att, k) == g + [10] + Encode(att[3..], 0)
  {
    EncodeNext(att, k, 3);
    g := Group(att[..3]);
    hide Encode, Group;
    assert g + [] == g;
  }

  /** From a line with k groups on it, the line is broken at 76 characters, 57 bytes of the file. */
  lemma {:induction false} FullLine(att: seq<byte>, k: nat) returns (line: seq<byte>)
    requires k < 19 && |att| >= 57 - 3 * k
    ensures |line| == 76 - 4 * k && Encode(att, k) == line + [10] + Encode(att[57 - 3 * k..], 0)
    decreases 19 - k
  {
    hide *;
    line := GroupThen(att, k);
    if k < 18 {
      var m := 57 - 3 * k;
      var more := FullLine(att[3..], k + 1);
      assert att[3..][m - 3..] == att[m..];
      LineJoins(line, more, Encode(att[m..], 0));
      line := line + more;
    }
  }

  lemma LineJoins(g: seq<byte>, more: seq<byte>, rest: seq<byte>)
    ensures g + (more + [10] + rest) == g + more + [10] + rest
  {}

  // ---------------------------------------------------------------- decoding

  /** Text that four characters produce, and what that says about the rest of the line. */
  function OutOf(buff: seq<byte>): (r: (seq<byte>, Status))
    ensures r.1 == Pending || r.1 == Done || r.1 == Error
  {
    if |buff| < 4 then ([], Error) else
    match Ungroup(buff[..4])
    case None => ([], Error)
    case Some(o) =>
      if o[1] < 0 then ([o[0]], Done)
      else if o[2] < 0 then ([o[0], o[1]], Done)
      else ([o[0], o[1], o[2]], Pending)
  }

  method ConvAndOutBase64String(buff: seq<byte>) returns (status: Status, out: seq<byte>)
    ensures OutOf(buff) == (out, status)
  {
    out := [];
    if |buff| < 4 {
      return Error, out;
    }
    var input, output := new int[4], new int[3];
    for x := 0 to 4
      invariant forall y :: 0 <= y < x ==> input[y] == SignedChar(buff[y])
    {
      input[x] := SignedChar(buff[x]);
    }
    hide Ungroup;
    var err := ConvFromBase64(input, output, buff[..4]);
    if err != 0 {
      return Error, out;
    }
    ghost var o := output[..];
    for x := 0 to 3
      invariant output[..] == o && out == o[..x] && forall y :: 0 <= y < x ==> o[y] >= 0
    {
      if output[x] < 0 {
        assert out == if x == 1 then [o[0]] else [o[0], o[1]];
        return Done, out;
      }
      out := out + [output[x]];
    }
    assert out == [o[0], o[1], o[2]];
    status := Pending;
  }

  // ---------------------------------------------------------------- displaying an attachment

  /** Whether the first four characters of line hold a blank or newline. */
  predicate StopsSoon(line: seq<byte>) {
    |line| < 4 || 32 in line[..4] || NL in line[..4]
  }

  /** The text of one line; Pending when the next line is to be read. */
  function DecodeLine(line: seq<byte>): (r: (seq<byte>, Status))
    ensures r.1 == Pending || r.1 == Done || r.1 == Error
  {
    var (out, status) := OutOf(line);
    if |line| <= 4 then (out, Pending)
    else if status == Pending && !StopsSoon(line[4..]) then
      var (more, end) := DecodeLine(line[4..]);
      (out + more, end)
    else (out, status)
  }

  /** The output for the text s up to its border; ended is false where s runs out first. */
  datatype Decoded = Decoded(out: seq<byte>, ended: bool)

  function DecodeText(s: seq<byte>, boundary: Option<seq<byte>>): Decoded
    decreases |s|
  {
    if s == [] then Decoded([], false) else
    var line, rest := CString(LineOf(s)), s[LineLength(s)..];
    match IsBoundary(line, boundary)
    case Nl => DecodeText(rest, boundary)
    case Pending =>
      var (out, status) := DecodeLine(line);
      if status == Pending then
        var d := DecodeText(rest, boundary);
        Decoded(out + d.out, d.ended)
      else Decoded(out, true)
    case _ => Decoded([], true)
  }

  /** The result for a line, its first part being out and line the rest; Nl when the line is finished. */
  function LineFrom(out: seq<byte>, line: seq<byte>, status: Status): (seq<byte>, Status) {
    if status == Pending then var (more, end) := DecodeLine(line); (out + more, end)
    else (out, if status == Nl then Pending else status)
  }

  /** One round of the loop over a line. */
  lemma DecodeLineNext(out: seq<byte>, line: seq<byte>)
    ensures var (more, status) := OutOf(line);
            var line' := if |line| > 4 then line[4..] else line;
            var status' := if |line| <= 4 || (status == Pending && StopsSoon(line')) then Nl else status;
            LineFrom(out, line, Pending) == LineFrom(out + more, line', status')
  {
    hide OutOf, StopsSoon;
    var (more, status) := OutOf(line);
    if |line| > 4 && status == Pending && !StopsSoon(line[4..]) {
      var rest := DecodeLine(line[4..]).0;
      assert out + (more + rest) == (out + more) + rest;
    }
  }

  method DecodeOneLine(line: seq<byte>) returns (out: seq<byte>, status: Status)
    ensures DecodeLine(line) == (out, status)
  {
    var linePtr, statusLine := line, Pending;
    out := [];
    hide OutOf, DecodeLine;
    assert DecodeLine(line) == LineFrom([], line, Pending) by { assert [] + DecodeLine(line).0 == DecodeLine(line).0; }
    while statusLine == Pending
      invariant DecodeLine(line) == LineFrom(out, linePtr, statusLine)
      decreases if statusLine == Pending then 1 + |linePtr| else 0
    {
      var more;
      DecodeLineNext(out, linePtr);
      hide LineFrom;
      statusLine, more := ConvAndOutBase64String(linePtr);
      out := out + more;
      if |linePtr| > 4 {
        linePtr := linePtr[4..];
      } else {
        statusLine := Nl;
      }
      if statusLine == Pending && |linePtr| < 4 {
        statusLine := Nl;
      } else if statusLine == Pending {
        if 32 in linePtr[..4] || NL in linePtr[..4] {
          statusLine := Nl;
        }
      }
    }
    status := if statusLine == Nl then Pending else statusLine;
  }

  /** The result for a text, its first part being out and s the rest. */
  function TextFrom(out: seq<byte>, s: seq<byte>, boundary: Option<seq<byte>>, overall: Status): Decoded {
    if overall == Nl || overall == Pending then
      var d := DecodeText(s, boundary);
      Decoded(out + d.out, d.ended)
    else Decoded(out, true)
  }

  /** One line of a text. */
  lemma DecodeTextNext(out: seq<byte>, s: seq<byte>, boundary: Option<seq<byte>>, overall: Status)
    requires s != [] && (overall == Nl || overall == Pending)
    ensures var line, rest := CString(LineOf(s)), s[LineLength(s)..];
            var status := IsBoundary(line, boundary);
            TextFrom(out, s, boundary, overall)
            == if status == Pending then TextFrom(out + DecodeLine(line).0, rest, boundary, DecodeLine(line).1)
               else TextFrom(out, rest, boundary, status)
  {
    hide DecodeLine, IsBoundary, LineOf;
    var line, rest := CString(LineOf(s)), s[LineLength(s)..];
    var d, more := DecodeText(rest, boundary), DecodeLine(line).0;
    assert out + (more + d.out) == (out + more) + d.out;
  }

  /** Puts out the attachment that starts at the position of the file. */
  method DispAttCtBase64(file: File, boundary: Option<seq<byte>>) returns (err: int, out: seq<byte>)
    requires file.pos <= |file.bytes|
    modifies file`pos
    ensures var d := DecodeText(file.bytes[old(file.pos)..], boundary);
            out == d.out && err == if d.ended then 0 else -1
  {
    ghost var all := DecodeText(file.bytes[file.pos..], boundary);
    var overall := Nl;
    out := [];
    hide *;
    TextStarts(file.bytes[file.pos..], boundary);
    while overall == Nl || overall == Pending
      invariant file.pos <= |file.bytes|
      invariant all == TextFrom(out, file.bytes[file.pos..], boundary, overall)
      decreases |file.bytes| - file.pos, overall == Nl || overall == Pending
    {
      ghost var rest := file.bytes[file.pos..];
      var fileBuff := GetLine(file);
      if fileBuff == [] {
        NoText(out, boundary, overall);
        assert rest == [];
        return -1, out;
      }
      DecodeTextNext(out, rest, boundary, overall);
      LineOfLength(rest);
      assert rest[LineLength(rest)..] == file.bytes[file.pos..];
      fileBuff := CString(fileBuff);
      overall := IsBoundary(fileBuff, boundary);
      if overall == Pending {
        var more;
        more, overall := DecodeOneLine(fileBuff);
        out := out + more;
      }
    }
    TextEnds(out, file.bytes[file.pos..], boundary, overall);
    err := 0;
  }

  lemma TextStarts(s: seq<byte>, boundary: Option<seq<byte>>)
    ensures DecodeText(s, boundary) == TextFrom([], s, boundary, Nl)
  {
    hide DecodeText;
    assert [] + DecodeText(s, boundary).out == DecodeText(s, boundary).out;
  }

  lemma NoText(out: seq<byte>, boundary: Option<seq<byte>>, overall: Status)
    requires overall == Nl || overall == Pending
    ensures TextFrom(out, [], boundary, overall) == Decoded(out, false)
  {}

  lemma TextEnds(out: seq<byte>, s: seq<byte>, boundary: Option<seq<byte>>, overall: Status)
    requires overall != Nl && overall != Pending
    ensures TextFrom(out, s, boundary, overall) == Decoded(out, true)
  {}

  lemma LineOfLength(s: seq<byte>)
    ensures |LineOf(s)| == LineLength(s)
  {}

  // ---------------------------------------------------------------- what is refused

  /** One of the 64 characters. */
  predicate InAlphabet(c: byte) {
    65 <= c <= 90 || 97 <= c <= 122 || 48 <= c <= 57 || c == 43 || c == 47
  }

  /** Four characters that are padded in the first two, or hold something outside the alphabet. */
  predicate Malformed(c: seq<byte>)
    requires |c| == 4
  {
    !InAlphabet(c[0]) || !InAlphabet(c[1]) || (!InAlphabet(c[2]) && c[2] != 61) || (!InAlphabet(c[3]) && c[3] != 61)
  }

  lemma RefusedIsMalformed(c: seq<byte>)
    requires |c| == 4
    ensures Ungroup(c).None? <==> Malformed(c)
  {
    Unshifts(c, ValueOf(c[0]), ValueOf(c[1]), ValueOf(c[2]), ValueOf(c[3]));
    hide Ungroup;
  }

  /** A line of text that begins with such characters ends the text, or is passed over when there is no more in it. */
  lemma MalformedLine(s: seq<byte>, boundary: Option<seq<byte>>)
    requires IsBoundary(CString(LineOf(s)), boundary) == Pending
    requires |CString(LineOf(s))| < 4 || Malformed(CString(LineOf(s))[..4])
    ensures s != [] ==>
              DecodeText(s, boundary)
              == if |CString(LineOf(s))| > 4 then Decoded([], true) else DecodeText(s[LineLength(s)..], boundary)
  {
    var line := CString(LineOf(s));
    if |line| >= 4 { RefusedIsMalformed(line[..4]); }
    hide Ungroup, Malformed, IsBoundary, LineOf, CString;
    assert DecodeLine(line) == ([], if |line| <= 4 then Pending else Error);
    hide DecodeLine;
    if s != [] {
      var d := DecodeText(s[LineLength(s)..], boundary);
      assert [] + d.out == d.out;
    }
  }

  // ---------------------------------------------------------------- what is sent is what is displayed

  /** The text up to the end of the line that has k groups already. */
  function Row(att: seq<byte>, k: nat): seq<byte> {
    if att == [] then [NL] else
    var n := Min(3, |att|);
    Group(att[..n]) + if k + 1 == GROUPS then [NL] else Row(att[n..], k + 1)
  }

  /** How many bytes of att that line takes. */
  function Taken(att: seq<byte>, k: nat): (m: nat)
    ensures m <= |att| && (att != [] ==> m > 0)
  {
    if att == [] then 0 else
    var n := Min(3, |att|);
    if k + 1 == GROUPS then n else n + Taken(att[n..], k + 1)
  }

  /** The text after that line: none when att ends inside it. */
  lemma {:induction false} RowSplits(att: seq<byte>, k: nat) returns (after: seq<byte>)
    requires k < GROUPS
    ensures Encode(att, k) == Row(att, k) + after
    ensures after == Encode(att[Taken(att, k)..], 0) || (after == [] && Taken(att, k) == |att|)
  {
    if att == [] {
      after := [];
    } else {
      var n := Min(3, |att|);
      EncodeNext(att, k, n);
      hide Group, Encode;
      if k + 1 == GROUPS {
        after := Encode(att[n..], 0);
      } else {
        after := RowSplits(att[n..], k + 1);
        assert att[n..][Taken(att[n..], k + 1)..] == att[Taken(att, k)..];
      }
    }
  }

  /** A character of encoded text. */
  predicate Coded(c: byte) {
    ValueOf(c) != -1
  }

  /** A line of characters of the alphabet, with its newline. */
  ghost predicate CodedLine(line: seq<byte>) {
    line != [] && line[|line| - 1] == NL && forall i :: 0 <= i < |line| - 1 ==> Coded(line[i])
  }

  lemma GroupIsCoded(g: seq<byte>)
    requires 1 <= |g| <= 3
    ensures forall i :: 0 <= i < 4 ==> Coded(Group(g)[i])
  {
    GroupValues(g);
    hide Group, ValueOf;
  }

  lemma CodedAfter(g: seq<byte>, rest: seq<byte>)
    requires CodedLine(rest) && forall i :: 0 <= i < |g| ==> Coded(g[i])
    ensures CodedLine(g + rest)
  {
    hide Coded;
  }

  lemma {:induction false} RowIsCoded(att: seq<byte>, k: nat)
    requires k < GROUPS
    ensures CodedLine(Row(att, k)) && (att != [] ==> |Row(att, k)| >= 5)
  {
    if att != [] {
      var n := Min(3, |att|);
      GroupIsCoded(att[..n]);
      if k + 1 < GROUPS { RowIsCoded(att[n..], k + 1); }
      CodedAfter(Group(att[..n]), if k + 1 == GROUPS then [NL] else Row(att[n..], k + 1));
      hide Group, Coded, CodedLine;
    }
  }

  lemma GroupIsPutOut(g: seq<byte>, rest: seq<byte>)
    requires 1 <= |g| <= 3
    ensures OutOf(Group(g) + rest) == (g, if |g| == 3 then Pending else Done)
  {
    GroupIsDecoded(g);
    hide Group, Ungroup;
    assert (Group(g) + rest)[..4] == Group(g);
    assert g == if |g| == 1 then [g[0]] else if |g| == 2 then [g[0], g[1]] else [g[0], g[1], g[2]];
  }

  lemma CodedIsPlain(c: byte)
    requires Coded(c)
    ensures c != 0 && c != 32 && c != NL && c != DASH
  {}

  lemma RowGoesOn(att: seq<byte>, k: nat)
    requires k < GROUPS && att != []
    ensures |Row(att, k)| > 4 && !StopsSoon(Row(att, k))
  {
    RowIsCoded(att, k);
    hide Row, Coded;
    var row := Row(att, k);
    forall i | 0 <= i < 4 ensures row[..4][i] != 32 && row[..4][i] != NL { CodedIsPlain(row[i]); }
  }

  /** How a row begins, and whether its line goes on. */
  lemma RowBegins(att: seq<byte>, k: nat)
    requires k < GROUPS && att != []
    ensures var n := Min(3, |att|);
            var rest := if k + 1 == GROUPS then [NL] else Row(att[n..], k + 1);
            && Row(att, k) == Group(att[..n]) + rest
            && StopsSoon(rest) == (k + 1 == GROUPS || att[n..] == [])
  {
    var n := Min(3, |att|);
    if k + 1 < GROUPS && att[n..] != [] { RowGoesOn(att[n..], k + 1); }
  }

  lemma DecodeLineBegins(g: seq<byte>, rest: seq<byte>)
    requires 1 <= |g| <= 3 && rest != []
    ensures DecodeLine(Group(g) + rest)
            == if |g| == 3 && !StopsSoon(rest) then (g + DecodeLine(rest).0, DecodeLine(rest).1)
               else (g, if |g| == 3 then Pending else Done)
  {
    GroupIsPutOut(g, rest);
    hide Group, OutOf, StopsSoon;
    assert (Group(g) + rest)[4..] == rest;
  }

  /** Bytes in threes leave the text open, others need padding and end it. */
  function EndOf(m: nat): (r: Status)
    ensures r == Pending || r == Done
  {
    if m % 3 == 0 then Pending else Done
  }

  lemma EndOfNext(m: nat)
    ensures EndOf(3 + m) == EndOf(m) && EndOf(0) == EndOf(3) == Pending && EndOf(1) == EndOf(2) == Done
  {}

  lemma {:induction false} RowIsDecoded(att: seq<byte>, k: nat)
    requires k < GROUPS && att != []
    ensures var m := Taken(att, k); DecodeLine(Row(att, k)) == (att[..m], EndOf(m)) && (EndOf(m) == Done ==> m == |att|)
  {
    var n := Min(3, |att|);
    hide Row, DecodeLine, EndOf, Taken, Group;
    if k + 1 < GROUPS && att[n..] != [] {
      RowIsDecoded(att[n..], k + 1);
      RowGoesOnDecoded(att, k);
    } else {
      LastGroupDecoded(att, k);
    }
  }

  lemma LastGroupDecoded(att: seq<byte>, k: nat)
    requires k < GROUPS && att != [] && (k + 1 == GROUPS || |att| <= 3)
    ensures var m := Taken(att, k); DecodeLine(Row(att, k)) == (att[..m], EndOf(m)) && (EndOf(m) == Done ==> m == |att|)
  {
    var n := Min(3, |att|);
    var rest := if k + 1 == GROUPS then [NL] else Row(att[n..], k + 1);
    RowBegins(att, k);
    RowNotEmpty(att[n..], k + 1);
    TakenBegins(att, k);
    hide *;
    DecodeLineBegins(att[..n], rest);
    EndOfNext(0);
  }

  lemma RowGoesOnDecoded(att: seq<byte>, k: nat)
    requires k + 1 < GROUPS && |att| > 3
    requires var m, later := Taken(att[3..], k + 1), att[3..];
             DecodeLine(Row(later, k + 1)) == (later[..m], EndOf(m)) && (EndOf(m) == Done ==> m == |later|)
    ensures var m := Taken(att, k); DecodeLine(Row(att, k)) == (att[..m], EndOf(m)) && (EndOf(m) == Done ==> m == |att|)
  {
    var m, later := Taken(att[3..], k + 1), att[3..];
    assert Row(att, k) == Group(att[..3]) + Row(later, k + 1) && !StopsSoon(Row(later, k + 1)) by { RowBegins(att, k); }
    assert Taken(att, k) == 3 + m by { TakenBegins(att, k); }
    hide *;
    RowNotEmpty(later, k + 1);
    DecodeLineBegins(att[..3], Row(later, k + 1));
    EndOfNext(m);
    TakeMore(att, m);
  }

  lemma TakeMore(att: seq<byte>, m: nat)
    requires 3 + m <= |att|
    ensures att[..3 + m] == att[..3] + att[3..][..m]
  {}

  lemma TakenBegins(att: seq<byte>, k: nat)
    requires k < GROUPS && att != []
    ensures var n := Min(3, |att|);
            && n == (if |att| < 3 then |att| else 3)
            && Taken(att, k) == if k + 1 == GROUPS || att[n..] == [] then n else 3 + Taken(att[n..], k + 1)
  {}

  lemma RowNotEmpty(att: seq<byte>, k: nat)
    ensures Row(att, k) != []
  {}

  /** Such a line is no border and no start of a message. */
  lemma RowIsText(row: seq<byte>, boundary: Option<seq<byte>>, rest: seq<byte>)
    requires CodedLine(row) && |row| >= 5
    ensures IsLine(row, rest) && 0 !in row && IsBoundary(row, boundary) == Pending
  {
    hide Coded;
    forall i | 0 <= i < |row| - 1 ensures row[i] != 0 && row[i] != 32 && row[i] != NL && row[i] != DASH {
      CodedIsPlain(row[i]);
    }
    LineLengthIs(row);
    hide LineLength;
    PrefixAt(FROM, row, 4);
    if boundary.Some? { PrefixAt(BorderOf(boundary.value, false), row, 0); }
  }

  /** One line of text and what follows it. */
  lemma DecodeFirstLine(line: seq<byte>, rest: seq<byte>, boundary: Option<seq<byte>>)
    requires IsLine(line, rest) && 0 !in line
    ensures var d, status := DecodeText(rest, boundary), IsBoundary(line, boundary);
            DecodeText(line + rest, boundary)
            == if status == Nl then d
               else if status != Pending then Decoded([], true)
               else if DecodeLine(line).1 == Pending then Decoded(DecodeLine(line).0 + d.out, d.ended)
               else Decoded(DecodeLine(line).0, true)
  {
    LineLengthPrefix(line, rest);
    hide LineLength, IsBoundary, DecodeLine;
    var s := line + rest;
    assert s[..|line|] == line && s[|line|..] == rest;
  }

  /** out, and then what the text tail gives unless padding has ended the text. */
  function Then(out: seq<byte>, end: Status, tail: Decoded): Decoded {
    if end == Pending then Decoded(out + tail.out, tail.ended) else Decoded(out, true)
  }

  lemma RowSplitsText(att: seq<byte>, tail: seq<byte>) returns (rest: seq<byte>)
    ensures Encode(att, 0) + tail == Row(att, 0) + rest
    ensures var left := att[Taken(att, 0)..]; rest == Encode(left, 0) + tail || (left == [] && rest == tail)
  {
    hide Encode, Row, Taken;
    var after := RowSplits(att, 0);
    rest := after + tail;
    assert Encode(att, 0) + tail == Row(att, 0) + rest;
  }

  /** The first line of encoded text. */
  lemma RowOfText(att: seq<byte>, tail: seq<byte>, boundary: Option<seq<byte>>)
    requires att != []
    ensures var m := Taken(att, 0);
            && (EndOf(m) == Done ==> m == |att|)
            && DecodeText(Encode(att, 0) + tail, boundary)
               == Then(att[..m], EndOf(m), DecodeText(Encode(att[m..], 0) + tail, boundary))
  {
    var row, m := Row(att, 0), Taken(att, 0);
    hide *;
    var rest := RowSplitsText(att, tail);
    RowIsCoded(att, 0);
    RowIsText(row, boundary, rest);
    RowIsDecoded(att, 0);
    RowThen(row, rest, boundary);
    EncodedNothing(tail, boundary);
  }

  lemma RowThen(row: seq<byte>, rest: seq<byte>, boundary: Option<seq<byte>>)
    requires IsLine(row, rest) && 0 !in row && IsBoundary(row, boundary) == Pending
    ensures DecodeText(row + rest, boundary) == Then(DecodeLine(row).0, DecodeLine(row).1, DecodeText(rest, boundary))
  {
    hide DecodeText, DecodeLine, IsBoundary, IsLine;
    DecodeFirstLine(row, rest, boundary);
  }

  lemma EncodedNothing(tail: seq<byte>, boundary: Option<seq<byte>>)
    ensures DecodeText(Encode([], 0) + tail, boundary) == DecodeText(tail, boundary)
  {
    hide DecodeText;
    DecodeFirstLine([NL], tail, boundary);
  }

  /** Displaying encoded text puts out the attachment, and what comes after it only when no padding ended the text. */
  lemma {:induction false} EncodedIsDecoded(att: seq<byte>, tail: seq<byte>, boundary: Option<seq<byte>>)
    ensures DecodeText(Encode(att, 0) + tail, boundary) == Then(att, EndOf(|att|), DecodeText(tail, boundary))
    decreases |att|
  {
    EndOfNext(0);
    if att == [] {
      EncodedNothing(tail, boundary);
      hide DecodeText;
    } else {
      var m := Taken(att, 0);
      hide *;
      RowOfText(att, tail, boundary);
      EncodedIsDecoded(att[m..], tail, boundary);
      RowsThen(att, m, DecodeText(tail, boundary));
    }
  }

  lemma RowsThen(att: seq<byte>, m: nat, tail: Decoded)
    requires m <= |att| && (EndOf(m) == Done ==> m == |att|)
    ensures Then(att[..m], EndOf(m), Then(att[m..], EndOf(|att| - m), tail)) == Then(att, EndOf(|att|), tail)
  {
    if EndOf(m) == Pending {
      EndOfSum(m, |att| - m);
      ThenThen(att[..m], att[m..], EndOf(|att|), tail);
      assert att[..m] + att[m..] == att;
    } else {
      assert att[..m] == att;
    }
  }

  lemma ThenThen(a: seq<byte>, b: seq<byte>, end: Status, tail: Decoded)
    ensures Then(a, Pending, Then(b, end, tail)) == Then(a + b, end, tail)
  {
    assert a + (b + tail.out) == (a + b) + tail.out;
  }

  lemma EndOfSum(m: nat, n: nat)
    requires EndOf(m) == Pending
    ensures EndOf(m + n) == EndOf(n)
  {}

  lemma BorderEnds(b: seq<byte>, last: bool, more: seq<byte>)
    requires NL !in b && 0 !in b
    ensures DecodeText([NL] + BorderOf(b, last) + [NL] + more, Some(b)) == Decoded([], true)
  {
    var border := BorderOf(b, last) + [NL];
    BorderIsLine(b, last, more);
    assert IsLine([NL], border + more) && IsBoundary([NL], Some(b)) == Nl;
    hide *;
    DecodeFirstLine(border, more, Some(b));
    DecodeFirstLine([NL], border + more, Some(b));
    assert [NL] + BorderOf(b, last) + [NL] + more == [NL] + (border + more);
  }

  /**
    For any attachment: its encoded body, followed as the sender follows it by a blank line and a
    border, is displayed as exactly the attachment.
   */
  lemma AttachmentRoundTrip(att: seq<byte>, b: seq<byte>, last: bool, more: seq<byte>)
    requires NL !in b && 0 !in b
    ensures DecodeText(Encode(att, 0) + ([NL] + BorderOf(b, last) + [NL] + more), Some(b)) == Decoded(att, true)
  {
    hide *;
    BorderEnds(b, last, more);
    EncodedIsDecoded(att, [NL] + BorderOf(b, last) + [NL] + more, Some(b));
    ThenNothing(att, EndOf(|att|));
  }

  lemma ThenNothing(out: seq<byte>, end: Status)
    ensures Then(out, end, Decoded([], true)) == Decoded(out, true)
  {
    assert out + [] == out;
  }
}
