/**
  The in-place file splice: a line replaces the bytes between two offsets while the rest of the file
  moves through two buffers, whether the file grows or shrinks.
 */
module Splice {
  import opened Bytes
  import opened MailFile

  // ---------------------------------------------------------------- choosing a buffer size

  const KIB := 1024
  const MIB := 1024 * 1024

  /** Up to how much is left to move, and the buffer to use; the last row serves everything else. */
  const TABLE: seq<(int, int)> := [
    (100 * KIB, 1 * KIB),
    (1 * MIB, 10 * KIB),
    (10 * MIB, 100 * KIB),
    (100 * MIB, 1 * MIB),
    (0, 10 * MIB)
  ]

  /** The largest buffer in the table. */
  const LARGEST := 10 * MIB

  /** Row x is large enough for minSize and meant for this much remaining data. */
  predicate Suits(x: int, minSize: int, remaining: int)
    requires 0 <= x < 5
  {
    x == 4 || (TABLE[x].1 >= minSize && remaining < TABLE[x].0)
  }

  /** The buffer size of the first row that suits. */
  predicate Chosen(minSize: int, remaining: int, size: nat) {
    exists x :: 0 <= x < 5 && Suits(x, minSize, remaining) && size == TABLE[x].1 &&
                (forall y :: 0 <= y < x ==> !Suits(y, minSize, remaining))
  }

  /** The buffer by what is to be kept in it at least and what is left to move. */
  lemma ChosenIs(minSize: int, remaining: int, size: nat)
    ensures Chosen(minSize, remaining, size) <==>
            size == if minSize <= 1024 && remaining < 102400 then 1024
                    else if minSize <= 10240 && remaining < 1048576 then 10240
                    else if minSize <= 102400 && remaining < 10485760 then 102400
                    else if minSize <= 1048576 && remaining < 104857600 then 1048576
                    else 10485760
  {
    var x := if Suits(0, minSize, remaining) then 0 else if Suits(1, minSize, remaining) then 1
             else if Suits(2, minSize, remaining) then 2 else if Suits(3, minSize, remaining) then 3 else 4;
    assert Suits(x, minSize, remaining) && forall y :: 0 <= y < x ==> !Suits(y, minSize, remaining);
  }

  /** Picks the first suitable row; the minimum is met exactly when it is at most the largest buffer. */
  method BufferAllocate(minSize: int, remaining: nat) returns (err: int, size: nat)
    ensures err == 0 <==> remaining > 0
    ensures err != 0 ==> size == 0
    ensures err == 0 ==> Chosen(minSize, remaining, size) && size >= KIB
    ensures err == 0 ==> (minSize <= size <==> minSize <= LARGEST)
    ensures err == 0 && minSize > LARGEST ==> size == LARGEST
  {
    if remaining == 0 {
      return -1, 0;
    }
    var x := 0;
    if minSize > 0 {
      while x < 4 && TABLE[x].1 < minSize
        invariant 0 <= x <= 4
        invariant forall y :: 0 <= y < x ==> TABLE[y].1 < minSize
      {
        x := x + 1;
      }
    }
    while x < 4 && remaining >= TABLE[x].0
      invariant 0 <= x <= 4
      invariant forall y :: 0 <= y < x ==> !Suits(y, minSize, remaining)
      invariant x < 4 ==> TABLE[x].1 >= minSize
    {
      x := x + 1;
    }
    assert TABLE[4].1 == LARGEST;
    err, size := 0, TABLE[x].1;
  }

  // ---------------------------------------------------------------- moving blocks, on values

  /** The state of the copying loop: the file, the block read but not yet written, and both offsets. */
  datatype Move = Move(bytes: seq<byte>, block: seq<byte>, read: nat, write: nat)

  /** After the first block is read and the line written. */
  function Start(bytes: seq<byte>, line: seq<byte>, read: nat, write: nat, size: nat): Move
    requires write <= read <= |bytes|
  {
    var end := Min(read + size, |bytes|);
    Move(Overwrite(bytes, write, line), bytes[read..end], end, write + |line|)
  }

  predicate InRange(m: Move) {
    m.read <= |m.bytes| && m.write <= |m.bytes|
  }

  /** One round: read the next block if this one was full, then write this one. */
  function Round(m: Move, size: nat): (m': Move)
    requires InRange(m)
    ensures InRange(m')
  {
    var end := Min(m.read + size, |m.bytes|);
    var next := if |m.block| == size then m.bytes[m.read..end] else [];
    Move(Overwrite(m.bytes, m.write, m.block), next,
         if |m.block| == size && |next| == size then end else m.read, m.write + |m.block|)
  }

  function Rounds(m: Move, size: nat, k: nat): (m': Move)
    requires InRange(m)
    ensures InRange(m')
  {
    if k == 0 then m else Round(Rounds(m, size, k - 1), size)
  }

  /** The loop stops on an empty block, and the file is then cut at the write offset. */
  ghost predicate Results(m: Move, size: nat, result: seq<byte>)
    requires InRange(m)
  {
    exists k :: StopsAfter(m, size, k, result)
  }

  ghost predicate StopsAfter(m: Move, size: nat, k: nat, result: seq<byte>)
    requires InRange(m)
  {
    && Rounds(m, size, k).block == []
    && (forall i: nat :: i < k ==> Rounds(m, size, i).block != [])
    && result == Rounds(m, size, k).bytes[..Rounds(m, size, k).write]
  }

  /** What is still to be written after the write offset. */
  function Pending(m: Move, size: nat): seq<byte>
    requires InRange(m)
  {
    m.block + if |m.block| == size then m.bytes[m.read..] else []
  }

  /** The write offset has not passed unread data, and written plus pending is the target. */
  ghost predicate OnTrack(m: Move, size: nat, target: seq<byte>) {
    && InRange(m) && |m.block| <= size
    && (|m.block| == size ==> m.write <= m.read)
    && m.bytes[..m.write] + Pending(m, size) == target
  }

  ghost function Target(bytes: seq<byte>, line: seq<byte>, read: nat, write: nat): seq<byte>
    requires write <= read <= |bytes|
  {
    bytes[..write] + line + bytes[read..]
  }

  lemma StartIs(bytes: seq<byte>, line: seq<byte>, read: nat, write: nat, size: nat)
    requires write <= read <= |bytes|
    ensures var end := Min(read + size, |bytes|);
            Start(bytes, line, read, write, size)
              == Move(Overwrite(bytes, write, line), bytes[read..end], end, write + |line|)
    ensures InRange(Start(bytes, line, read, write, size))
  {}

  /** The line never reaches unread data when the buffer covers what the file grows by. */
  lemma StartOnTrack(bytes: seq<byte>, line: seq<byte>, read: nat, write: nat, size: nat)
    requires write <= read <= |bytes| && size > 0
    requires write + |line| <= read + size || |bytes| - read < size
    ensures OnTrack(Start(bytes, line, read, write, size), size, Target(bytes, line, read, write))
  {
    var m := Start(bytes, line, read, write, size);
    assert m.bytes[..m.write] == bytes[..write] + line;
    if |m.block| == size {
      assert m.bytes[m.read..] == bytes[m.read..];
      assert bytes[read..] == m.block + bytes[m.read..];
    } else {
      assert bytes[read..] == m.block;
      assert Pending(m, size) == m.block;
    }
  }

  /** A round keeps the loop on track and writes at least one byte of the target. */
  lemma RoundOnTrack(m: Move, size: nat, target: seq<byte>)
    requires OnTrack(m, size, target) && m.block != []
    ensures OnTrack(Round(m, size), size, target)
    ensures m.write < Round(m, size).write <= |target|
  {
    var m' := Round(m, size);
    RoundWrites(m, size);
    PendingShrinks(m, size);
    assert m.bytes[..m.write] + (m.block + Pending(m', size)) == (m.bytes[..m.write] + m.block) + Pending(m', size);
    hide Overwrite, Pending;
  }

  lemma RoundWrites(m: Move, size: nat)
    requires InRange(m)
    ensures Round(m, size).bytes[..m.write + |m.block|] == m.bytes[..m.write] + m.block
  {}

  /** Writing a block behind the read offset leaves what is still to be read alone. */
  lemma PendingShrinks(m: Move, size: nat)
    requires InRange(m) && |m.block| <= size && (|m.block| == size ==> m.write <= m.read)
    ensures Pending(m, size) == m.block + Pending(Round(m, size), size)
  {
    var m' := Round(m, size);
    if |m.block| == size {
      var end := Min(m.read + size, |m.bytes|);
      assert m.bytes[m.read..] == m'.block + m.bytes[end..];
      if |m'.block| == size {
        assert m'.bytes[m'.read..] == m.bytes[end..];
      }
    }
  }

  lemma RoundsNext(start: Move, size: nat, k: nat, m: Move)
    requires InRange(start) && m == Rounds(start, size, k) && m.block != []
    requires forall i: nat :: i < k ==> Rounds(start, size, i).block != []
    ensures Rounds(start, size, k + 1) == Round(m, size)
    ensures forall i: nat :: i < k + 1 ==> Rounds(start, size, i).block != []
  {}

  /** One round of the copying loop: reads ahead into spare, then writes what held holds. */
  method MoveBlock(file: File, held: array<byte>, spare: array<byte>, have: nat, fileRead: nat, fileWrite: nat,
                   ghost m: Move)
    returns (n: nat, read: nat, write: nat)
    requires held != spare && held.Length == spare.Length && have <= held.Length
    requires InRange(m) && m == Move(file.bytes, held[..have], fileRead, fileWrite)
    modifies file, spare
    ensures n <= spare.Length
    ensures Round(m, held.Length) == Move(file.bytes, spare[..n], read, write)
  {
    hide Overwrite;
    n, read := 0, fileRead;
    var ok;
    if have == held.Length {
      ok := file.Seek(fileRead);
      n := file.Read(spare);
      if n == spare.Length { read := file.pos; }
    }
    assert held[..have] == m.block;
    ok := file.Seek(fileWrite);
    file.Write(held[..have]);
    write := file.pos;
  }

  /** The file has grown only by what was written, and a full block was read less than size before the write offset. */
  ghost predicate Bounded(m: Move, size: nat, length: nat) {
    && InRange(m) && |m.block| <= size && length <= |m.bytes|
    && |m.bytes| == (if m.write > length then m.write else length)
    && (|m.block| == size ==> m.write < m.read + size)
  }

  /** Rounds still to come: full blocks inside the original length, a last one, none. */
  ghost function Ahead(m: Move, size: nat, length: nat): nat {
    if m.block == [] then 0 else if |m.block| < size then 1 else 2 + if m.read < length then length - m.read else 0
  }

  lemma RoundIsBounded(m: Move, size: nat, length: nat)
    requires Bounded(m, size, length) && m.block != []
    ensures Bounded(Round(m, size), size, length)
    ensures Ahead(Round(m, size), size, length) < Ahead(m, size, length)
  {
    hide Overwrite;
    assert |Overwrite(m.bytes, m.write, m.block)|
           == if m.write + |m.block| > |m.bytes| then m.write + |m.block| else |m.bytes|;
  }

  /** The copying loop, followed by the cut at the write offset. */
  method MoveBlocks(file: File, first: array<byte>, second: array<byte>, have: nat, fileRead: nat, fileWrite: nat,
                    ghost start: Move)
    requires first.Length == second.Length > 0 && first != second && have <= first.Length
    requires InRange(start) && start == Move(file.bytes, first[..have], fileRead, fileWrite)
    requires Bounded(start, first.Length, |file.bytes|)
    modifies file, first, second
    ensures Results(start, first.Length, file.bytes)
  {
    ghost var size, length := first.Length, |file.bytes|;
    var buff0, buff1, n0, read, write := first, second, have, fileRead, fileWrite;
    ghost var k: nat, m := 0, start;
    assert Rounds(start, size, k) == m;
    hide *;
    while n0 > 0
      invariant (buff0 == first && buff1 == second) || (buff0 == second && buff1 == first)
      invariant 0 <= n0 <= buff0.Length == size
      invariant InRange(m) && m == Rounds(start, size, k) && m == Move(file.bytes, buff0[..n0], read, write)
      invariant forall i: nat :: i < k ==> Rounds(start, size, i).block != []
      invariant Bounded(m, size, length)
      decreases Ahead(m, size, length)
    {
      RoundIsBounded(m, size, length);
      RoundsNext(start, size, k, m);
      n0, read, write := MoveBlock(file, buff0, buff1, n0, read, write, m);
      buff0, buff1 := buff1, buff0;
      m, k := Round(m, size), k + 1;
    }
    file.Truncate(write);
    assert m.block == [];
    assert Results(start, size, file.bytes) by { StopsHere(start, size, k, m); }
  }

  lemma StopsHere(start: Move, size: nat, k: nat, m: Move)
    requires InRange(start) && m == Rounds(start, size, k) && m.block == []
    requires forall i: nat :: i < k ==> Rounds(start, size, i).block != []
    ensures Results(start, size, m.bytes[..m.write])
  {
    assert StopsAfter(start, size, k, m.bytes[..m.write]);
  }

  /** How far the line reaches past the data it replaces. */
  function Growth(lineLength: nat, read: int, write: int): int {
    if write + lineLength > read then write + lineLength - read else 0
  }

  /** The file grows by at most the largest buffer, or less than one such buffer is moved. */
  predicate Covered(length: nat, lineLength: nat, read: int, write: int) {
    Growth(lineLength, read, write) <= LARGEST || length - read < LARGEST
  }

  /**
    The copying loop comes to an end: the file grows by less than two of the largest buffers, or
    less than one is moved.
   */
  predicate Ends(length: nat, lineLength: nat, read: int, write: int) {
    Growth(lineLength, read, write) < 2 * LARGEST || length - read < LARGEST
  }

  /** The buffer covers the growth, or does so but for less than another buffer, or is not filled even once. */
  predicate Fits(length: nat, lineLength: nat, read: int, write: int, size: nat) {
    Growth(lineLength, read, write) < 2 * size || length - read < size
  }

  lemma StartIsBounded(bytes: seq<byte>, line: seq<byte>, read: nat, write: nat, size: nat)
    requires write <= read <= |bytes| && Fits(|bytes|, |line|, read, write, size)
    ensures var m := Start(bytes, line, read, write, size); Bounded(m, size, |m.bytes|)
  {
    hide Overwrite;
    assert |Overwrite(bytes, write, line)| == if write + |line| > |bytes| then write + |line| else |bytes|;
  }

  /** The loop has at most one result. */
  lemma ResultIsUnique(m: Move, size: nat, a: seq<byte>, b: seq<byte>)
    requires InRange(m) && Results(m, size, a) && Results(m, size, b)
    ensures a == b
  {
    var i :| StopsAfter(m, size, i, a);
    var j :| StopsAfter(m, size, j, b);
    assert i == j;
  }

  lemma CoveredIsRight(bytes: seq<byte>, line: seq<byte>, read: nat, write: nat, size: nat, result: seq<byte>)
    requires write <= read <= |bytes| && size > 0 && Results(Start(bytes, line, read, write, size), size, result)
    requires Growth(|line|, read, write) <= size || |bytes| - read < size
    ensures result == Target(bytes, line, read, write)
  {
    var start, target := Start(bytes, line, read, write, size), Target(bytes, line, read, write);
    StartIs(bytes, line, read, write, size);
    StartOnTrack(bytes, line, read, write, size);
    assert Rounds(start, size, 0) == start;
    hide OnTrack, Start, Rounds, Round, Target, Results;
    OnTrackStops(start, size, target, 0);
    ResultIsUnique(start, size, result, target);
  }

  /** The part of the splice that needs buffers: first block, line, remaining blocks. */
  method MoveRest(file: File, line: seq<byte>, fileRead: int, fileWrite: int, size: nat) returns (err: int)
    requires fileWrite <= fileRead < |file.bytes| && size > 0
    requires 0 <= fileWrite ==> Fits(|file.bytes|, |line|, fileRead, fileWrite, size)
    modifies file
    ensures err == 0 <==> 0 <= fileWrite
    ensures err != 0 ==> file.bytes == old(file.bytes)
    ensures err == 0 ==> Results(Start(old(file.bytes), line, fileRead, fileWrite, size), size, file.bytes)
  {
    hide Bounded, Start, Results, Overwrite, InRange, Fits;
    ghost var before := file.bytes;
    err := -1;
    var buff0, buff1 := new byte[size], new byte[size];
    var ok := file.Seek(fileRead);
    if !ok { return; }
    var n0 := file.Read(buff0);
    var read := file.pos;
    ok := file.Seek(fileWrite);
    if !ok { return; }
    file.Write(line);
    var write := file.pos;
    ghost var start := Start(before, line, fileRead, fileWrite, size);
    StartIs(before, line, fileRead, fileWrite, size);
    StartIsBounded(before, line, fileRead, fileWrite, size);
    assert start == Move(file.bytes, buff0[..n0], read, write);
    MoveBlocks(file, buff0, buff1, n0, read, write, start);
    err := 0;
  }

  /**
    Replaces the bytes from write to read by line, which may be empty. It reports success exactly
    when both offsets are in order and inside the file, and otherwise changes nothing. Splices whose
    loop never ends are the only ones excluded; what one that is not covered leaves is in Results.
   */
  method InsertLineInFile(file: File, line: seq<byte>, fileRead: int, fileWrite: int)
    returns (err: int, ghost size: nat)
    requires 0 <= fileWrite <= fileRead <= |file.bytes| ==> Ends(|file.bytes|, |line|, fileRead, fileWrite)
    modifies file
    ensures err == 0 <==> 0 <= fileWrite <= fileRead <= |old(file.bytes)|
    ensures err != 0 ==> file.bytes == old(file.bytes)
    ensures err == 0 && Covered(|old(file.bytes)|, |line|, fileRead, fileWrite) ==>
              file.bytes == Target(old(file.bytes), line, fileRead, fileWrite)
    ensures err == 0 && fileRead < |old(file.bytes)| ==>
              && Chosen(Growth(|line|, fileRead, fileWrite), |old(file.bytes)| - fileRead, size)
              && Results(Start(old(file.bytes), line, fileRead, fileWrite, size), size, file.bytes)
  {
    hide Bounded, Start, Results, Chosen, Overwrite, InRange;
    err, size := -1, 0;
    if fileWrite > fileRead {
      return;
    }
    var minSize := fileWrite + |line|;
    minSize := if minSize > fileRead then minSize - fileRead else 0;
    file.SeekEnd();
    var end := file.pos;
    if end < fileRead {
      return;
    }
    var remaining := end - fileRead;
    ghost var before := file.bytes;
    if remaining == 0 {
      var ok := file.Seek(fileWrite);
      if !ok { return; }
      file.Write(line);
      file.Truncate(file.pos);
      assert file.bytes == before[..fileWrite] + line;
      return 0, 0;
    }
    var buffSize;
    err, buffSize := BufferAllocate(minSize, remaining);
    err, size := -1, buffSize;
    err := MoveRest(file, line, fileRead, fileWrite, buffSize);
    if err == 0 && Covered(|before|, |line|, fileRead, fileWrite) {
      CoveredIsRight(before, line, fileRead, fileWrite, buffSize, file.bytes);
    }
  }

  // ---------------------------------------------------------------- exactly when it is right

  /** Every file and line of these lengths is spliced correctly with buffers of this size. */
  ghost predicate AlwaysRight(length: nat, lineLength: nat, read: nat, write: nat, size: nat)
    requires write <= read <= length
  {
    forall bytes: seq<byte>, line: seq<byte> {:trigger Target(bytes, line, read, write)} ::
      |bytes| == length && |line| == lineLength ==>
        Results(Start(bytes, line, read, write, size), size, Target(bytes, line, read, write))
  }

  lemma OnTrackEnds(m: Move, size: nat, target: seq<byte>)
    requires OnTrack(m, size, target) && m.block == [] && size > 0
    ensures InRange(m) && m.bytes[..m.write] == target
  {}

  /** On track, the loop stops with the target. */
  lemma {:induction false} OnTrackStops(m: Move, size: nat, target: seq<byte>, k: nat)
    requires InRange(m) && size > 0 && OnTrack(Rounds(m, size, k), size, target)
    requires forall i: nat :: i < k ==> Rounds(m, size, i).block != []
    ensures Results(m, size, target)
    decreases |target| - Rounds(m, size, k).write
  {
    var now := Rounds(m, size, k);
    hide *;
    if now.block == [] {
      OnTrackEnds(now, size, target);
      StopsHere(m, size, k, now);
    } else {
      RoundOnTrack(now, size, target);
      RoundsNext(m, size, k, now);
      OnTrackStops(m, size, target, k + 1);
    }
  }

  /** Everything written by a is still there in b. */
  ghost predicate Keeps(a: Move, b: Move)
    requires InRange(a) && InRange(b)
  {
    a.write <= b.write && b.bytes[..a.write] == a.bytes[..a.write]
  }

  lemma KeepsTransitive(a: Move, b: Move, c: Move)
    requires InRange(a) && InRange(b) && InRange(c) && Keeps(a, b) && Keeps(b, c)
    ensures Keeps(a, c)
  {
    assert c.bytes[..a.write] == c.bytes[..b.write][..a.write];
    assert b.bytes[..a.write] == b.bytes[..b.write][..a.write];
  }

  lemma RoundKeepsWritten(m: Move, size: nat)
    requires InRange(m)
    ensures Keeps(m, Round(m, size))
  {}

  lemma KeepsItself(m: Move)
    requires InRange(m)
    ensures Keeps(m, m)
  {}

  lemma LastRound(m: Move, size: nat, k: nat)
    requires InRange(m) && k > 0
    ensures Rounds(m, size, k) == Round(Rounds(m, size, k - 1), size)
  {
    hide Round;
  }

  /** What has been written stays written. */
  lemma {:induction false} WrittenStays(m: Move, size: nat, i: nat, j: nat)
    requires InRange(m) && i <= j
    ensures Keeps(Rounds(m, size, i), Rounds(m, size, j))
    decreases j
  {
    hide *;
    if i < j {
      var before := Rounds(m, size, j - 1);
      WrittenStays(m, size, i, j - 1);
      RoundKeepsWritten(before, size);
      LastRound(m, size, j);
      KeepsTransitive(Rounds(m, size, i), before, Rounds(m, size, j));
    } else {
      KeepsItself(Rounds(m, size, i));
    }
  }

  /** When the line runs over unread data, the second block starts with a byte of the line. */
  lemma OverrunReadsLine(bytes: seq<byte>, line: seq<byte>, read: nat, write: nat, size: nat)
    requires write <= read && size > 0 && read + size <= |bytes| && write + |line| > read + size
    ensures var m := Start(bytes, line, read, write, size);
            var m1 := Rounds(m, size, 1);
            && m.block != [] && m1.block != [] && m1.write == write + |line| + size
            && m1.block[0] == line[read + size - write]
  {
    var m := Start(bytes, line, read, write, size);
    assert Rounds(m, size, 0) == m && Rounds(m, size, 1) == Round(m, size);
    hide Rounds, Overwrite;
    assert m.bytes[write..write + |line|] == line;
    assert m.bytes[read + size] == m.bytes[write..write + |line|][read + size - write];
  }

  lemma SecondBlockIsWritten(m: Move, size: nat)
    requires InRange(m) && Rounds(m, size, 1).block != []
    ensures var m1, m2 := Rounds(m, size, 1), Rounds(m, size, 2);
            m1.write < m2.write && m2.bytes[m1.write] == m1.block[0]
  {
    var m1 := Rounds(m, size, 1);
    hide Round;
    assert Rounds(m, size, 2) == Round(m1, size);
    BlockIsWritten(m1, size);
  }

  lemma BlockIsWritten(m: Move, size: nat)
    requires InRange(m) && m.block != []
    ensures var m' := Round(m, size); m.write < m'.write && m'.bytes[m.write] == m.block[0]
  {
    var m' := Round(m, size);
    assert m'.bytes[m.write..m.write + |m.block|][0] == m.block[0];
  }

  lemma OverrunKeepsByte(m: Move, size: nat, k: nat)
    requires InRange(m) && m.block != [] && Rounds(m, size, 1).block != [] && Rounds(m, size, k).block == []
    ensures Rounds(m, size, 1).write < Rounds(m, size, k).write
    ensures Rounds(m, size, k).bytes[Rounds(m, size, 1).write] == Rounds(m, size, 1).block[0]
  {
    assert Rounds(m, size, 0) == m;
    hide Rounds, Round;
    assert k >= 2;
    var m1, m2 := Rounds(m, size, 1), Rounds(m, size, 2);
    SecondBlockIsWritten(m, size);
    WrittenStays(m, size, 2, k);
    assert Rounds(m, size, k).bytes[..m2.write][m1.write] == m2.bytes[..m2.write][m1.write];
  }

  /** An uncovered splice reads back a byte of the line: ones into zeros come out wrong. */
  lemma OverrunIsWrong(length: nat, lineLength: nat, read: nat, write: nat, size: nat)
    requires write <= read && size > 0 && read + size <= length && write + lineLength > read + size
    ensures !AlwaysRight(length, lineLength, read, write, size)
  {
    var bytes: seq<byte> := seq(length, _ => 0);
    var line: seq<byte> := seq(lineLength, _ => 1);
    var m, target := Start(bytes, line, read, write, size), Target(bytes, line, read, write);
    var w := Rounds(m, size, 1).write;
    assert InRange(m);
    OverrunReadsLine(bytes, line, read, write, size);
    assert |target| > w ==> target[w] == 0;
    hide Rounds, Round, Start, AlwaysRight, Target, InRange;
    forall k: nat, result | StopsAfter(m, size, k, result) ensures result != target {
      OverrunKeepsByte(m, size, k);
      assert |result| > w && result[w] == 1;
    }
    assert !Results(m, size, target);
    AlwaysRightAt(length, lineLength, read, write, size, bytes, line);
  }

  lemma AlwaysRightAt(length: nat, lineLength: nat, read: nat, write: nat, size: nat, bytes: seq<byte>, line: seq<byte>)
    requires write <= read <= length && |bytes| == length && |line| == lineLength
    ensures AlwaysRight(length, lineLength, read, write, size) ==>
              Results(Start(bytes, line, read, write, size), size, Target(bytes, line, read, write))
  {}

  /** The splice is right for all contents exactly when it is covered. */
  lemma SpliceRightIffCovered(length: nat, lineLength: nat, read: nat, write: nat, size: nat)
    requires write <= read < length && Chosen(Growth(lineLength, read, write), length - read, size)
    ensures AlwaysRight(length, lineLength, read, write, size) <==> Covered(length, lineLength, read, write)
  {
    var x :| 0 <= x < 5 && Suits(x, Growth(lineLength, read, write), length - read) && size == TABLE[x].1;
    if Covered(length, lineLength, read, write) {
      forall bytes: seq<byte>, line: seq<byte> | |bytes| == length && |line| == lineLength
        ensures Results(Start(bytes, line, read, write, size), size, Target(bytes, line, read, write))
      {
        StartOnTrack(bytes, line, read, write, size);
        OnTrackStops(Start(bytes, line, read, write, size), size, Target(bytes, line, read, write), 0);
      }
    } else {
      OverrunIsWrong(length, lineLength, read, write, size);
    }
  }

  // ---------------------------------------------------------------- exactly when it ends

  lemma UncoveredIsLargest(length: nat, lineLength: nat, read: nat, write: nat, size: nat)
    requires read < length ==> Chosen(Growth(lineLength, read, write), length - read, size)
    ensures !Covered(length, lineLength, read, write) ==> size == LARGEST && read < length
  {
    assert TABLE[4].1 == LARGEST;
  }

  lemma {:induction false} BoundedStops(m: Move, size: nat, length: nat, k: nat) returns (result: seq<byte>)
    requires InRange(m) && Bounded(Rounds(m, size, k), size, length)
    requires forall i: nat :: i < k ==> Rounds(m, size, i).block != []
    ensures Results(m, size, result)
    decreases Ahead(Rounds(m, size, k), size, length)
  {
    var now := Rounds(m, size, k);
    hide *;
    if now.block == [] {
      result := now.bytes[..now.write];
      StopsHere(m, size, k, now);
    } else {
      RoundIsBounded(now, size, length);
      RoundsNext(m, size, k, now);
      result := BoundedStops(m, size, length, k + 1);
    }
  }

  /** With the write offset a whole buffer ahead there is always another full block to read. */
  lemma {:induction false} AlwaysAnother(m: Move, size: nat, k: nat)
    requires InRange(m) && size > 0 && |m.block| == size && m.write >= m.read + size
    ensures var now := Rounds(m, size, k); |now.block| == size && now.write >= now.read + size
  {
    if k > 0 {
      AlwaysAnother(m, size, k - 1);
      hide Round, InRange;
      AnotherRound(Rounds(m, size, k - 1), size);
    }
  }

  lemma AnotherRound(m: Move, size: nat)
    requires InRange(m) && size > 0 && |m.block| == size && m.write >= m.read + size
    ensures var m' := Round(m, size); |m'.block| == size && m'.write >= m'.read + size
  {
    hide Overwrite;
  }

  /** The copying loop ends exactly when the file grows by less than two buffers or less than one is moved. */
  lemma SpliceEndsIff(bytes: seq<byte>, line: seq<byte>, read: nat, write: nat, size: nat)
    requires write <= read < |bytes| && Chosen(Growth(|line|, read, write), |bytes| - read, size)
    ensures (exists result :: Results(Start(bytes, line, read, write, size), size, result))
            <==> Ends(|bytes|, |line|, read, write)
  {
    var start := Start(bytes, line, read, write, size);
    var x :| 0 <= x < 5 && Suits(x, Growth(|line|, read, write), |bytes| - read) && size == TABLE[x].1;
    StartIs(bytes, line, read, write, size);
    assert Rounds(start, size, 0) == start;
    if Ends(|bytes|, |line|, read, write) {
      StartIsBounded(bytes, line, read, write, size);
      hide Rounds, Bounded, Start, Results;
      var result := BoundedStops(start, size, |start.bytes|, 0);
    } else {
      assert |start.block| == size && start.write >= start.read + size;
      hide Rounds, Start;
      if result :| Results(start, size, result) {
        var k :| StopsAfter(start, size, k, result);
        AlwaysAnother(start, size, k);
        assert false;
      }
    }
  }
}
