/** A file opened for update: its bytes and a position. Reads, writes and seeks in range succeed. */
module MailFile {
  import opened Bytes

  const EOF := -1

  /** bytes with data written at position p, growing the file when data reaches past the end. */
  function Overwrite(bytes: seq<byte>, p: nat, data: seq<byte>): (r: seq<byte>)
    requires p <= |bytes|
    ensures |r| == if p + |data| > |bytes| then p + |data| else |bytes|
    ensures r[..p] == bytes[..p] && r[p..p + |data|] == data
    ensures forall i :: p + |data| <= i < |r| ==> r[i] == bytes[i]
  {
    bytes[..p] + data + if p + |data| < |bytes| then bytes[p + |data|..] else []
  }

  function Min(a: int, b: int): int {
    if a < b then a else b
  }

  class File {
    var bytes: seq<byte>
    var pos: nat

    constructor (contents: seq<byte>)
      ensures bytes == contents && pos == 0
    {
      bytes, pos := contents, 0;
    }

    /** fseek from the start; negative offsets are refused. */
    method Seek(p: int) returns (ok: bool)
      modifies this`pos
      ensures ok <==> p >= 0
      ensures pos == if ok then p else old(pos)
    {
      ok := p >= 0;
      if ok { pos := p; }
    }

    method SeekEnd()
      modifies this`pos
      ensures pos == |bytes|
    {
      pos := |bytes|;
    }

    /** fread into a buffer: as many bytes as are left, at most buf.Length. */
    method Read(buf: array<byte>) returns (n: nat)
      requires pos <= |bytes|
      modifies this`pos, buf
      ensures n == Min(buf.Length, |bytes| - old(pos)) && pos == old(pos) + n
      ensures buf[..n] == bytes[old(pos)..pos]
    {
      n := Min(buf.Length, |bytes| - pos);
      forall i | 0 <= i < n {
        buf[i] := bytes[pos + i];
      }
      pos := pos + n;
    }

    /** getc: the next byte, or EOF. */
    method GetC() returns (c: int)
      requires pos <= |bytes|
      modifies this`pos
      ensures if old(pos) == |bytes| then c == EOF && pos == old(pos) else c == bytes[old(pos)] && pos == old(pos) + 1
    {
      if pos == |bytes| { return EOF; }
      c := bytes[pos];
      pos := pos + 1;
    }

    method Write(data: seq<byte>)
      requires pos <= |bytes|
      modifies this
      ensures bytes == Overwrite(old(bytes), old(pos), data) && pos == old(pos) + |data|
    {
      bytes := Overwrite(bytes, pos, data);
      pos := pos + |data|;
    }

    method Truncate(n: nat)
      requires n <= |bytes|
      modifies this`bytes
      ensures bytes == old(bytes)[..n]
    {
      bytes := bytes[..n];
    }
  }
}
