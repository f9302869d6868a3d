/** The operating system's side of read and write, as nondeterministic as the
    programs have to cope with. */
module Descriptors {

  /** An open file or the receiving end of a connection: `data` is everything that will
      ever be read from it. */
  class Source {
    const data: string
    var pos: nat

    ghost predicate Valid() reads this { pos <= |data| }

    /** The bytes not read yet. */
    ghost function Rest(): string
      reads this
      requires Valid()
    {
      data[pos..]
    }

    constructor (data: string)
      ensures Valid() && this.data == data && Rest() == data
    {
      this.data, pos := data, 0;
    }

    /** read(fd, buf + at, max): any positive number of bytes up to `max`, and zero only
        for an empty request or at the end of the data. */
    method Read(buf: array<char>, at: nat, max: nat) returns (n: nat)
      requires Valid() && at + max <= buf.Length
      modifies this`pos, buf
      ensures Valid() && n <= max && n <= |old(Rest())|
      ensures n == 0 <==> max == 0 || old(Rest()) == ""
      ensures Rest() == old(Rest())[n..] && pos == old(pos) + n
      ensures buf[at..at + n] == old(Rest())[..n] && old(Rest()) == buf[at..at + n] + Rest()
      ensures buf[..at] == old(buf[..at]) && buf[at + n..] == old(buf[at + n..])
    {
      n := 0;
      if max > 0 && pos < |data| {
        n :| 1 <= n <= max && n <= |data| - pos;
        forall i | 0 <= i < n {
          buf[at + i] := data[pos + i];
        }
        pos := pos + n;
      }
    }
  }

  /** A read to the start of a buffer, with the bytes that it put there. */
  method ReadChunk(file: Source, buf: array<char>, max: nat) returns (chunk: string)
    requires file.Valid() && max <= buf.Length
    modifies file`pos, buf
    ensures file.Valid() && |chunk| <= max && chunk == buf[..|chunk|]
    ensures old(file.Rest()) == chunk + file.Rest()
    ensures chunk == "" <==> max == 0 || old(file.Rest()) == ""
  {
    var readBytes := file.Read(buf, 0, max);
    chunk := buf[..readBytes];
    assert chunk == buf[0..0 + readBytes];
  }

  /** A chunk moved from the data to be sent to the data sent. */
  lemma Joins(sent: string, chunk: string, rest: string)
    ensures sent + (chunk + rest) == sent + chunk + rest
  {
  }

  /** The sending end of a connection, or a file being written. */
  class Sink {
    var sent: string
    /** Some write of a non-empty request has failed. */
    var broken: bool

    constructor ()
      ensures sent == "" && !broken
    {
      sent, broken := "", false;
    }

    /** A write of a non-empty request that takes some of it, but perhaps not all. */
    method WriteSome(bytes: string) returns (n: nat)
      requires bytes != ""
      modifies this`sent
      ensures 1 <= n <= |bytes| && sent == old(sent) + bytes[..n]
    {
      n :| 1 <= n <= |bytes|;
      sent := sent + bytes[..n];
    }

    /** A write that takes everything it is given. */
    method WriteAll(bytes: string) returns (n: nat)
      modifies this`sent
      ensures n == |bytes| && sent == old(sent) + bytes
    {
      n := |bytes|;
      sent := sent + bytes;
    }

    /** write(): takes some of the request, or fails with -1 or 0 and takes nothing. */
    method Write(bytes: string) returns (n: int)
      modifies this
      ensures -1 <= n <= |bytes|
      ensures sent == old(sent) + if n > 0 then bytes[..n] else ""
      ensures broken == (old(broken) || (n <= 0 && bytes != ""))
    {
      n :| -1 <= n <= |bytes|;
      if n > 0 {
        sent := sent + bytes[..n];
      }
      broken := broken || (n <= 0 && bytes != "");
    }
  }
}
