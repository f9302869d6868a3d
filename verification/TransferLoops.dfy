/** The loops of the two file-transfer programs (FT_protocoll and PRACTICA2), over
    descriptors with short reads and the C buffers they fill in place. */
module TransferLoops {
  import opened CText
  import opened Descriptors
  import opened SendLoops
  import opened FileTransfer
  import opened FileTransferProofs
  import opened CommandSession

  // ----- the name loop -----

  /** The bytes read so far never fall outside the path buffer. */
  predicate NameFits(r: NameReader, s: string)
    decreases s
  {
    !WantsMore(r) || s == "" || (FitsPath(r, s[0]) && NameFits(Feed(r, s[0]), s[1..]))
  }

  /** Where the name loop ends on the stream `s`: the reader, and the bytes left. */
  function ReadLine(r: NameReader, s: string): (NameReader, string)
    requires NameFits(r, s)
    decreases s
  {
    if !WantsMore(r) || s == "" then (r, s) else ReadLine(Feed(r, s[0]), s[1..])
  }

  /** The server's name loop, one byte a read. */
  method ReadFileName(sock: Source) returns (path: array<char>)
    requires sock.Valid() && NameFits(FreshReader, sock.Rest())
    modifies sock
    ensures sock.Valid() && fresh(path)
    ensures ReadLine(FreshReader, old(sock.Rest())).0.path == path[..]
    ensures ReadLine(FreshReader, old(sock.Rest())).1 == sock.Rest()
  {
    var buffer := new char[BUFFERSIZE](_ => NUL);
    path := new char[PATH_SIZE](_ => NUL);
    assert path[..] == Zeros(PATH_SIZE);
    var ret, cur, length := NUL, NUL, 0;
    while ret != '\r' && cur != '\n'
      invariant sock.Valid() && fresh(path) && fresh(buffer) && path != buffer && buffer.Length == BUFFERSIZE
      invariant var r := NameReader(ret, cur, path[..], length);
                NameFits(r, sock.Rest()) && ReadLine(r, sock.Rest()) == ReadLine(FreshReader, old(sock.Rest()))
      decreases |sock.Rest()|
    {
      ghost var before := sock.Rest();
      var n := sock.Read(buffer, 0, 1);
      if n <= 0 {
        break;
      }
      assert buffer[0..1][0] == before[0];
      ret := cur;
      cur := buffer[0];
      if cur != '\r' && cur != '\n' {
        path[length] := cur;
      }
      length := length + 1;
    }
  }

  lemma HeadOf(line: string, i: nat, later: string)
    requires i < |line|
    ensures (line[i..] + later)[0] == line[i] && (line[i..] + later)[1..] == line[i + 1..] + later
  {
    assert line[i..] == [line[i]] + line[i + 1..];
  }

  lemma {:induction false} NameLoopFrom(name: string, i: nat, later: string)
    requires |name| <= PATH_SIZE - 1 && '\r' !in name && '\n' !in name
    requires i <= |name| + 2
    ensures NameFits(ReaderAt(name, i), Line(name)[i..] + later)
    ensures ReadLine(ReaderAt(name, i), Line(name)[i..] + later) == (ReaderAt(name, |name| + 2), later)
    decreases |name| + 2 - i
  {
    var s := Line(name)[i..] + later;
    if i < |name| + 2 {
      ReaderFollowsLine(name, i);
      if i > 0 {
        ReaderFollowsLine(name, i - 1);
      }
      HeadOf(Line(name), i, later);
      NameLoopFrom(name, i + 1, later);
    } else {
      ReaderFollowsLine(name, i - 1);
      assert s == later;
    }
  }

  /** The loop rebuilds every name that fits and takes no byte after its CRLF. */
  lemma NameLoopReadsExactlyTheLine(name: string, later: string)
    requires |name| <= PATH_SIZE - 1 && NUL !in name && '\r' !in name && '\n' !in name
    ensures NameFits(FreshReader, name + "\r\n" + later)
    ensures ReadLine(FreshReader, name + "\r\n" + later).1 == later
    ensures CStr(ReadLine(FreshReader, name + "\r\n" + later).0.path) == name
  {
    assert FreshReader == ReaderAt(name, 0);
    assert Line(name)[0..] + later == name + CRLF + later;
    NameLoopFrom(name, 0, later);
    ReaderFindsName(name);
  }

  /** The name's own bytes are taken one by one, whatever stands behind them. */
  lemma {:induction false} NameIsTaken(name: string, i: nat, tail: string)
    requires |name| <= PATH_SIZE - 1 && '\r' !in name && '\n' !in name && i <= |name|
    requires NameFits(ReaderAt(name, |name|), tail)
    ensures NameFits(ReaderAt(name, i), name[i..] + tail)
    ensures ReadLine(ReaderAt(name, i), name[i..] + tail) == ReadLine(ReaderAt(name, |name|), tail)
    decreases |name| - i
  {
    if i < |name| {
      ReaderFollowsLine(name, i);
      if i > 0 {
        ReaderFollowsLine(name, i - 1);
      }
      HeadOf(name, i, tail);
      NameIsTaken(name, i + 1, tail);
    } else {
      assert name[i..] + tail == tail;
    }
  }

  /** How a line may end: with a bare LF, with a CR and any one byte, or with the stream. */
  predicate LineEnd(end: string, later: string) {
    end == "\n" || (|end| == 2 && end[0] == '\r') || (later == "" && (end == "" || end == "\r"))
  }

  /** On the stream `s` the loop rebuilds `name` and leaves `later`. */
  predicate NameRead(r: NameReader, s: string, name: string, later: string) {
    NameFits(r, s) && ReadLine(r, s).1 == later && CStr(ReadLine(r, s).0.path) == name
  }

  /** The reader has all of `name`, and the next cell of the path is still zero. */
  predicate Holds(r: NameReader, name: string) {
    && |name| <= 250 && NUL !in name && |r.path| == PATH_SIZE && CStr(r.path) == name
    && r.path[..|name|] == name && r.path[|name|] == NUL && WantsMore(r)
  }

  lemma ReaderHolds(name: string)
    requires |name| <= 250 && NUL !in name && '\r' !in name && '\n' !in name
    ensures var r := ReaderAt(name, |name|); Holds(r, name) && r.cur != '\r' && r.length == |name|
  {
    var r := ReaderAt(name, |name|);
    assert name[..|name|] == name;
    assert r.path[..|name|] == name && r.path[|name|] == NUL;
    CStrStopsAt(r.path, |name|);
    if |name| > 0 {
      ReaderFollowsLine(name, |name| - 1);
    }
  }

  lemma EndIsRead(r: NameReader, name: string, end: string, later: string, s: string)
    requires Holds(r, name) && r.cur != '\r' && r.length == |name| && LineEnd(end, later) && s == end + later
    ensures NameRead(r, s, name, later)
  {
    if end == "" {
      assert s == "";
    } else {
      assert s[0] == end[0] && s[1..] == end[1..] + later;
      var r' := Feed(r, s[0]);
      if |end| == 2 {
        ByteAfterCR(r', name, s[1..], later);
      } else {
        assert s[1..] == later;
      }
    }
  }

  /** After a CR one more byte is taken, whichever it is. */
  lemma ByteAfterCR(r: NameReader, name: string, s: string, later: string)
    requires Holds(r, name) && r.cur == '\r' && r.length == |name| + 1 && s != "" && s[1..] == later
    ensures NameRead(r, s, name, later)
  {
    var r' := Feed(r, s[0]);
    assert !WantsMore(r') && ReadLine(r, s) == ReadLine(r', later) == (r', later);
    assert r'.path[..|name|] == name;
    CStrStopsAt(r'.path, |name|);
  }

  /** Any name of at most 250 bytes is rebuilt however its line ends, and nothing behind
      the end is taken. */
  lemma NameLoopEndings(name: string, end: string, later: string, s: string)
    requires |name| <= 250 && NUL !in name && '\r' !in name && '\n' !in name && LineEnd(end, later)
    requires s == name + (end + later)
    ensures NameRead(FreshReader, s, name, later)
  {
    assert FreshReader == ReaderAt(name, 0) && name[0..] == name;
    ReaderHolds(name);
    EndIsRead(ReaderAt(name, |name|), name, end, later, end + later);
    NameIsTaken(name, 0, end + later);
  }

  // ----- the size field -----

  /** snprintf into the reused buffer, then the ten-byte write. */
  method SendSizeField(message: array<char>, size: nat, sock: Sink)
    requires message.Length == 100 && size < Pow10(10)
    modifies message, sock`sent
    ensures message[..] == (DecimalLength(size, 10); PrintSize(old(message[..]), size))
    ensures sock.sent == old(sock.sent) + SizeField(old(message[..]), size)
  {
    DecimalLength(size, 10);
    var text := Decimal(size) + [NUL];
    ghost var was := message[..];
    forall i | 0 <= i < |text| {
      message[i] := text[i];
    }
    assert message[..] == PrintSize(was, size);
    var w := SendAssigning(sock, message[..10]);
  }

  // ----- sending a file -----

  /** The send loop of FT_protocoll: whatever the short file reads, the file goes out once in order. */
  method SendWholeFile(file: Source, sock: Sink)
    requires file.Valid()
    modifies file, sock`sent
    ensures file.Valid() && file.Rest() == ""
    ensures sock.sent == old(sock.sent) + old(file.Rest())
  {
    var buffer := new char[BUFFERSIZE](_ => NUL);
    ghost var goal := sock.sent + file.Rest();
    var chunk := ReadChunk(file, buffer, BUFFERSIZE);
    while |chunk| > 0
      invariant file.Valid() && fresh(buffer) && buffer.Length == BUFFERSIZE
      invariant sock.sent + (chunk + file.Rest()) == goal
      invariant chunk == "" ==> file.Rest() == ""
      decreases |file.Rest()| + |chunk|
    {
      Joins(sock.sent, chunk, file.Rest());
      var w := SendAssigning(sock, chunk);
      chunk := ReadChunk(file, buffer, BUFFERSIZE);
    }
  }

  /** sendFile's skip loop: one-byte reads, which at the end of the file read nothing. */
  method SkipBytes(file: Source, initialByte: nat)
    requires file.Valid() && file.pos == 0
    modifies file
    ensures file.Valid() && file.pos == Min(initialByte, |file.data|)
  {
    var newbuffer := new char[255](_ => NUL);
    var totalSent := 0;
    while totalSent < initialByte
      invariant totalSent <= initialByte && file.pos == Min(totalSent, |file.data|)
    {
      var readBytes := file.Read(newbuffer, 0, 1);
      totalSent := totalSent + 1;
    }
  }

  lemma TakeInParts(s: string, m: nat, r: nat)
    requires r <= m && r <= |s|
    ensures Take(s, m) == s[..r] + Take(s[r..], m - r)
  {
  }

  /** A chunk sent and the next one read leave the total as it was. */
  lemma NextChunk(sent: string, chunk: string, rest: string, m: nat, r: nat)
    requires r <= m && r <= |rest|
    ensures sent + (chunk + Take(rest, m)) == sent + chunk + (rest[..r] + Take(rest[r..], m - r))
  {
    TakeInParts(rest, m, r);
  }

  /** sendFile's chunk loop: at most `bytes` bytes from where the file stands. */
  method SendCounted(file: Source, sock: Sink, bytes: nat)
    requires file.Valid()
    modifies file, sock`sent
    ensures file.Valid()
    ensures sock.sent == old(sock.sent) + Take(old(file.Rest()), bytes)
  {
    var newbuffer := new char[255](_ => NUL);
    ghost var goal, rest := sock.sent + Take(file.Rest(), bytes), file.Rest();
    var totalSent := 0;
    var chunk := ReadChunk(file, newbuffer, Min(bytes, 255));
    TakeInParts(rest, bytes, |chunk|);
    ghost var left: nat := bytes - |chunk|;
    rest := file.Rest();
    while |chunk| > 0
      invariant file.Valid() && fresh(newbuffer) && newbuffer.Length == 255
      invariant 0 <= totalSent && totalSent + |chunk| + left == bytes && rest == file.Rest()
      invariant sock.sent + (chunk + Take(rest, left)) == goal
      invariant chunk == "" ==> left == 0 || rest == ""
      decreases bytes - totalSent
    {
      ghost var sent := sock.sent;
      var w := SendAssigning(sock, chunk);
      totalSent := totalSent + w;
      ghost var last := chunk;
      chunk := ReadChunk(file, newbuffer, Min(bytes - totalSent, 255));
      NextChunk(sent, last, rest, left, |chunk|);
      left, rest := left - |chunk|, file.Rest();
    }
  }

  /** The skip loop and the chunk loop, a count of zero standing for the size. */
  method SendRange(file: Source, sock: Sink, initialByte: nat, bytes: nat)
    requires file.Valid() && file.pos == 0
    modifies file, sock`sent
    ensures file.Valid() && sock.sent == old(sock.sent) + Window(file.data, initialByte, bytes)
  {
    SkipBytes(file, initialByte);
    ghost var rest := file.Rest();
    var count := if bytes == 0 then |file.data| else bytes;
    SendCounted(file, sock, count);
    assert Take(rest, count) == Window(file.data, initialByte, bytes);
  }

  lemma WindowIsSent(head: string, file: string, from: nat, count: nat, sent: string)
    requires sent == head + Window(file, from, count)
    ensures var wanted := if count == 0 then |file| else count;
            var there := if from < |file| then |file| - from else 0;
            && |sent| == |head| + (if wanted < there then wanted else there)
            && forall i :: |head| <= i < |sent| ==> sent[i] == file[from + i - |head|]
  {
    WindowBytes(file, from, count);
  }

  /** PRACTICA2's sendFile after the file is open: the size field in mode 0, then the bytes
      from the first one on, as many as were asked for or as there are. */
  method SendFileWindow(file: Source, sock: Sink, initialByte: nat, bytes: nat, mode: int, message: array<char>)
    requires file.Valid() && file.pos == 0 && |file.data| < Pow10(10) && message.Length == 100
    modifies file, message, sock`sent
    ensures file.Valid()
    ensures var field := if mode == 0 then SizeField(old(message[..]), |file.data|) else "";
            sock.sent == old(sock.sent) + field + Window(file.data, initialByte, bytes)
    ensures var from := |old(sock.sent)| + if mode == 0 then 10 else 0;
            var wanted := if bytes == 0 then |file.data| else bytes;
            var there := if initialByte < |file.data| then |file.data| - initialByte else 0;
            && |sock.sent| == from + (if wanted < there then wanted else there)
            && forall i :: from <= i < |sock.sent| ==> sock.sent[i] == file.data[initialByte + i - from]
  {
    if mode == 0 {
      SendSizeField(message, |file.data|, sock);
    }
    ghost var head := sock.sent;
    SendRange(file, sock, initialByte, bytes);
    WindowIsSent(head, file.data, initialByte, bytes, sock.sent);
  }

  // ----- receiving a file -----

  /** The clients' receive loop: reads of up to `chunk` bytes until at least `total` have
      come.  What was saved and what is left make up what was to be read. */
  method ReceiveFile(sock: Source, file: Sink, total: int, chunk: nat) returns (totalReadBytes: nat)
    requires sock.Valid() && chunk > 0
    modifies sock, file`sent
    ensures sock.Valid()
    ensures totalReadBytes <= |old(sock.Rest())|
    ensures file.sent == old(file.sent) + old(sock.Rest())[..totalReadBytes]
    ensures sock.Rest() == old(sock.Rest())[totalReadBytes..]
    ensures totalReadBytes >= total || sock.Rest() == ""
    ensures totalReadBytes == 0 || totalReadBytes < total + chunk
  {
    var buffer := new char[chunk](_ => NUL);
    ghost var data := sock.Rest();
    totalReadBytes := 0;
    while totalReadBytes < total
      invariant sock.Valid() && fresh(buffer) && buffer.Length == chunk
      invariant totalReadBytes <= |data| && sock.Rest() == data[totalReadBytes..]
      invariant file.sent == old(file.sent) + data[..totalReadBytes]
      invariant totalReadBytes == 0 || totalReadBytes < total + chunk
      decreases |data| - totalReadBytes
    {
      var readBytes := sock.Read(buffer, 0, chunk);
      if readBytes <= 0 {
        break;
      }
      assert data[..totalReadBytes] + buffer[0..readBytes] == data[..totalReadBytes + readBytes];
      var w := SendAssigning(file, buffer[0..readBytes]);
      totalReadBytes := totalReadBytes + readBytes;
    }
  }
}
