/** The plain HTTP server of P1: a line reader, a sender that gives up at the first
    failed write, and the request handler built from them. */
module LineServer {
  import opened CBuffers
  import opened CText
  import opened Tokens
  import opened Descriptors

  const LINE: nat := 254
  const END: string := "\r\n"

  // ----- readTCPLine4 -----

  /** The count readTCPLine4 returns: the bytes before the first LF or NUL, but no more than `max`. */
  function LineLength(s: string, max: nat): (n: nat)
    ensures n <= |s| && n <= max
    decreases |s|
  {
    if max == 0 || s == "" || s[0] == '\n' || s[0] == NUL then 0 else 1 + LineLength(s[1..], max - 1)
  }

  /** The bytes it takes: the ending byte too, when there is one. */
  function LineTaken(s: string, max: nat): (n: nat)
    ensures n <= |s| && n <= max + 1
  {
    var n := LineLength(s, max);
    if n < |s| then n + 1 else n
  }

  lemma {:induction false} LineLengthIs(s: string, max: nat, n: nat)
    requires n <= |s| && n <= max
    requires forall i :: 0 <= i < n ==> s[i] != '\n' && s[i] != NUL
    requires n == max || n == |s| || s[n] == '\n' || s[n] == NUL
    ensures LineLength(s, max) == n
  {
    if n > 0 {
      LineLengthIs(s[1..], max - 1, n - 1);
    }
  }

  lemma LineTakenIs(s: string, max: nat, n: nat)
    requires n <= |s| && n <= max
    requires forall i :: 0 <= i < n ==> s[i] != '\n' && s[i] != NUL
    requires n == max || n == |s| || s[n] == '\n' || s[n] == NUL
    ensures LineLength(s, max) == n && LineTaken(s, max) == if n < |s| then n + 1 else n
  {
    LineLengthIs(s, max, n);
  }

  method ReadTCPLine4(socket: Source, buffer: array<char>, maxRead: nat) returns (readBytes: nat)
    requires socket.Valid() && maxRead < buffer.Length
    modifies socket, buffer
    ensures socket.Valid()
    ensures var s := old(socket.Rest());
            && readBytes <= maxRead && readBytes <= |s|
            && (forall i :: 0 <= i < readBytes ==> s[i] != '\n' && s[i] != '\0')
            && (readBytes == maxRead || readBytes == |s| || s[readBytes] == '\n' || s[readBytes] == '\0')
            && socket.Rest() == s[if readBytes < |s| then readBytes + 1 else readBytes..]
    ensures var s := old(socket.Rest());
            var taken := if readBytes < |s| then readBytes + 1 else readBytes;
            && buffer[..taken] == s[..taken]
            && forall i :: taken <= i < buffer.Length ==> buffer[i] == old(buffer[i])
  {
    ghost var s := socket.Rest();
    var ptr := 0;
    readBytes := 0;
    var byte := ReadOne(socket, buffer, ptr, s);
    while byte > 0
      invariant socket.Valid() && ptr == readBytes <= maxRead && readBytes <= |s|
      invariant byte == if readBytes < |s| then 1 else 0
      invariant socket.Rest() == s[readBytes + byte..]
      invariant buffer[..readBytes + byte] == s[..readBytes + byte]
      invariant forall i :: 0 <= i < readBytes ==> s[i] != '\n' && s[i] != NUL
      invariant forall i :: readBytes + byte <= i < buffer.Length ==> buffer[i] == old(buffer[i])
      decreases |s| - readBytes
    {
      assert buffer[ptr] == buffer[..readBytes + byte][ptr] == s[readBytes];
      if buffer[ptr] == '\n' || buffer[ptr] == '\0' {
        break;
      }
      if readBytes == maxRead {
        break;
      }
      ptr := ptr + 1;
      readBytes := readBytes + 1;
      byte := ReadOne(socket, buffer, ptr, s);
    }
  }

  /** One byte into the next cell: the buffer follows the stream `s` a byte further. */
  method ReadOne(socket: Source, buffer: array<char>, at: nat, ghost s: string) returns (n: nat)
    requires socket.Valid() && at < buffer.Length && at <= |s|
    requires socket.Rest() == s[at..] && buffer[..at] == s[..at]
    modifies socket`pos, buffer
    ensures socket.Valid() && n == if at < |s| then 1 else 0
    ensures socket.Rest() == s[at + n..] && buffer[..at + n] == s[..at + n]
    ensures forall i :: at + n <= i < buffer.Length ==> buffer[i] == old(buffer[i])
  {
    n := socket.Read(buffer, at, 1);
    assert s[at..][..n] == s[at..at + n];
    assert buffer[..at + n] == buffer[..at] + buffer[at..at + n];
    assert forall i :: at + n <= i < buffer.Length ==> buffer[i] == buffer[at + n..][i - at - n];
  }

  // ----- sendTCPLine4 -----

  /** Delivers exactly the prefix it counts, and all of it unless a write fails. */
  method SendTCPLine4(socket: Sink, buffer: string) returns (sentBytes: nat)
    modifies socket
    ensures sentBytes <= |buffer| && socket.sent == old(socket.sent) + buffer[..sentBytes]
    ensures socket.broken <==> old(socket.broken) || sentBytes < |buffer|
  {
    sentBytes := 0;
    var writeBytes := socket.Write(buffer);
    while writeBytes > 0
      invariant sentBytes <= |buffer| && writeBytes <= |buffer| - sentBytes
      invariant socket.sent == old(socket.sent) + buffer[..sentBytes + if writeBytes > 0 then writeBytes else 0]
      invariant socket.broken == (old(socket.broken) || (writeBytes <= 0 && sentBytes < |buffer|))
      decreases |buffer| - sentBytes
    {
      sentBytes := sentBytes + writeBytes;
      ghost var before := buffer[..sentBytes];
      writeBytes := socket.Write(buffer[sentBytes..]);
      assert writeBytes > 0 ==> before + buffer[sentBytes..][..writeBytes] == buffer[..sentBytes + writeBytes];
    }
  }

  // ----- the header loop of clientProccess -----

  /** The loop's line as a C string, in a buffer zeroed before each read. */
  function LineText(s: string): string { CStr(s[..LineTaken(s, LINE)]) }

  /** Every line up to the one that ends the header leaves room for its NUL in the buffer. */
  predicate LinesFit(s: string)
    decreases |s|
  {
    LineLength(s, LINE) == 0
    || (LineTaken(s, LINE) <= LINE && (LineText(s) == END || LinesFit(s[LineTaken(s, LINE)..])))
  }

  /** Where the header loop ends: the first line, if one was kept, and the bytes not read. */
  function ReadHeader(s: string, first: Option<string>): (Option<string>, string)
    decreases |s|
  {
    var rest := s[LineTaken(s, LINE)..];
    if LineLength(s, LINE) == 0 || LineText(s) == END then (first, rest)
    else ReadHeader(rest, if first.None? then Some(LineText(s)) else first)
  }

  function OrEmpty(first: Option<string>): string { if first.None? then "" else first.value }

  method HeaderLoop(clientSocket: Source) returns (firstLine: array<char>)
    requires clientSocket.Valid() && LinesFit(clientSocket.Rest())
    modifies clientSocket
    ensures clientSocket.Valid() && fresh(firstLine) && firstLine.Length == 255
    ensures CStr(firstLine[..]) == OrEmpty(ReadHeader(old(clientSocket.Rest()), None).0)
    ensures |CStr(firstLine[..])| < 255
    ensures clientSocket.Rest() == ReadHeader(old(clientSocket.Rest()), None).1
  {
    firstLine := new char[255](_ => NUL);
    CStrStopsAt(firstLine[..], 0);
    var firstFlag := true;
    ghost var first: Option<string> := None;
    while true
      invariant clientSocket.Valid() && fresh(firstLine) && firstLine.Length == 255
      invariant LinesFit(clientSocket.Rest())
      invariant first.None? <==> firstFlag
      invariant CStr(firstLine[..]) == OrEmpty(first) && |OrEmpty(first)| < 255
      invariant ReadHeader(clientSocket.Rest(), first) == ReadHeader(old(clientSocket.Rest()), None)
      decreases |clientSocket.Rest()|
    {
      var buffer, n := ReadLineZeroed(clientSocket);
      if n <= 0 || CStr(buffer[..]) == END {
        break;
      }
      if firstFlag {
        first := Some(CStr(buffer[..]));
        Strcpy(firstLine, buffer[..]);
        firstFlag := false;
      }
    }
  }

  /** bzero, then readTCPLine4 with the buffer's 255 bytes. */
  method ReadLineZeroed(socket: Source) returns (buffer: array<char>, n: nat)
    requires socket.Valid() && LineTaken(socket.Rest(), LINE) <= LINE
    modifies socket
    ensures socket.Valid() && fresh(buffer) && buffer.Length == 255
    ensures n == LineLength(old(socket.Rest()), LINE)
    ensures CStr(buffer[..]) == LineText(old(socket.Rest())) && |CStr(buffer[..])| < 255
    ensures socket.Rest() == old(socket.Rest())[LineTaken(old(socket.Rest()), LINE)..]
  {
    buffer := new char[255](_ => NUL);
    ghost var s := socket.Rest();
    n := ReadTCPLine4(socket, buffer, LINE);
    LineTakenIs(s, LINE, n);
    LineInBuffer(s[..LineTaken(s, LINE)], buffer[..]);
  }

  lemma LineInBuffer(taken: string, buf: string)
    requires |taken| < |buf| && buf[..|taken|] == taken
    requires forall i :: |taken| <= i < |buf| ==> buf[i] == NUL
    ensures CStr(buf) == CStr(taken) && |CStr(buf)| < |buf|
  {
    CStrPadded(taken, buf[|taken|..]);
    assert buf == taken + buf[|taken|..];
  }

  lemma CStrPadded(t: string, z: string)
    requires z == "" || z[0] == NUL
    ensures CStr(t + z) == CStr(t)
  {
    var c := CStr(t);
    assert (t + z)[..|c|] == t[..|c|] == c;
    CStrStopsAt(t + z, |c|);
  }

  /** Lines, each with its LF. */
  function Flatten(lines: seq<string>): string {
    if lines == [] then "" else lines[0] + "\n" + Flatten(lines[1..])
  }

  /** A header line: not blank, and short enough for its LF and a NUL to fit the buffer. */
  predicate HeaderLine(line: string) {
    && line != "" && line != "\r" && |line| <= 253
    && forall i :: 0 <= i < |line| ==> line[i] != '\n' && line[i] != NUL
  }

  lemma LineInStream(line: string, later: string)
    requires |line| <= 253 && forall i :: 0 <= i < |line| ==> line[i] != '\n' && line[i] != NUL
    ensures var s := line + "\n" + later;
            && LineLength(s, LINE) == |line| && LineTaken(s, LINE) == |line| + 1
            && LineText(s) == line + "\n" && s[LineTaken(s, LINE)..] == later
  {
    var s := line + "\n" + later;
    LineLengthIs(s, LINE, |line|);
    assert s[..|line| + 1] == line + "\n";
    CStrStopsAt(line + "\n", |line| + 1);
    assert (line + "\n")[..|line| + 1] == line + "\n";
  }

  /** The loop takes exactly the lines up to and including the first blank one, which may
      be a bare LF or CRLF, and keeps the first line. */
  lemma {:induction false} HeaderEndsAtBlankLine(lines: seq<string>, blank: string, later: string,
                                                 first: Option<string>)
    requires forall i :: 0 <= i < |lines| ==> HeaderLine(lines[i])
    requires blank == "" || blank == "\r"
    ensures var s := Flatten(lines) + (blank + "\n" + later);
            && LinesFit(s)
            && ReadHeader(s, first) == (if first.None? && lines != [] then Some(lines[0] + "\n") else first, later)
    decreases lines
  {
    var ending := blank + "\n" + later;
    var s := Flatten(lines) + ending;
    if lines == [] {
      LineInStream(blank, later);
      assert s == ending;
      assert "\r" + "\n" == END;
    } else {
      var rest := Flatten(lines[1..]) + ending;
      LineInStream(lines[0], rest);
      assert s == lines[0] + "\n" + rest;
      HeaderIsNotEnd(lines[0]);
      HeaderEndsAtBlankLine(lines[1..], blank, later, if first.None? then Some(lines[0] + "\n") else first);
    }
  }

  /** A stream that ends without a blank line is taken whole, with a last line cut short. */
  lemma {:induction false} HeaderEndsWithStream(lines: seq<string>, partial: string, first: Option<string>)
    requires forall i :: 0 <= i < |lines| ==> HeaderLine(lines[i])
    requires partial == "" || HeaderLine(partial)
    ensures var s := Flatten(lines) + partial;
            && LinesFit(s)
            && ReadHeader(s, first).1 == ""
            && ReadHeader(s, first).0 ==
                 if first.Some? then first
                 else if lines != [] then Some(lines[0] + "\n")
                 else if partial != "" then Some(partial) else None
    decreases lines
  {
    var s := Flatten(lines) + partial;
    if lines == [] {
      assert s == partial;
      PartialLine(partial);
    } else {
      var rest := Flatten(lines[1..]) + partial;
      LineInStream(lines[0], rest);
      assert s == lines[0] + "\n" + rest;
      HeaderIsNotEnd(lines[0]);
      HeaderEndsWithStream(lines[1..], partial, if first.None? then Some(lines[0] + "\n") else first);
    }
  }

  lemma PartialLine(partial: string)
    requires partial == "" || HeaderLine(partial)
    ensures LineLength(partial, LINE) == |partial| == LineTaken(partial, LINE)
    ensures LineText(partial) == partial && partial != END && partial[|partial|..] == ""
    ensures LineLength("", LINE) == 0 && LineTaken("", LINE) == 0
  {
    LineLengthIs(partial, LINE, |partial|);
    assert partial[..|partial|] == partial;
    CStrStopsAt(partial, |partial|);
    assert END[1] == '\n';
  }

  lemma HeaderIsNotEnd(line: string)
    requires HeaderLine(line)
    ensures line + "\n" != END
  {
    assert |line| == 1 ==> line == [line[0]] && (line + "\n")[0] == line[0];
  }

  // ----- the file name -----

  const DEFAULT: string := "index.html"

  /** The name in a request line: what stands between the fifth byte and the next space. */
  function NameIn(first: string): string
    requires |first| >= 5
  {
    var name := first[5..][..TokenLength(first[5..], " ")];
    if name == "" then DEFAULT else name
  }

  /** The first five bytes do not matter. */
  lemma NameAfterFive(lead: string, name: string, more: string)
    requires |lead| == 5 && ' ' !in name
    ensures NameIn(lead + name + " " + more) == if name == "" then "index.html" else name
  {
    var first := lead + name + " " + more;
    assert first[5..] == name + (" " + more);
    WordLength(name, " " + more, " ");
    assert first[5..][..|name|] == name;
  }

  lemma SpaceAt(buf: string) returns (k: nat)
    requires ' ' in CStr(buf)
    ensures k < |CStr(buf)| && buf[k] == ' '
  {
    k :| 0 <= k < |CStr(buf)| && CStr(buf)[k] == ' ';
  }

  /** The walk to the first space in `buf`, of which `space` is one. */
  method FindSpace(fileName: array<char>, ghost buf: string, ghost space: nat) returns (temp: nat)
    requires buf == fileName[..] && space < |buf| && buf[space] == ' '
    ensures temp <= space && buf[temp] == ' '
    ensures forall i :: 0 <= i < temp ==> buf[i] != ' '
  {
    temp := 0;
    while fileName[temp] != ' '
      invariant temp <= space
      invariant forall i :: 0 <= i < temp ==> buf[i] != ' '
      decreases space - temp
    {
      assert buf[temp] == fileName[temp];
      temp := temp + 1;
    }
    assert buf[temp] == fileName[temp];
  }

  /** The NUL written over the first space. */
  method CutAtSpace(fileName: array<char>)
    requires ' ' in CStr(fileName[..])
    modifies fileName
    ensures CStr(fileName[..]) == old(CStr(fileName[..])[..TokenLength(CStr(fileName[..]), " ")])
  {
    ghost var buf := fileName[..];
    ghost var space := SpaceAt(buf);
    var temp := FindSpace(fileName, buf, space);
    CutText(buf, temp);
    fileName[temp] := NUL;
    assert fileName[..] == buf[temp := NUL];
  }

  lemma CutText(buf: string, n: nat)
    requires n < |CStr(buf)| && buf[n] == ' '
    requires forall i :: 0 <= i < n ==> buf[i] != ' '
    ensures CStr(buf[n := NUL]) == CStr(buf)[..TokenLength(CStr(buf), " ")]
  {
    var t := CStr(buf);
    assert t[n] == buf[n];
    assert forall i :: 0 <= i < n ==> t[i] == buf[i];
    TokenEnds(t, n, " ");
    assert buf[n := NUL][..n] == buf[..n] == t[..n];
    CStrStopsAt(buf[n := NUL], n);
  }

  /** strcpy from the fifth byte, the cut, and the default for an empty name. */
  method ExtractName(firstLine: array<char>) returns (fileName: array<char>)
    requires firstLine.Length == 255 && 5 <= |CStr(firstLine[..])| < 255
    requires ' ' in CStr(firstLine[..])[5..]
    ensures fresh(fileName) && fileName.Length == 255
    ensures CStr(fileName[..]) == NameIn(CStr(firstLine[..]))
  {
    fileName := new char[255](_ => NUL);
    CStrDrop(firstLine[..], 5);
    assert firstLine[..][5..] == firstLine[5..];
    Strcpy(fileName, firstLine[5..]);
    CutAtSpace(fileName);
    if fileName[0] == '\0' {
      assert fileName[..][0] == NUL;
      CStrStopsAt(DEFAULT + [NUL], |DEFAULT|);
      Strcpy(fileName, DEFAULT + [NUL]);
    } else {
      assert fileName[..][0] != NUL;
    }
  }

  // ----- the response -----

  const PAGE_404: string := "<html><head><title>404 NOT FOUND</title></head><body>ERROR 404 NOT FOUND</body></html>"

  /** The bytes of a response when no write fails; the found file follows its header lines directly. */
  function Response(name: string, file: Option<string>): string {
    match file
    case None => "HTTP/1.1 404 Not Found\r\n" + END + PAGE_404
    case Some(f) =>
      "HTTP/1.1 200 OK\r\n" + ("Content-Disposition: attachment; filename=" + name + END)
      + ("Content-Length: " + Decimal(|f| % 0x1_0000_0000) + END) + f
  }

  /** sendTCPLine4 with its result ignored, as the handler calls it. */
  method SendText(socket: Sink, text: string)
    modifies socket
    ensures !socket.broken ==> !old(socket.broken) && socket.sent == old(socket.sent) + text
  {
    var n := SendTCPLine4(socket, text);
    assert !socket.broken ==> text[..n] == text;
  }

  /** The body loop: 255-byte reads, each chunk handed to sendTCPLine4. */
  method SendBody(file: Source, socket: Sink)
    requires file.Valid()
    modifies file, socket
    ensures !socket.broken ==> !old(socket.broken) && socket.sent == old(socket.sent) + old(file.Rest())
  {
    var buffer := new char[255](_ => NUL);
    ghost var goal := socket.sent + file.Rest();
    var chunk := ReadChunk(file, buffer, 255);
    while |chunk| > 0
      invariant file.Valid() && fresh(buffer) && buffer.Length == 255
      invariant !socket.broken ==> !old(socket.broken) && socket.sent + (chunk + file.Rest()) == goal
      invariant chunk == "" ==> file.Rest() == ""
      decreases |file.Rest()| + |chunk|
    {
      Joins(socket.sent, chunk, file.Rest());
      SendText(socket, chunk);
      chunk := ReadChunk(file, buffer, 255);
    }
  }

  method SendThree(socket: Sink, a: string, b: string, c: string)
    modifies socket
    ensures !socket.broken ==> !old(socket.broken) && socket.sent == old(socket.sent) + (a + b + c)
  {
    SendText(socket, a);
    SendText(socket, b);
    SendText(socket, c);
    assert old(socket.sent) + a + b + c == old(socket.sent) + (a + b + c);
  }

  method SendFound(socket: Sink, a: string, b: string, c: string, f: string)
    modifies socket
    ensures !socket.broken ==> !old(socket.broken) && socket.sent == old(socket.sent) + (a + b + c + f)
  {
    SendThree(socket, a, b, c);
    var file := new Source(f);
    SendBody(file, socket);
    assert old(socket.sent) + (a + b + c) + f == old(socket.sent) + (a + b + c + f);
  }

  method Respond(socket: Sink, fileName: string, file: Option<string>)
    modifies socket
    ensures !socket.broken ==> !old(socket.broken) && socket.sent == old(socket.sent) + Response(fileName, file)
  {
    match file {
      case None =>
        SendThree(socket, "HTTP/1.1 404 Not Found\r\n", END, PAGE_404);
      case Some(f) =>
        SendFound(socket, "HTTP/1.1 200 OK\r\n", "Content-Disposition: attachment; filename=" + fileName + END,
                  "Content-Length: " + Decimal(|f| % 0x1_0000_0000) + END, f);
    }
  }

  /** The first line of a request, as a C string. */
  function RequestLine(s: string): string { OrEmpty(ReadHeader(s, None).0) }

  /** Requests in which every line fits its buffer and the first has a space after its
      fifth byte. */
  predicate Answerable(s: string) {
    LinesFit(s) && |RequestLine(s)| >= 5 && ' ' in RequestLine(s)[5..]
  }

  function Answer(s: string, disk: map<string, string>): string
    requires Answerable(s)
  {
    var name := NameIn(RequestLine(s));
    Response(name, if name in disk then Some(disk[name]) else None)
  }

  method ClientProccess(from: Source, to: Sink, disk: map<string, string>)
    requires from.Valid() && Answerable(from.Rest())
    modifies from, to
    ensures from.Valid() && from.Rest() == ReadHeader(old(from.Rest()), None).1
    ensures !to.broken ==> to.sent == old(to.sent) + Answer(old(from.Rest()), disk)
  {
    var firstLine := HeaderLoop(from);
    var fileName := ExtractName(firstLine);
    var name := CStr(fileName[..]);
    Respond(to, name, if name in disk then Some(disk[name]) else None);
  }
}
