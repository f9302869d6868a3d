/** The request side and the response side of the HTTPS file server.  The encrypted
    connection is a stream of bytes each way; a write may take any positive part of what
    it is given. */
module HttpsServer {
  import opened CText
  import opened Tokens
  import opened Descriptors
  import opened SendLoops

  const BUFFERSIZE: nat := 1024
  const BLANK_LINE: string := "\r\n\r\n"
  const BLANKS: string := " \t\U{8}"
  const OUTNAME: string := "test.zip"
  const TWO_TO_32: nat := 0x1_0000_0000

  // ----- reading a request -----

  predicate BlankLineAt(s: string, i: nat) { i + 4 <= |s| && s[i..i + 4] == BLANK_LINE }

  predicate FirstBlankLine(s: string, i: nat) {
    BlankLineAt(s, i) && forall j :: 0 <= j < i ==> !BlankLineAt(s, j)
  }

  /** Where the read loop ends: the text it keeps and the bytes it leaves unread.  A NUL
      adds nothing, because strncat takes it for the end of the string. */
  function ReadFrom(kept: string, s: string): (string, string)
    decreases s
  {
    if s == "" then (kept, "")
    else
      var k := if s[0] == NUL then kept else kept + [s[0]];
      if |k| >= 4 && k[|k| - 4..] == BLANK_LINE then (k[..|k| - 4], s[1..]) else ReadFrom(k, s[1..])
  }

  /** The loop of start_protocol: one byte a read, the last four bytes looked at each time. */
  method ReadRequest(sock: Source) returns (cmdString: string)
    requires sock.Valid()
    modifies sock
    ensures sock.Valid() && (cmdString, sock.Rest()) == ReadFrom("", old(sock.Rest()))
    ensures NUL !in cmdString
  {
    var readBuffer := new char[BUFFERSIZE](_ => NUL);
    cmdString := "";
    ghost var before := sock.Rest();
    var readBytes := sock.Read(readBuffer, 0, 1);
    while readBytes > 0
      invariant sock.Valid() && fresh(readBuffer) && readBuffer.Length == BUFFERSIZE
      invariant readBytes == 0 || readBytes == 1
      invariant readBytes == 0 ==> before == "" && sock.Rest() == ""
      invariant readBytes == 1 ==> before != "" && readBuffer[0] == before[0] && sock.Rest() == before[1..]
      invariant ReadFrom(cmdString, before) == ReadFrom("", old(sock.Rest())) && NUL !in cmdString
      decreases |before|
    {
      if readBuffer[0] != NUL {
        cmdString := cmdString + [readBuffer[0]];
      }
      if |cmdString| >= 4 && cmdString[|cmdString| - 4..] == BLANK_LINE {
        cmdString := cmdString[..|cmdString| - 4];
        return;
      }
      before := sock.Rest();
      readBytes := sock.Read(readBuffer, 0, 1);
      assert readBytes == 1 ==> readBuffer[0..1][0] == before[..1][0];
    }
  }

  /** On a stream whose first blank line starts at `i`, the loop keeps exactly the bytes
      before it and takes none after it. */
  lemma {:induction false} ReadsToFirstBlankLine(kept: string, s: string, i: nat)
    requires FirstBlankLine(kept + s, i) && i + 4 > |kept|
    requires NUL !in (kept + s)[..i + 4]
    ensures ReadFrom(kept, s) == ((kept + s)[..i], (kept + s)[i + 4..])
    decreases s
  {
    var t := kept + s;
    var n := |kept|;
    assert s[0] == t[n] == t[..i + 4][n];
    var k := kept + [s[0]];
    assert k + s[1..] == t;
    assert k == t[..n + 1];
    if n + 1 < i + 4 {
      if |k| >= 4 {
        assert k[|k| - 4..] == t[n - 3..n + 1];
        assert !BlankLineAt(t, n - 3);
      }
      ReadsToFirstBlankLine(k, s[1..], i);
    } else {
      assert k[|k| - 4..] == t[i..i + 4];
      assert k[..|k| - 4] == t[..i] && s[1..] == t[i + 4..];
    }
  }

  /** A stream without a blank line is kept whole. */
  lemma {:induction false} ReadsAllWithoutBlankLine(kept: string, s: string)
    requires NUL !in s && forall j :: 0 <= j <= |kept + s| ==> !BlankLineAt(kept + s, j)
    ensures ReadFrom(kept, s) == (kept + s, "")
    decreases s
  {
    if s == "" {
      assert kept + s == kept;
    } else {
      var t := kept + s;
      var k := kept + [s[0]];
      assert k + s[1..] == t;
      if |k| >= 4 {
        assert k[|k| - 4..] == t[|k| - 4..|k|];
        assert !BlankLineAt(t, |k| - 4);
      }
      ReadsAllWithoutBlankLine(k, s[1..]);
    }
  }

  /** A text without its NULs. */
  function WithoutNuls(s: string): (r: string)
    ensures NUL !in r && |r| <= |s|
  {
    if s == "" then "" else (if s[0] == NUL then "" else [s[0]]) + WithoutNuls(s[1..])
  }

  predicate NoBlankLine(t: string) { forall j :: 0 <= j < |t| ==> !BlankLineAt(t, j) }

  /** The bytes taken, which without NULs are `t`, are what is kept and a blank line, the
      first there is, whose LF is the last byte taken; or they are the whole stream and have
      none. */
  predicate ReadRight(t: string, taken: string, text: string, rest: string) {
    || (t == text + "\r\n\r\n" && FirstBlankLine(t, |text|) && taken != "" && taken[|taken| - 1] == '\n')
    || (t == text && NoBlankLine(t) && rest == "")
  }

  lemma NoBlankLineGrows(t: string, c: char)
    requires NoBlankLine(t)
    ensures var k := t + [c];
            if |k| >= 4 && k[|k| - 4..] == BLANK_LINE then FirstBlankLine(k, |k| - 4) else NoBlankLine(k)
  {
    var k := t + [c];
    forall j | 0 <= j && j + 4 <= |t|
      ensures !BlankLineAt(k, j)
    {
      assert k[j..j + 4] == t[j..j + 4];
      assert !BlankLineAt(t, j);
    }
    forall j | 0 <= j < |k| && !(j + 4 == |k|)
      ensures !BlankLineAt(k, j)
    {
    }
  }

  lemma SameText(kept: string, c: char, taken: string)
    ensures kept + WithoutNuls([c] + taken) == (if c == NUL then kept else kept + [c]) + WithoutNuls(taken)
  {
    assert ([c] + taken)[0] == c && ([c] + taken)[1..] == taken;
    if c != NUL {
      assert kept + ([c] + WithoutNuls(taken)) == kept + [c] + WithoutNuls(taken);
    }
  }

  lemma BlankLineEnds(k: string, c: char, rest: string)
    requires |k| >= 4 && k[|k| - 4..] == BLANK_LINE && k[|k| - 1] == c && FirstBlankLine(k, |k| - 4)
    ensures ReadRight(k, [c], k[..|k| - 4], rest)
  {
    assert k == k[..|k| - 4] + BLANK_LINE;
    assert c == k[|k| - 4..][3] == '\n';
  }

  /** From `kept` on, the stream `s` is read as far as `text` and `rest` say, and rightly. */
  predicate ReadAs(kept: string, s: string, text: string, rest: string) {
    && |rest| <= |s| && s[|s| - |rest|..] == rest
    && ReadRight(kept + WithoutNuls(s[..|s| - |rest|]), s[..|s| - |rest|], text, rest)
  }

  lemma LastByteRead(kept: string, s: string, k: string)
    requires NoBlankLine(kept) && s != "" && k == (if s[0] == NUL then kept else kept + [s[0]])
    requires |k| >= 4 && k[|k| - 4..] == BLANK_LINE
    ensures ReadAs(kept, s, k[..|k| - 4], s[1..])
  {
    var c := s[0];
    if c == NUL {
      assert BlankLineAt(kept, |kept| - 4);
    } else {
      NoBlankLineGrows(kept, c);
      BlankLineEnds(k, c, s[1..]);
      SameText(kept, c, "");
      assert s[..1] == [c] == [c] + "" && k + "" == k;
    }
  }

  lemma OneByteRead(kept: string, s: string, k: string, text: string, rest: string)
    requires s != "" && k == (if s[0] == NUL then kept else kept + [s[0]]) && ReadAs(k, s[1..], text, rest)
    ensures ReadAs(kept, s, text, rest)
  {
    var taken := s[1..][..|s[1..]| - |rest|];
    SameText(kept, s[0], taken);
    assert s[..|s| - |rest|] == [s[0]] + taken;
  }

  lemma NoBlankLineYet(kept: string, s: string, k: string)
    requires NoBlankLine(kept) && s != "" && k == (if s[0] == NUL then kept else kept + [s[0]])
    requires !(|k| >= 4 && k[|k| - 4..] == BLANK_LINE)
    ensures NoBlankLine(k)
  {
    if s[0] != NUL {
      NoBlankLineGrows(kept, s[0]);
    }
  }

  /** What the read loop does to any stream, with or without NULs and blank line. */
  lemma {:induction false} ReadsUpToBlankLine(kept: string, s: string)
    requires NoBlankLine(kept)
    ensures ReadAs(kept, s, ReadFrom(kept, s).0, ReadFrom(kept, s).1)
    decreases s
  {
    if s == "" {
      assert kept + WithoutNuls("") == kept;
    } else {
      var k := if s[0] == NUL then kept else kept + [s[0]];
      if |k| >= 4 && k[|k| - 4..] == BLANK_LINE {
        LastByteRead(kept, s, k);
      } else {
        NoBlankLineYet(kept, s, k);
        ReadsUpToBlankLine(k, s[1..]);
        OneByteRead(kept, s, k, ReadFrom(k, s[1..]).0, ReadFrom(k, s[1..]).1);
      }
    }
  }

  // ----- choosing an answer -----

  /** `NullToken` stands for the requests on which the C code passes NULL to strcmp. */
  datatype Choice = Get(route: string) | Complain(text: string) | NullToken

  function Choose(request: string): Choice {
    var (verb, r1) := Strtok(request, BLANKS);
    if verb.None? then NullToken
    else if verb.value != "GET" then Complain("Unkown command\r\n\r\n")
    else
      var (route, r2) := Strtok(r1, BLANKS);
      if route.None? then Complain("ERROR ( Acces Route )\r\n\r\n")
      else
        var (protocol, _) := Strtok(r2, BLANKS);
        if protocol.None? then NullToken
        else if protocol.value == "HTTP" then Complain("Missing Protocol\r\n")
        else Get(route.value)
  }

  predicate Separates(c: char) { c == ' ' || c == '\t' || c == '\U{8}' }

  /** Spaces, tabs and backspaces. */
  predicate Gap(s: string) { forall i :: 0 <= i < |s| ==> Separates(s[i]) }

  /** A word with none of them. */
  predicate Unbroken(s: string) { s != "" && forall i :: 0 <= i < |s| ==> !Separates(s[i]) }

  lemma BlanksSeparate(c: char)
    ensures c in BLANKS <==> Separates(c)
  {
    assert BLANKS[0] == ' ' && BLANKS[1] == '\t' && BLANKS[2] == '\U{8}';
  }

  lemma GetIsUnbroken()
    ensures Unbroken("GET")
  {
  }

  lemma GapsAndWords(gap: string, word: string)
    ensures Gap(gap) ==> Only(gap, BLANKS)
    ensures Unbroken(word) ==> Free(word, BLANKS)
  {
    forall c: char
      ensures c in BLANKS <==> Separates(c)
    {
      BlanksSeparate(c);
    }
  }

  lemma AfterGap(gap: string, later: string)
    requires Gap(gap) && (gap == "" ==> later == "")
    ensures Strtok(if gap + later == "" then "" else (gap + later)[1..], BLANKS) == Strtok(later, BLANKS)
  {
    if gap != "" {
      GapsAndWords(gap[1..], "");
      assert (gap + later)[1..] == gap[1..] + later;
      StrtokSkipsLead(gap[1..], later, BLANKS);
    }
  }

  /** A word in front of a gap or the end is the next token, and what stands behind the gap
      decides the tokens after it. */
  lemma WordThenGap(s: string, lead: string, word: string, gap: string, later: string)
    requires s == lead + word + (gap + later)
    requires Gap(lead) && Unbroken(word) && Gap(gap) && (gap == "" ==> later == "")
    ensures Strtok(s, BLANKS).0 == Some(word)
    ensures Strtok(Strtok(s, BLANKS).1, BLANKS) == Strtok(later, BLANKS)
  {
    GapsAndWords(lead, word);
    GapsAndWords(gap, "");
    StrtokTakesWord(lead, word, gap + later, BLANKS);
    AfterGap(gap, later);
  }

  lemma VerbRefused(s: string, verb: string)
    requires Strtok(s, BLANKS).0 == Some(verb) && verb != "GET"
    ensures Choose(s) == Complain("Unkown command\r\n\r\n")
  {
  }

  lemma NothingAsked(s: string)
    requires Strtok(s, BLANKS).0 == None
    ensures Choose(s) == NullToken
  {
  }

  /** After "GET" the choice depends on the next two tokens, those of `later` and of what
      stands behind its first one. */
  lemma ChooseByTokens(s: string, later: string, end: string)
    requires Strtok(s, BLANKS).0 == Some("GET") && Strtok(Strtok(s, BLANKS).1, BLANKS) == Strtok(later, BLANKS)
    requires Strtok(Strtok(later, BLANKS).1, BLANKS) == Strtok(end, BLANKS)
    ensures var route, third := Strtok(later, BLANKS).0, Strtok(end, BLANKS).0;
            Choose(s) ==
              if route == None then Complain("ERROR ( Acces Route )\r\n\r\n")
              else if third == None then NullToken
              else if third == Some("HTTP") then Complain("Missing Protocol\r\n")
              else Get(route.value)
  {
  }

  /** For "GET", a route and a third token, with any gaps between them, doGet gets exactly
      that route, unless the third token is exactly "HTTP". */
  lemma GetReceivesRoute(s: string, lead: string, a: string, route: string, b: string, version: string)
    requires s == lead + "GET" + (a + (route + (b + version)))
    requires Gap(lead) && a != "" && Gap(a) && Unbroken(route) && b != "" && Gap(b)
    requires Strtok(version, BLANKS).0.Some?
    ensures Choose(s)
         == if Strtok(version, BLANKS).0.value == "HTTP" then Complain("Missing Protocol\r\n") else Get(route)
  {
    var later := route + (b + version);
    assert later == "" + route + (b + version);
    TokensBehindGet(s, lead, a, later, route, b, version);
    ChooseByTokens(s, later, version);
  }

  lemma TokensBehindGet(s: string, lead: string, a: string, later: string, route: string, b: string, version: string)
    requires s == lead + "GET" + (a + later) && later == "" + route + (b + version)
    requires Gap(lead) && a != "" && Gap(a) && Unbroken(route) && Gap(b) && (b == "" ==> version == "")
    ensures Strtok(s, BLANKS).0 == Some("GET") && Strtok(Strtok(s, BLANKS).1, BLANKS) == Strtok(later, BLANKS)
    ensures Strtok(later, BLANKS).0 == Some(route)
    ensures Strtok(Strtok(later, BLANKS).1, BLANKS) == Strtok(version, BLANKS)
  {
    GetIsUnbroken();
    WordThenGap(s, lead, "GET", a, later);
    WordThenGap(later, "", route, b, version);
  }

  /** Any other first word is refused. */
  lemma OtherVerbs(s: string, lead: string, verb: string, gap: string, later: string)
    requires s == lead + verb + (gap + later)
    requires Gap(lead) && Unbroken(verb) && verb != "GET" && Gap(gap) && (gap == "" ==> later == "")
    ensures Choose(s) == Complain("Unkown command\r\n\r\n")
  {
    WordThenGap(s, lead, verb, gap, later);
    VerbRefused(s, verb);
  }

  /** So is "GET" alone. */
  lemma MissingRoute(s: string, lead: string, gap: string)
    requires s == lead + "GET" + gap && Gap(lead) && Gap(gap)
    ensures Choose(s) == Complain("ERROR ( Acces Route )\r\n\r\n")
  {
    assert gap + "" == gap;
    GetIsUnbroken();
    WordThenGap(s, lead, "GET", gap, "");
    StrtokNothing("", BLANKS);
    ChooseByTokens(s, "", "");
  }

  /** Without any word strcmp gets NULL. */
  lemma MissingWords(lead: string)
    requires Gap(lead)
    ensures Choose(lead) == NullToken
  {
    GapsAndWords(lead, "");
    StrtokNothing(lead, BLANKS);
    NothingAsked(lead);
  }

  /** So it does with a route and nothing behind it. */
  lemma MissingThirdWord(s: string, lead: string, gap: string, route: string, end: string)
    requires s == lead + "GET" + (gap + (route + (end + ""))) && gap != ""
    requires Gap(lead) && Gap(gap) && Unbroken(route) && Gap(end)
    ensures Choose(s) == NullToken
  {
    var later := route + (end + "");
    assert later == "" + route + (end + "");
    TokensBehindGet(s, lead, gap, later, route, end, "");
    StrtokNothing("", BLANKS);
    ChooseByTokens(s, later, "");
  }

  // ----- the response -----

  /** The two files behind the server, if they open; `junk` is what fstat leaves in its
      result when the descriptor is bad. */
  datatype Site = Site(download: Option<string>, notFound: Option<string>, junk: nat)

  function Opened(route: string, site: Site): Option<string> {
    if route == "/download" then site.download else site.notFound
  }

  /** The header lines; the length is printed as a 32-bit unsigned number. */
  function HeaderLines(route: string, site: Site): seq<string> {
    if route == "/download" then
      ["HTTP/1.1 200 OK", "Content-Disposition: attachment; filename=" + OUTNAME,
       "Content-Length: " + Decimal((if site.download.Some? then |site.download.value| else site.junk) % TWO_TO_32)]
    else
      ["HTTP/1.1 240 No Content", "Content-Type: text/html"]
  }

  function Response(route: string, site: Site): string {
    PrintLines(HeaderLines(route, site)) +
    match Opened(route, site)
    case None => "NOT_FOUND file\r\n\r\n"
    case Some(file) => CRLF + file
  }

  /** sendLine: one write, then more until the length is reached. */
  method SendLine(sock: Sink, line: string) returns (writeBytes: nat)
    requires line != ""
    modifies sock`sent
    ensures sock.sent == old(sock.sent) + line && writeBytes == |line|
  {
    writeBytes := sock.WriteSome(line);
    while writeBytes < |line|
      invariant writeBytes <= |line|
      invariant sock.sent == old(sock.sent) + line[..writeBytes]
    {
      var n := sock.WriteSome(line[writeBytes..]);
      assert line[..writeBytes] + line[writeBytes..][..n] == line[..writeBytes + n];
      writeBytes := writeBytes + n;
    }
  }

  /** The body loop: chunks of the file, each sent to its end. */
  method SendBody(file: Source, sock: Sink)
    requires file.Valid()
    modifies file, sock`sent
    ensures sock.sent == old(sock.sent) + old(file.Rest())
  {
    var readBuffer := new char[BUFFERSIZE](_ => NUL);
    ghost var goal := sock.sent + file.Rest();
    var chunk := ReadChunk(file, readBuffer, BUFFERSIZE);
    while |chunk| > 0
      invariant file.Valid() && fresh(readBuffer) && readBuffer.Length == BUFFERSIZE
      invariant sock.sent + (chunk + file.Rest()) == goal
      invariant chunk == "" ==> file.Rest() == ""
      decreases |file.Rest()| + |chunk|
    {
      Joins(sock.sent, chunk, file.Rest());
      SendAccumulating(sock, chunk);
      chunk := ReadChunk(file, readBuffer, BUFFERSIZE);
    }
  }

  method SendOpened(sock: Sink, content: string)
    modifies sock`sent
    ensures sock.sent == old(sock.sent) + (CRLF + content)
  {
    var w := SendLine(sock, CRLF);
    var file := new Source(content);
    SendBody(file, sock);
    Joins(old(sock.sent), CRLF, content);
  }

  method DoGet(sock: Sink, baseDir: string, site: Site)
    modifies sock`sent
    ensures sock.sent == old(sock.sent) + Response(baseDir, site)
  {
    SendHeaders(sock, baseDir, site);
    match Opened(baseDir, site) {
      case None =>
        var w := SendLine(sock, "NOT_FOUND file\r\n\r\n");
        Joins(old(sock.sent), PrintLines(HeaderLines(baseDir, site)), "NOT_FOUND file\r\n\r\n");
      case Some(content) =>
        SendOpened(sock, content);
        Joins(old(sock.sent), PrintLines(HeaderLines(baseDir, site)), CRLF + content);
    }
  }

  method SendHeaders(sock: Sink, baseDir: string, site: Site)
    modifies sock`sent
    ensures sock.sent == old(sock.sent) + PrintLines(HeaderLines(baseDir, site))
  {
    if baseDir == "/download" {
      var size := match site.download case Some(file) => |file| case None => site.junk;
      SendThreeLines(sock, "HTTP/1.1 200 OK", "Content-Disposition: attachment; filename=" + OUTNAME,
                     "Content-Length: " + Decimal(size % TWO_TO_32));
    } else {
      SendTwoLines(sock, "HTTP/1.1 240 No Content", "Content-Type: text/html");
    }
  }

  method SendTwoLines(sock: Sink, a: string, b: string)
    modifies sock`sent
    ensures sock.sent == old(sock.sent) + PrintLines([a, b])
  {
    TwoLines(a, b);
    var w := SendLine(sock, a + CRLF);
    w := SendLine(sock, b + CRLF);
  }

  method SendThreeLines(sock: Sink, a: string, b: string, c: string)
    modifies sock`sent
    ensures sock.sent == old(sock.sent) + PrintLines([a, b, c])
  {
    ThreeLines(a, b, c);
    var w := SendLine(sock, a + CRLF);
    w := SendLine(sock, b + CRLF);
    w := SendLine(sock, c + CRLF);
  }

  lemma ThreeLines(a: string, b: string, c: string)
    ensures PrintLines([a, b, c]) == a + CRLF + (b + CRLF) + (c + CRLF)
  {
    assert [a, b, c][1..] == [b, c];
    TwoLines(b, c);
  }

  /** What start_protocol sends for a choice, if its tokens are there. */
  function Sent(choice: Choice, site: Site): string {
    match choice
    case Get(route) => Response(route, site)
    case Complain(text) => text
    case NullToken => ""
  }

  function Reply(request: string, site: Site): string { Sent(Choose(request), site) }

  lemma BlanksHaveNoNul()
    ensures NUL !in BLANKS
  {
  }

  /** The tokens of the request, taken one by one. */
  method TokensOfRequest(cmdString: string) returns (choice: Choice)
    requires NUL !in cmdString && !Choose(cmdString).NullToken?
    ensures choice == Choose(cmdString)
  {
    BlanksHaveNoNul();
    var strtok := Scan(cmdString);
    var token := strtok.NextToken(BLANKS);
    if token.value == "GET" {
      token := strtok.NextToken(BLANKS);
      if token.None? {
        return Complain("ERROR ( Acces Route )\r\n\r\n");
      }
      var accessRoute := token.value;
      token := strtok.NextToken(BLANKS);
      choice := if token.value != "HTTP" then Get(accessRoute) else Complain("Missing Protocol\r\n");
    } else {
      choice := Complain("Unkown command\r\n\r\n");
    }
  }

  method SendChoice(to: Sink, choice: Choice, site: Site)
    requires choice.Complain? ==> choice.text != ""
    modifies to`sent
    ensures to.sent == old(to.sent) + Sent(choice, site)
  {
    match choice {
      case Get(accessRoute) => DoGet(to, accessRoute, site);
      case Complain(text) => var w := SendLine(to, text);
      case NullToken =>
    }
  }

  lemma ComplaintsSaySomething(request: string)
    ensures Choose(request).Complain? ==> Choose(request).text != ""
  {
  }

  /** The whole of start_protocol, on requests whose tokens are there. */
  method StartProtocol(from: Source, to: Sink, site: Site)
    requires from.Valid()
    requires !Choose(ReadFrom("", from.Rest()).0).NullToken?
    modifies from, to`sent
    ensures to.sent == old(to.sent) + Reply(ReadFrom("", old(from.Rest())).0, site)
    ensures from.Valid() && from.Rest() == ReadFrom("", old(from.Rest())).1
  {
    var cmdString := ReadRequest(from);
    var choice := TokensOfRequest(cmdString);
    ComplaintsSaySomething(cmdString);
    SendChoice(to, choice, site);
  }

  /** strtok about to start on a C string. */
  method Scan(cmdString: string) returns (strtok: Tokenizer)
    requires NUL !in cmdString
    ensures fresh(strtok) && fresh(strtok.text) && strtok.Valid() && strtok.Rest() == cmdString
  {
    var text := new char[|cmdString| + 1](i requires 0 <= i => if i < |cmdString| then cmdString[i] else NUL);
    assert text[..][..|cmdString|] == cmdString;
    CStrStopsAt(text[..], |cmdString|);
    assert text[..][|cmdString|] == NUL;
    strtok := new Tokenizer(text);
  }
}
