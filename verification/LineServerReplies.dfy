/** What P1's server answers, byte for byte. */
module LineServerReplies {
  import opened CText
  import opened Tokens
  import opened LineServer
  import HttpsReplies

  function FoundLines(name: string, size: nat): seq<string> {
    ["HTTP/1.1 200 OK", "Content-Disposition: attachment; filename=" + name,
     "Content-Length: " + Decimal(size % 0x1_0000_0000)]
  }

  /** Three header lines, directly followed by the file, which is all there is behind them. */
  predicate FoundReply(out: string, name: string, file: string) {
    && |out| >= |file| && out[|out| - |file|..] == file
    && out[..|out| - |file|] == PrintLines(FoundLines(name, |file|))
  }

  const PAGE: string :=
    "<html><head><title>404 NOT FOUND</title></head><body>ERROR 404 NOT FOUND</body></html>"

  /** Cut at its first blank line: the status line and the page. */
  predicate MissingReply(out: string) { HttpsReplies.SplitsInto(out, ["HTTP/1.1 404 Not Found"], PAGE) }

  /** What has to come back for a name. */
  predicate RightReply(out: string, name: string, disk: map<string, string>) {
    if name in disk then FoundReply(out, name, disk[name]) else MissingReply(out)
  }

  lemma ThreePrinted(a: string, b: string, c: string)
    ensures PrintLines([a, b, c]) == a + CRLF + (b + CRLF) + (c + CRLF)
  {
    assert [a, b, c][1..] == [b, c];
    TwoLines(b, c);
  }

  lemma FoundIsRight(name: string, file: string)
    ensures FoundReply(Response(name, Some(file)), name, file)
  {
    var lines := FoundLines(name, |file|);
    ThreePrinted(lines[0], lines[1], lines[2]);
    assert "HTTP/1.1 200 OK" + CRLF == "HTTP/1.1 200 OK\r\n";
    var head := PrintLines(lines);
    assert Response(name, Some(file)) == head + file;
    assert (head + file)[|head|..] == file && (head + file)[..|head|] == head;
  }

  lemma NamedLine(name: string)
    requires NUL !in name && '\r' !in name && '\n' !in name
    ensures HttpsReplies.HeaderText("Content-Disposition: attachment; filename=" + name)
  {
    var front := "Content-Disposition: attachment; filename=";
    HttpsReplies.FileNameText();
    assert forall i :: 0 <= i < |name| ==> HttpsReplies.Plain(name[i]);
    HttpsReplies.HeaderTextJoins(front, name);
  }

  /** The header lines of a found file can be told apart, for any name without line ends. */
  lemma HeadersTokenise(name: string, size: nat)
    requires NUL !in name && '\r' !in name && '\n' !in name
    ensures AllTokens(PrintLines(FoundLines(name, size)), CRLF) == FoundLines(name, size)
  {
    NamedLine(name);
    HttpsReplies.LengthLine(size % 0x1_0000_0000);
    HttpsReplies.FileHeaderTexts();
    HttpsReplies.HeaderLinesAreWords(FoundLines(name, size));
    PrintedLinesTokenise(FoundLines(name, size));
  }

  lemma MissingIsRight(name: string)
    ensures MissingReply(Response(name, None))
  {
    var line := "HTTP/1.1 404 Not Found";
    assert HttpsReplies.HeaderText(line);
    assert PrintLines([line]) == line + CRLF + PrintLines([line][1..]) == line + CRLF;
    assert line + CRLF == "HTTP/1.1 404 Not Found\r\n";
    HttpsReplies.ResponseSplits(Response(name, None), [line], PAGE);
  }

  /** Whatever the request, if the handler can answer it at all, the answer is right for the
      name in its first line. */
  lemma AnswerIsRight(s: string, disk: map<string, string>)
    requires Answerable(s)
    ensures RightReply(Answer(s, disk), NameIn(RequestLine(s)), disk)
  {
    var name := NameIn(RequestLine(s));
    if name in disk {
      FoundIsRight(name, disk[name]);
    } else {
      MissingIsRight(name);
    }
  }

  // ----- from the request's bytes to the answer -----

  lemma FirstLine(first: string, lead: string, name: string, version: string)
    requires |lead| == 5 && ' ' !in name && first == lead + name + " " + version
    ensures var line := first + "\n";
            && |line| >= 5 && ' ' in line[5..]
            && NameIn(line) == if name == "" then "index.html" else name
  {
    NameAfterFive(lead, name, version + "\n");
    var line := first + "\n";
    assert line == lead + name + " " + (version + "\n");
    assert line[5..] == name + " " + (version + "\n");
    assert line[5..][|name|] == ' ';
  }

  lemma FirstLineIsKept(first: string, headers: seq<string>, blank: string, later: string)
    requires HeaderLine(first) && forall i :: 0 <= i < |headers| ==> HeaderLine(headers[i])
    requires blank == "" || blank == "\r"
    ensures var s := Flatten([first] + headers) + (blank + "\n" + later);
            LinesFit(s) && RequestLine(s) == first + "\n" && ReadHeader(s, None).1 == later
  {
    HeaderEndsAtBlankLine([first] + headers, blank, later, None);
  }

  /** End to end: a request line with a name between its fifth byte and the next space, any
      further header lines and a blank line are taken to the last byte and no further, and
      the answer is right for that name, or for index.html if it is empty. */
  lemma GetIsAnswered(first: string, lead: string, name: string, version: string, headers: seq<string>,
                      blank: string, later: string, disk: map<string, string>)
    requires |lead| == 5 && ' ' !in name && first == lead + name + " " + version && HeaderLine(first)
    requires (blank == "" || blank == "\r") && forall i :: 0 <= i < |headers| ==> HeaderLine(headers[i])
    ensures var s := Flatten([first] + headers) + (blank + "\n" + later);
            && Answerable(s) && ReadHeader(s, None).1 == later
            && RightReply(Answer(s, disk), if name == "" then "index.html" else name, disk)
  {
    FirstLineIsKept(first, headers, blank, later);
    FirstLine(first, lead, name, version);
    AnswerIsRight(Flatten([first] + headers) + (blank + "\n" + later), disk);
  }
}
