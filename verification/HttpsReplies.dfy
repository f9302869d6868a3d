/** What the HTTPS server's requests and responses hold, byte for byte, and that they can
    be taken apart again. */
module HttpsReplies {
  import opened CText
  import opened Tokens
  import opened HttpsServer

  // ----- taking a response apart -----

  predicate Plain(c: char) { c != NUL && c != '\r' && c != '\n' }

  predicate HeaderText(line: string) { line != "" && forall i :: 0 <= i < |line| ==> Plain(line[i]) }

  lemma BlankLineShifts(s: string, n: nat, j: nat)
    requires n <= j && n <= |s|
    ensures BlankLineAt(s, j) <==> BlankLineAt(s[n..], j - n)
  {
    if j + 4 <= |s| {
      assert s[n..][j - n..j - n + 4] == s[j..j + 4];
    }
  }

  /** Putting a header line in front moves the first blank line back by that line. */
  lemma LineInFront(w: string, rest: string, i: nat)
    requires HeaderText(w) && FirstBlankLine(rest, i) && rest[0] != '\r'
    ensures FirstBlankLine(w + CRLF + rest, |w| + 2 + i)
  {
    var s := w + CRLF + rest;
    var n := |w| + 2;
    assert s[n..] == rest && s[n + i..n + i + 4] == rest[i..i + 4];
    forall j | 0 <= j < n + i
      ensures !BlankLineAt(s, j)
    {
      if j < n {
        assert j == |w| ==> s[j + 2] == rest[0];
        NoBlankLineAt(s, j);
      } else {
        BlankLineShifts(s, n, j);
      }
    }
  }

  lemma LastLine(w: string, body: string)
    requires HeaderText(w)
    ensures FirstBlankLine(w + CRLF + (CRLF + body), |w|)
  {
    var s := w + CRLF + (CRLF + body);
    assert s == w + BLANK_LINE + body;
    forall j | 0 <= j < |w|
      ensures !BlankLineAt(s, j)
    {
      NoBlankLineAt(s, j);
    }
  }

  lemma FrontLine(w: string, p: string, body: string)
    ensures (w + CRLF + p) + CRLF + body == w + CRLF + (p + CRLF + body)
    ensures ("" + CRLF) + body == CRLF + body
  {
  }

  /** The first blank line of a response is the one after its last header line. */
  lemma {:induction false} BlankLineEndsHeaders(lines: seq<string>, body: string)
    requires lines != [] && forall i :: 0 <= i < |lines| ==> HeaderText(lines[i])
    ensures |PrintLines(lines)| >= 3
    ensures FirstBlankLine(PrintLines(lines) + CRLF + body, |PrintLines(lines)| - 2)
    ensures NUL !in PrintLines(lines) && PrintLines(lines)[0] != '\r'
    decreases lines
  {
    var w, later := lines[0], lines[1..];
    FrontLine(w, PrintLines(later), body);
    if later == [] {
      LastLine(w, body);
    } else {
      BlankLineEndsHeaders(later, body);
      LineInFront(w, PrintLines(later) + CRLF + body, |PrintLines(later)| - 2);
    }
  }

  lemma NoBlankLineAt(s: string, j: nat)
    requires j < |s| && (s[j] != '\r' || (j + 2 < |s| && s[j + 2] != '\r'))
    ensures !BlankLineAt(s, j)
  {
    if j + 4 <= |s| {
      assert s[j..j + 4][0] == s[j] && s[j..j + 4][2] == s[j + 2];
    }
  }

  /** The length line decodes to the printed number. */
  lemma LengthLine(n: nat)
    ensures HeaderText("Content-Length: " + Decimal(n))
    ensures Atoi(("Content-Length: " + Decimal(n))[15..]) == n
  {
    var line := "Content-Length: " + Decimal(n);
    assert line[15..] == " " + Decimal(n);
    assert (" " + Decimal(n))[1..] == Decimal(n) == Decimal(n) + "";
    AtoiInvertsDecimal(n, "");
  }

  /** Cut at its first blank line, `out` is `lines` and `body`. */
  predicate SplitsInto(out: string, lines: seq<string>, body: string) {
    var (head, rest) := ReadFrom("", out);
    AllTokens(head + CRLF, CRLF) == lines && rest == body
  }

  lemma CutBehind(p: string, body: string)
    requires |p| >= 2 && NUL !in p && FirstBlankLine(p + CRLF + body, |p| - 2)
    ensures ReadFrom("", p + (CRLF + body)) == (p[..|p| - 2], body)
    ensures p[..|p| - 2] + CRLF == p
  {
    var out := p + CRLF + body;
    var i := |p| - 2;
    assert out == p + (CRLF + body) == "" + out;
    assert out[..i + 4] == p + CRLF;
    ReadsToFirstBlankLine("", out, i);
    assert out[i + 4..] == body && out[..i] == p[..i];
    assert out[i..i + 4][..2] == CRLF == p[i..];
  }

  lemma HeaderLinesAreWords(lines: seq<string>)
    requires forall i :: 0 <= i < |lines| ==> HeaderText(lines[i])
    ensures forall i :: 0 <= i < |lines| ==> Word(lines[i])
  {
  }

  lemma SplitsBy(out: string, head: string, printed: string, lines: seq<string>, body: string)
    requires ReadFrom("", out) == (head, body) && head + CRLF == printed && AllTokens(printed, CRLF) == lines
    ensures SplitsInto(out, lines, body)
  {
  }

  /** A response with headers and body is cut at its first blank line into just those. */
  lemma ResponseSplits(out: string, lines: seq<string>, body: string)
    requires out == PrintLines(lines) + (CRLF + body)
    requires lines != [] && forall i :: 0 <= i < |lines| ==> HeaderText(lines[i])
    ensures SplitsInto(out, lines, body)
  {
    BlankLineEndsHeaders(lines, body);
    CutBehind(PrintLines(lines), body);
    HeaderLinesAreWords(lines);
    PrintedLinesTokenise(lines);
    var p := PrintLines(lines);
    SplitsBy(out, p[..|p| - 2], p, lines, body);
  }

  // ----- every answer of doGet -----

  lemma {:induction false} OneMoreLine(lines: seq<string>, w: string)
    ensures PrintLines(lines + [w]) == PrintLines(lines) + w + CRLF
  {
    if lines == [] {
      assert lines + [w] == [w] && [w][1..] == [];
    } else {
      assert (lines + [w])[1..] == lines[1..] + [w];
      OneMoreLine(lines[1..], w);
      LinesInFront(lines[0], PrintLines(lines[1..]), w);
    }
  }

  lemma LinesInFront(first: string, p: string, w: string)
    ensures first + CRLF + (p + w + CRLF) == first + CRLF + p + w + CRLF
  {
  }

  lemma HeaderTextJoins(s: string, t: string)
    requires HeaderText(s) && forall i :: 0 <= i < |t| ==> Plain(t[i])
    ensures HeaderText(s + t)
  {
  }

  lemma FileNameText()
    ensures HeaderText("Content-Disposition: attachment; filename=")
  {
  }

  lemma FileHeaderTexts()
    ensures HeaderText("HTTP/1.1 200 OK")
    ensures HeaderText("Content-Disposition: attachment; filename=" + "test.zip")
  {
    FileNameText();
    HeaderTextJoins("Content-Disposition: attachment; filename=", "test.zip");
  }

  lemma PageHeaderTexts()
    ensures HeaderText("HTTP/1.1 240 No Content") && HeaderText("Content-Type: text/html")
    ensures HeaderText("NOT_FOUND file")
  {
  }

  /** The header lines of a download of `size` bytes, the size as 32 bits hold it. */
  function DownloadLines(size: nat): seq<string> {
    ["HTTP/1.1 200 OK", "Content-Disposition: attachment; filename=" + "test.zip",
     "Content-Length: " + Decimal(size % 0x1_0000_0000)]
  }

  function PageLines(): seq<string> { ["HTTP/1.1 240 No Content", "Content-Type: text/html"] }

  /** What has to come back: the file with its header lines for /download, the page with its
      own for any other route, and with neither file there one more line and no body. */
  predicate RightAnswer(out: string, route: string, site: Site) {
    if route == "/download" then
      match site.download
      case Some(file) => SplitsInto(out, DownloadLines(|file|), file)
      case None => SplitsInto(out, DownloadLines(site.junk) + ["NOT_FOUND file"], "")
    else
      match site.notFound
      case Some(page) => SplitsInto(out, PageLines(), page)
      case None => SplitsInto(out, PageLines() + ["NOT_FOUND file"], "")
  }

  lemma LinesAreHeaderTexts(size: nat)
    ensures forall i :: 0 <= i < 3 ==> HeaderText(DownloadLines(size)[i])
    ensures forall i :: 0 <= i < 2 ==> HeaderText(PageLines()[i])
    ensures HeaderText("NOT_FOUND file")
  {
    LengthLine(size % 0x1_0000_0000);
    FileHeaderTexts();
    PageHeaderTexts();
  }

  lemma ErrorText(p: string)
    ensures p + "NOT_FOUND file\r\n\r\n" == p + "NOT_FOUND file" + CRLF + (CRLF + "")
  {
    assert "NOT_FOUND file\r\n\r\n" == "NOT_FOUND file" + CRLF + CRLF;
  }

  lemma OneMoreText(lines: seq<string>, w: string)
    requires HeaderText(w) && forall i :: 0 <= i < |lines| ==> HeaderText(lines[i])
    ensures lines + [w] != [] && forall i :: 0 <= i < |lines + [w]| ==> HeaderText((lines + [w])[i])
  {
  }

  /** A last header line with no body behind it. */
  lemma LastLineSplits(lines: seq<string>, w: string, out: string)
    requires HeaderText(w) && forall i :: 0 <= i < |lines| ==> HeaderText(lines[i])
    requires out == PrintLines(lines) + w + CRLF + (CRLF + "")
    ensures SplitsInto(out, lines + [w], "")
  {
    OneMoreLine(lines, w);
    OneMoreText(lines, w);
    ResponseSplits(out, lines + [w], "");
  }

  /** Header lines and the error text are taken apart like any other response. */
  lemma ErrorSplits(lines: seq<string>, out: string)
    requires HeaderText("NOT_FOUND file") && forall i :: 0 <= i < |lines| ==> HeaderText(lines[i])
    requires out == PrintLines(lines) + "NOT_FOUND file\r\n\r\n"
    ensures SplitsInto(out, lines + ["NOT_FOUND file"], "")
  {
    ErrorText(PrintLines(lines));
    LastLineSplits(lines, "NOT_FOUND file", out);
  }

  /** However the writes were cut, what doGet sends can be taken apart again: up to its first
      blank line it is the header lines, after it the file or the page. */
  lemma ResponseIsRight(route: string, site: Site)
    ensures RightAnswer(Response(route, site), route, site)
  {
    var lines := HeaderLines(route, site);
    if route == "/download" {
      var size := if site.download.Some? then |site.download.value| else site.junk;
      LinesAreHeaderTexts(size);
      assert lines == DownloadLines(size);
    } else {
      LinesAreHeaderTexts(0);
      assert lines == PageLines();
    }
    match Opened(route, site)
    case Some(file) => ResponseSplits(Response(route, site), lines, file);
    case None => ErrorSplits(lines, Response(route, site));
  }

  /** The printed length is the file's exactly when that is below 2^32. */
  lemma LengthIsRightBelow4G(file: string)
    ensures Atoi(DownloadLines(|file|)[2][15..]) == |file| % 0x1_0000_0000
    ensures Atoi(DownloadLines(|file|)[2][15..]) == |file| <==> |file| < 0x1_0000_0000
  {
    LengthLine(|file| % 0x1_0000_0000);
  }

  /** Complaints go out as they are, and every route gets its right answer. */
  lemma ReplyIsRight(request: string, site: Site)
    requires !Choose(request).NullToken?
    ensures match Choose(request)
            case Get(route) => RightAnswer(Reply(request, site), route, site)
            case Complain(text) => Reply(request, site) == text
            case NullToken => false
  {
    if Choose(request).Get? {
      ResponseIsRight(Choose(request).route, site);
    }
  }

  // ----- from the request's bytes to the file -----

  lemma {:induction false} TokenCovers(word: string, more: string)
    requires Free(word, BLANKS)
    ensures TokenLength(word + more, BLANKS) == |word| + TokenLength(more, BLANKS)
  {
    if word == "" {
      assert word + more == more;
    } else {
      assert (word + more)[1..] == word[1..] + more;
      TokenCovers(word[1..], more);
    }
  }

  /** The request's third token is its version together with what follows up to a blank, so
      with a CR behind it, or being other than "HTTP" itself, it is not "HTTP". */
  lemma VersionIsNotHttp(version: string, more: string)
    requires Unbroken(version) && '\r' !in version
    requires if more == "" then version != "HTTP" else more[0] == '\r'
    ensures var (token, _) := Strtok(version + more, BLANKS); token.Some? && token.value != "HTTP"
  {
    var s, n := version + more, |version| + TokenLength(more, BLANKS);
    assert s[0] == version[0] && version[0] !in BLANKS;
    TokenCovers(version, more);
    if more == "" {
      assert s[..n] == version;
    } else {
      assert s[..n][|version|] == '\r' && '\r' !in "HTTP";
    }
  }

  /** The lines of a GET request, without its blank line and its last line's end. */
  function RequestText(lines: seq<string>): string
    requires lines != []
  {
    lines[0] + if |lines| == 1 then "" else CRLF + RequestText(lines[1..])
  }

  lemma {:induction false} RequestLines(lines: seq<string>)
    requires lines != []
    ensures RequestText(lines) + CRLF == PrintLines(lines)
    decreases lines
  {
    if |lines| > 1 {
      RequestLines(lines[1..]);
    }
  }

  /** What stands behind the first line. */
  function Further(headers: seq<string>): string { if headers == [] then "" else CRLF + RequestText(headers) }

  lemma RequestTextOf(first: string, headers: seq<string>)
    ensures RequestText([first] + headers) == first + Further(headers)
  {
    assert ([first] + headers)[1..] == headers;
  }

  lemma OneSpaceGaps(s: string, route: string, tail: string)
    requires s == "GET " + route + " " + tail
    ensures s == "" + "GET" + (" " + (route + (" " + tail)))
  {
    assert "GET " == "GET" + " ";
  }

  lemma VersionGrows(first: string, route: string, version: string, more: string)
    requires first == "GET " + route + " " + version
    ensures first + more == "GET " + route + " " + (version + more)
  {
  }

  /** The route of a GET request reaches doGet, whatever header lines follow, unless the
      version is just "HTTP" and nothing follows it. */
  lemma RouteOfRequest(first: string, route: string, version: string, headers: seq<string>)
    requires first == "GET " + route + " " + version && Unbroken(route)
    requires Unbroken(version) && '\r' !in version
    requires version != "HTTP" || headers != []
    ensures Choose(RequestText([first] + headers)) == Get(route)
  {
    var more := Further(headers);
    var s := first + more;
    RequestTextOf(first, headers);
    VersionIsNotHttp(version, more);
    VersionGrows(first, route, version, more);
    OneSpaceGaps(s, route, version + more);
    GetReceivesRoute(s, "", " ", route, " ", version + more);
  }

  /** A request ends at its blank line, and what is kept of it is its lines. */
  lemma RequestIsRead(lines: seq<string>, later: string)
    requires lines != [] && forall i :: 0 <= i < |lines| ==> HeaderText(lines[i])
    ensures ReadFrom("", PrintLines(lines) + (CRLF + later)) == (RequestText(lines), later)
  {
    BlankLineEndsHeaders(lines, later);
    CutBehind(PrintLines(lines), later);
    RequestLines(lines);
    var p := PrintLines(lines);
    assert p[..|p| - 2] == RequestText(lines);
  }

  /** A GET with any header lines, then a blank line, is taken to its last byte and no
      further, and its route chosen. */
  lemma GetIsRead(first: string, route: string, version: string, headers: seq<string>, later: string)
    requires first == "GET " + route + " " + version && HeaderText(first) && Unbroken(route)
    requires Unbroken(version) && (version != "HTTP" || headers != [])
    requires forall i :: 0 <= i < |headers| ==> HeaderText(headers[i])
    ensures var (request, rest) := ReadFrom("", PrintLines([first] + headers) + (CRLF + later));
            rest == later && Choose(request) == Get(route)
  {
    RequestIsRead([first] + headers, later);
    assert '\r' !in version by {
      assert first[|first| - |version|..] == version;
    }
    RouteOfRequest(first, route, version, headers);
  }

  /** End to end: such a GET, for whatever route, gets its right answer. */
  lemma GetIsServed(first: string, route: string, version: string, headers: seq<string>, later: string, site: Site)
    requires first == "GET " + route + " " + version && HeaderText(first) && Unbroken(route)
    requires Unbroken(version) && (version != "HTTP" || headers != [])
    requires forall i :: 0 <= i < |headers| ==> HeaderText(headers[i])
    ensures var (request, rest) := ReadFrom("", PrintLines([first] + headers) + ("\r\n" + later));
            rest == later && !Choose(request).NullToken? && RightAnswer(Reply(request, site), route, site)
  {
    GetIsRead(first, route, version, headers, later);
    ReplyIsRight(ReadFrom("", PrintLines([first] + headers) + (CRLF + later)).0, site);
  }
}
