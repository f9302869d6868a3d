/** PRACTICA2's command text as the C code builds and takes it apart, in place. */
module CommandLine {
  import opened CText
  import opened CBuffers
  import opened Tokens
  import opened CommandSession

  lemma FourInHalves(a: string, b: string, c: string, d: string)
    ensures "" + PrintLines([a, b]) + PrintLines([c, d]) == PrintLines([a, b, c, d])
    ensures |PrintLines([a, b])| == |a| + |b| + 4
  {
    TwoLines(a, b);
    TwoLines(c, d);
    FourLines(a, b, c, d);
  }

  method StrcatLine(buf: array<char>, text: string)
    requires NUL !in text && |CStr(buf[..])| + |text| + 2 < buf.Length
    modifies buf
    ensures CStr(buf[..]) == old(CStr(buf[..])) + text + CRLF
  {
    Strcat(buf, text);
    Strcat(buf, CRLF);
  }

  method TwoStrcats(comando: array<char>, a: string, b: string)
    requires NUL !in a && NUL !in b && |CStr(comando[..])| + |a| + |b| + 4 < comando.Length
    modifies comando
    ensures CStr(comando[..]) == old(CStr(comando[..])) + PrintLines([a, b])
  {
    ghost var was := CStr(comando[..]);
    TwoLines(a, b);
    StrcatLine(comando, a);
    StrcatLine(comando, b);
    assert was + (a + CRLF + b + CRLF) == was + a + CRLF + b + CRLF;
  }

  lemma PrintedLength(c: Command)
    ensures |Print(c)| == match c
      case GetFile(file) => |file| + 11
      case GetPart(file, first, last) => |file| + |first| + |last| + 19
      case GetSize(file) => |file| + 15
  {
    match c
    case GetFile(file) => TwoLines("GETFILE", file);
    case GetPart(file, first, last) => FourLines("GETFILEPART", file, first, last);
    case GetSize(file) => TwoLines("GETFILESIZE", file);
  }

  /** The client's comando[50]: bzero, the typed verb, then strcat for every piece. */
  method BuildCommand(c: Command) returns (comando: array<char>)
    requires |Print(c)| < 50 && forall i :: 0 <= i < |Words(c)| ==> NUL !in Words(c)[i]
    ensures fresh(comando) && comando.Length == 50 && CStr(comando[..]) == Print(c)
  {
    comando := new char[50](_ => NUL);
    CStrStopsAt(comando[..], 0);
    PrintedLength(c);
    ghost var words := Words(c);
    match c {
      case GetFile(file) =>
        assert file == words[1];
        TwoStrcats(comando, "GETFILE", file);
        assert "" + Print(c) == Print(c);
      case GetPart(file, first, last) =>
        assert file == words[1] && first == words[2] && last == words[3];
        FourInHalves("GETFILEPART", file, first, last);
        TwoStrcats(comando, "GETFILEPART", file);
        TwoStrcats(comando, first, last);
      case GetSize(file) =>
        assert file == words[1];
        TwoStrcats(comando, "GETFILESIZE", file);
        assert "" + Print(c) == Print(c);
    }
  }

  /** The server's side: the received bytes are copied to `temp` and cut up there, one strtok
      call for each argument a branch needs, and the branch picks the work to do. */
  method ParseCommand(disk: map<string, string>, recivido: array<char>) returns (w: Worker)
    requires recivido.Length == 255 && NUL in recivido[..]
    ensures w == Dispatch(disk, CStr(recivido[..]))
  {
    var temp := new char[255](_ => NUL);
    CStrShorter(recivido[..]);
    Strcpy(temp, recivido[..]);
    CStrShorter(temp[..]);
    var strtok := new Tokenizer(temp);
    var comando := strtok.NextToken(CRLF);
    if comando.None? {
      return Undefined;
    }
    if comando.value == "GETFILE" {
      var arg1 := strtok.NextToken(CRLF);
      w := if arg1.Some? && arg1.value in disk then SendField(disk[arg1.value]) else SendText("NO");
    } else if comando.value == "GETFILEPART" {
      var arg1 := strtok.NextToken(CRLF);
      var arg2 := strtok.NextToken(CRLF);
      var arg3 := strtok.NextToken(CRLF);
      w := PartWorker(disk, arg1, arg2, arg3);
    } else if comando.value == "GETFILESIZE" {
      var arg1 := strtok.NextToken(CRLF);
      w := if arg1.Some? && arg1.value in disk then ReportSize(disk[arg1.value]) else SendText("FILE NOT FOUND");
    } else {
      w := Idle;
    }
  }
}
