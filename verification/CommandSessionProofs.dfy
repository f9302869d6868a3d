/** What every run of a command session keeps: replies never leak into the next command
    and neither side waits for ever, as long as each requested part is one on which both
    ends count alike; and exactly what happens on the first one where they do not. */
module CommandSessionProofs {
  import opened CText
  import opened Tokens
  import opened FileTransfer
  import opened CommandSession

  /** A command the user can type: separate words that fit the 50-byte command buffer, the
      20-byte one for the file and the two 10-byte ones for the numbers of a part. */
  predicate Typed(c: Command) {
    && |Print(c)| < 50 && |c.file| < 20 && (c.GetPart? ==> |c.first| < 10 && |c.last| < 10)
    && forall i :: 0 <= i < |Words(c)| ==> Word(Words(c)[i])
  }

  /** A command on an existing file whose size fits a C int; the two numbers of a part are
      free, but for a negative count, on which the server's read is undefined. */
  predicate Proper(disk: map<string, string>, c: Command) {
    && Typed(c) && c.file in disk && |disk[c.file]| < INT_LIMIT
    && (c.GetPart? ==> Atoi(c.last) >= 0)
  }

  /** The printed size leaves room for its NUL in the ten-byte field. */
  predicate Small(disk: map<string, string>, c: Command)
    requires c.file in disk
  {
    |disk[c.file]| < Pow10(9)
  }

  function Clamp(n: int, size: nat): nat { if n < 0 then 0 else if n > size then size else n }

  /** The bytes from `lo` to `hi`, as far as the file has them. */
  function Slice(file: string, lo: int, hi: int): string {
    if hi <= lo then "" else file[Clamp(lo, |file|)..Clamp(hi, |file|)]
  }

  /** What the user asked for. */
  function Expected(disk: map<string, string>, c: Command): string
    requires Proper(disk, c)
  {
    match c
    case GetFile(f) => disk[f]
    case GetPart(f, first, last) => Slice(disk[f], Atoi(first), Atoi(last))
    case GetSize(f) => Decimal(|disk[f]|)
  }

  /** The data bytes the server sends. */
  function Body(disk: map<string, string>, c: Command): string
    requires Proper(disk, c)
  {
    match c
    case GetFile(f) => disk[f]
    case GetPart(f, first, last) =>
      Window(disk[f], if Atoi(first) < 0 then 0 else Atoi(first), Atoi(last))
    case GetSize(_) => ""
  }

  /** The number of data bytes after which the client means to stop. */
  function Want(disk: map<string, string>, c: Command): int
    requires Proper(disk, c)
  {
    match c
    case GetFile(f) => |disk[f]|
    case GetPart(f, first, last) => Atoi(last) - Atoi(first)
    case GetSize(_) => 0
  }

  /** The server has as many bytes for the part as the client waits for. */
  predicate RangeServed(size: nat, lo: int, hi: nat) {
    hi <= lo || (if lo >= 0 then hi <= size else hi == 0 && -lo <= size)
  }

  /** A range on which the client's stop count and the server's window coincide. */
  predicate RangeAgrees(size: nat, lo: int, hi: nat) {
    0 <= lo < hi && (lo == 0 || hi == size)
  }

  predicate Served(disk: map<string, string>, c: Command)
    requires Proper(disk, c)
  {
    c.GetPart? ==> RangeServed(|disk[c.file]|, Atoi(c.first), Atoi(c.last))
  }

  predicate Agrees(disk: map<string, string>, c: Command)
    requires Proper(disk, c)
  {
    c.GetPart? ==> RangeAgrees(|disk[c.file]|, Atoi(c.first), Atoi(c.last))
  }

  /** A part that ends before it begins: the client does not wait for an answer. */
  predicate EmptyPart(c: Command) { c.GetPart? && Atoi(c.last) <= Atoi(c.first) }

  /** A script of proper commands; all but the last one are small, served and agreeing. */
  predicate Wellformed(x: Script) {
    && (forall i :: 0 <= i < |x.commands| ==> Proper(x.disk, x.commands[i]))
    && (forall i :: 0 <= i < |x.commands| - 1 ==>
          Small(x.disk, x.commands[i]) && Served(x.disk, x.commands[i]) && Agrees(x.disk, x.commands[i]))
  }

  // ----- counting bytes -----

  /** For a range inside the file the server sends min(lo, size - hi) bytes too many, so the
      ends agree exactly when the part starts or ends with the file. */
  lemma PartExcess(disk: map<string, string>, c: Command)
    requires Proper(disk, c) && c.GetPart? && 0 <= Atoi(c.first) < Atoi(c.last) <= |disk[c.file]|
    ensures |Body(disk, c)| == Want(disk, c) + Min(Atoi(c.first), |disk[c.file]| - Atoi(c.last))
    ensures |Body(disk, c)| == Want(disk, c) <==> Atoi(c.first) == 0 || Atoi(c.last) == |disk[c.file]|
    ensures Expected(disk, c) == Body(disk, c)[..Want(disk, c)]
  {
    var file, lo, hi := disk[c.file], Atoi(c.first), Atoi(c.last);
    assert Window(file, lo, hi) == file[lo..Min(lo + hi, |file|)];
    assert Window(file, lo, hi)[..hi - lo] == file[lo..hi] == Slice(file, lo, hi);
  }

  /** The server's bytes reach the client's count exactly when the range is served. */
  lemma WindowSuffices(file: string, lo: int, hi: nat)
    ensures |Window(file, if lo < 0 then 0 else lo, hi)| >= hi - lo <==> RangeServed(|file|, lo, hi)
  {
  }

  /** Of a range that is served, the server sends exactly the bytes asked for when the ends
      agree, and otherwise more bytes than were asked for. */
  lemma WindowExact(file: string, lo: int, hi: nat)
    requires RangeServed(|file|, lo, hi) && lo < hi
    ensures var w := Window(file, if lo < 0 then 0 else lo, hi);
            if RangeAgrees(|file|, lo, hi) then w == Slice(file, lo, hi) && |w| == hi - lo
            else |w| > |Slice(file, lo, hi)|
  {
  }

  lemma WantIsSent(disk: map<string, string>, c: Command)
    requires Proper(disk, c)
    ensures |Body(disk, c)| >= Want(disk, c) <==> Served(disk, c)
  {
    if c.GetPart? {
      WindowSuffices(disk[c.file], Atoi(c.first), Atoi(c.last));
    }
  }

  // ----- printing and parsing -----

  /** The work a command stands for, on whatever files there are. */
  function Assigned(disk: map<string, string>, c: Command): Worker {
    match c
    case GetFile(f) => if f in disk then SendField(disk[f]) else SendText("NO")
    case GetPart(f, first, last) =>
      if !FitsInt(Atoi(first)) || !FitsInt(Atoi(last)) then Undefined
      else if f !in disk then SendText("NO")
      else if Atoi(last) < 0 then Undefined
      else SendBody(Window(disk[f], if Atoi(first) < 0 then 0 else Atoi(first), Atoi(last)))
    case GetSize(f) => if f in disk then ReportSize(disk[f]) else SendText("FILE NOT FOUND")
  }

  /** The bytes a command is printed as. */
  lemma PrintedText(c: Command)
    ensures Print(c) == match c
      case GetFile(f) => "GETFILE\r\n" + f + "\r\n"
      case GetPart(f, first, last) => "GETFILEPART\r\n" + f + "\r\n" + first + "\r\n" + last + "\r\n"
      case GetSize(f) => "GETFILESIZE\r\n" + f + "\r\n"
  {
    match c
    case GetFile(f) => TwoLines("GETFILE", f); assert "GETFILE" + CRLF == "GETFILE\r\n";
    case GetPart(f, first, last) =>
      FourLines("GETFILEPART", f, first, last);
      assert "GETFILEPART" + CRLF == "GETFILEPART\r\n";
    case GetSize(f) => TwoLines("GETFILESIZE", f); assert "GETFILESIZE" + CRLF == "GETFILESIZE\r\n";
  }

  lemma TokensOfCommand(disk: map<string, string>, words: seq<string>)
    requires forall i :: 0 <= i < |words| ==> Word(words[i])
    ensures Dispatch(disk, PrintLines(words))
         == Branch(disk, if |words| > 0 then Some(words[0]) else None, if |words| > 1 then Some(words[1]) else None,
                   if |words| > 2 then Some(words[2]) else None, if |words| > 3 then Some(words[3]) else None)
  {
    var s := PrintLines(words);
    assert s == "" + PrintLines(words);
    TokenOfLines(s, "", words, 0);
    TokenOfLines(s, "", words, 1);
    TokenOfLines(s, "", words, 2);
    TokenOfLines(s, "", words, 3);
  }

  lemma CommandWordsDiffer()
    ensures "GETFILE" != "GETFILEPART" && "GETFILE" != "GETFILESIZE" && "GETFILEPART" != "GETFILESIZE"
  {
    assert |"GETFILE"| == 7 && |"GETFILEPART"| == 11 && |"GETFILESIZE"| == 11;
    assert "GETFILEPART"[7] == 'P' && "GETFILESIZE"[7] == 'S';
  }

  lemma BranchAssigns(disk: map<string, string>, c: Command)
    ensures Branch(disk, Some(Words(c)[0]), Some(Words(c)[1]), if c.GetPart? then Some(c.first) else None,
                   if c.GetPart? then Some(c.last) else None)
         == Assigned(disk, c)
  {
    CommandWordsDiffer();
  }

  /** The server's tokeniser recovers the printed command and its arguments, in order. */
  lemma DispatchUndoesPrint(disk: map<string, string>, c: Command)
    requires Typed(c)
    ensures Dispatch(disk, Print(c)) == Assigned(disk, c)
  {
    TokensOfCommand(disk, Words(c));
    BranchAssigns(disk, c);
  }

  /** The numbers of a part are C ints: from 2147483648 on they are undefined. */
  lemma PartNumbers(disk: map<string, string>, f: string, lo: nat, hi: nat)
    requires f in disk
    ensures PartWorker(disk, Some(f), Some(Decimal(lo)), Some(Decimal(hi)))
         == if lo <= 2147483647 && hi <= 2147483647 then SendBody(Window(disk[f], lo, hi)) else Undefined
  {
    AtoiInvertsDecimal(lo, "");
    AtoiInvertsDecimal(hi, "");
    assert Decimal(lo) + "" == Decimal(lo) && Decimal(hi) + "" == Decimal(hi);
  }

  /** The server reads its file, and the client its channel, up to 255 bytes at a time. */
  lemma ChunkSizes(x: Script, s: Link, n: nat)
    ensures s.worker.SendBody? && s.worker.unsent != "" ==>
              (WorkerEnabled(s, n, "") <==> 1 <= n <= 255 && n <= |s.worker.unsent|)
    ensures s.user.Receiving? && |s.user.saved| < s.user.total && s.user.i < |x.commands| && |s.buf| == 255 ==>
              (UserEnabled(x, s, n) <==> 1 <= n <= 255 && n <= |s.down|)
  {
  }

  /** An unknown verb is ignored. */
  lemma UnknownVerb(disk: map<string, string>, words: seq<string>)
    requires words != [] && forall i :: 0 <= i < |words| ==> Word(words[i])
    requires words[0] != "GETFILE" && words[0] != "GETFILEPART" && words[0] != "GETFILESIZE"
    ensures Dispatch(disk, PrintLines(words)) == Idle
  {
    TokensOfCommand(disk, words);
  }

  lemma ShortBranch(disk: map<string, string>, arg1: Option<string>, arg2: Option<string>)
    ensures Branch(disk, None, arg1, arg2, None) == Undefined
    ensures Branch(disk, Some("GETFILE"), None, arg2, None) == SendText("NO")
    ensures Branch(disk, Some("GETFILESIZE"), None, arg2, None) == SendText("FILE NOT FOUND")
    ensures Branch(disk, Some("GETFILEPART"), arg1, arg2, None) == Undefined
  {
    CommandWordsDiffer();
  }

  /** Where words are missing: a missing file name is a missing file, and of the other words
      a NULL reaches strcmp or atoi. */
  lemma MissingWords(disk: map<string, string>, words: seq<string>)
    requires forall i :: 0 <= i < |words| ==> Word(words[i])
    ensures words == [] ==> Dispatch(disk, PrintLines(words)) == Undefined
    ensures words == ["GETFILE"] ==> Dispatch(disk, PrintLines(words)) == SendText("NO")
    ensures words == ["GETFILESIZE"] ==> Dispatch(disk, PrintLines(words)) == SendText("FILE NOT FOUND")
    ensures 1 <= |words| <= 3 && words[0] == "GETFILEPART" ==> Dispatch(disk, PrintLines(words)) == Undefined
  {
    TokensOfCommand(disk, words);
    ShortBranch(disk, if |words| > 1 then Some(words[1]) else None, if |words| > 2 then Some(words[2]) else None);
  }

  lemma {:induction false} PrintHasNoNul(words: seq<string>)
    requires forall i :: 0 <= i < |words| ==> Word(words[i])
    ensures NUL !in PrintLines(words)
  {
    if words != [] {
      PrintHasNoNul(words[1..]);
    }
  }

  /** The received bytes, as a C string, are the printed command. */
  lemma CommandArrives(c: Command)
    requires Typed(c)
    ensures CStr(Take(Print(c), 255)) == Print(c) && Drop(Print(c), 255) == "" && Print(c) != ""
  {
    PrintHasNoNul(Words(c));
    CStrStopsAt(Print(c), |Print(c)|);
    assert Print(c) == Words(c)[0] + CRLF + PrintLines(Words(c)[1..]);
  }

  /** One read and the dispatch turn a printed command into its work. */
  lemma CommandIsRead(x: Script, s: Link, c: Command, n: nat, junk: string)
    requires Typed(c) && s.worker.Idle? && s.up == Print(c) && s.up != ""
    ensures WorkerNext(x, s, n, junk) == s.(worker := Assigned(x.disk, c), up := "")
  {
    CommandArrives(c);
    DispatchUndoesPrint(x.disk, c);
  }

  lemma MissingFile(disk: map<string, string>, c: Command)
    requires Typed(c) && c.file !in disk
    ensures Assigned(disk, c) == SendText(if c.GetSize? then "FILE NOT FOUND" else "NO")
  {
    if c.GetPart? {
      NineCharsFit(c.first);
      NineCharsFit(c.last);
    }
  }

  /** A command on a missing file is answered by a fixed text, and the server goes back to
      its commands. */
  lemma MissingFileIsAnswered(x: Script, s: Link, c: Command, n: nat, junk: string)
    requires Typed(c) && c.file !in x.disk && s.worker.Idle? && s.up == Print(c) && s.up != ""
    ensures var t := WorkerNext(x, s, n, junk);
            && WorkerEnabled(t, n, junk)
            && WorkerNext(x, t, n, junk)
                 == s.(up := "", down := s.down + if c.GetSize? then "FILE NOT FOUND" else "NO")
  {
    CommandIsRead(x, s, c, n, junk);
    MissingFile(x.disk, c);
  }

  // ----- the invariant -----

  /** The bytes the server has still to send as data. */
  function Left(w: Worker): string { if w.SendBody? then w.unsent else "" }

  predicate Resting(w: Worker) { w.Idle? || w.SendBody? }

  /** The client's decoding, in front of what its buffer holds from byte ten on: the size, or
      digits that name no C int. */
  lemma FieldReads(f: string, n: nat, pad: string)
    requires FieldFor(f, n) && n < INT_LIMIT
    ensures if n < Pow10(9) || pad == "" || !IsDigit(pad[0]) then Atoi(f + pad) == n
            else Atoi(f + pad) >= Pow10(10) && !FitsInt(Atoi(f + pad))
    ensures CStr(f + pad) == Decimal(n) <==> n < Pow10(9) || CStr(pad) == ""
  {
    PowersOfTen();
    DecimalLength(n, 9);
    DecimalLength(n, 10);
    if n < Pow10(9) {
      ShortFieldReads(f, n, pad);
    } else {
      AtoiInvertsDecimal(n, pad);
      DigitsThenPad(n, pad);
    }
  }

  lemma DigitsThenPad(n: nat, pad: string)
    ensures CStr(Decimal(n) + pad) == Decimal(n) + CStr(pad)
  {
    var digits, end := Decimal(n), CStr(pad);
    var buf := digits + pad;
    assert forall i :: 0 <= i < |digits| ==> IsDigit(digits[i]);
    assert buf[..|digits + end|] == digits + end;
    assert |end| < |pad| ==> buf[|digits + end|] == pad[|end|];
    CStrStopsAt(buf, |digits + end|);
  }

  lemma SizeFits(disk: map<string, string>, c: Command)
    requires Proper(disk, c)
    ensures |disk[c.file]| < Pow10(10)
  {
    PowersOfTen();
  }

  predicate ResultsRight(x: Script, results: seq<string>, i: nat)
    requires Wellformed(x) && i <= |x.commands|
  {
    |results| >= i && forall j :: 0 <= j < i ==> results[j] == Expected(x.disk, x.commands[j])
  }

  /** Command `i` has been written but not read. */
  predicate Pending(x: Script, s: Link, i: nat)
    requires i < |x.commands|
  {
    s.up == Print(x.commands[i]) && s.down == "" && Resting(s.worker) && Left(s.worker) == ""
  }

  /** Part `i` is at the server: its bytes are split between the saved ones, the channel and
      those still to be sent. */
  predicate InParts(x: Script, s: Link, i: nat, saved: string)
    requires Wellformed(x) && i < |x.commands|
  {
    && s.up == "" && Resting(s.worker)
    && saved + s.down + Left(s.worker) == Body(x.disk, x.commands[i])
  }

  /** Command `i - 1`'s outcome at the prompt after it: a part's bytes may be split between
      the saved file, the channel and the server, and an empty part need not even have been
      read; of other commands nothing is left. */
  predicate Settled(x: Script, s: Link, i: nat)
    requires Wellformed(x) && i <= |x.commands|
  {
    && |s.results| == i
    && if i == 0 then s.up == s.down == "" && Resting(s.worker) && Left(s.worker) == "" else
         var c := x.commands[i - 1];
         var last := s.results[i - 1];
         && ResultsRight(x, s.results, i - 1)
         && if c.GetPart? then
              && (EmptyPart(c) ==> last == "") && |last| >= Want(x.disk, c)
              && (InParts(x, s, i - 1, last) || (EmptyPart(c) && Pending(x, s, i - 1)))
            else
              && s.up == s.down == "" && Resting(s.worker) && Left(s.worker) == ""
              && (c.GetFile? || Small(x.disk, c) ==> last == Expected(x.disk, c))
  }

  /** All results are right and nothing is on its way. */
  predicate Clean(x: Script, s: Link, i: nat)
    requires Wellformed(x) && i <= |x.commands|
  {
    && |s.results| == i && ResultsRight(x, s.results, i)
    && s.up == s.down == "" && Resting(s.worker) && Left(s.worker) == ""
  }

  /** The size field is the next thing on the client's channel. */
  predicate Announced(x: Script, s: Link, i: nat)
    requires Wellformed(x) && i < |x.commands|
  {
    var c := x.commands[i];
    && s.up == "" && Resting(s.worker) && |s.down| >= 10 && FieldFor(s.down[..10], |x.disk[c.file]|)
    && s.down[10..] + Left(s.worker) == Body(x.disk, c)
  }

  /** The client waits for the size field of command `i`. */
  predicate FieldPhase(x: Script, s: Link, i: nat)
    requires Wellformed(x)
  {
    && i < |x.commands| && !x.commands[i].GetPart? && |s.results| == i && ResultsRight(x, s.results, i)
    && (|| Pending(x, s, i)
        || (s.up == s.down == "" && s.worker == Assigned(x.disk, x.commands[i]))
        || Announced(x, s, i))
  }

  /** The client saves the bytes of command `i`. */
  predicate DataPhase(x: Script, s: Link, i: nat, total: int, saved: string)
    requires Wellformed(x)
  {
    && i < |x.commands| && !x.commands[i].GetSize? && |s.results| == i && ResultsRight(x, s.results, i)
    && total == Want(x.disk, x.commands[i]) && (total <= 0 ==> saved == "")
    && ((saved == "" && x.commands[i].GetPart? && Pending(x, s, i)) || InParts(x, s, i, saved))
  }

  /** The client has misread the size of the file, the script's last command. */
  predicate MisreadPhase(x: Script, s: Link, i: nat)
    requires Wellformed(x)
  {
    && i + 1 == |x.commands| && x.commands[i].GetFile? && !Small(x.disk, x.commands[i])
    && |s.results| == i && ResultsRight(x, s.results, i) && InParts(x, s, i, "")
  }

  predicate Inv(x: Script, s: Link)
    requires Wellformed(x)
  {
    && |s.buf| == 255
    && match s.user {
         case Prompt(i) => i <= |x.commands| && Settled(x, s, i)
         case AwaitField(i) => FieldPhase(x, s, i)
         case Receiving(i, total, saved) => DataPhase(x, s, i, total, saved)
         case Misread(i) => MisreadPhase(x, s, i)
       }
  }

  lemma ServedPart(disk: map<string, string>, c: Command, last: string, down: string, left: string)
    requires Proper(disk, c) && c.GetPart? && !EmptyPart(c)
    requires last + down + left == Body(disk, c) && |last| >= Want(disk, c)
    ensures Served(disk, c)
    ensures last == Expected(disk, c) && down == left == "" <==> Agrees(disk, c)
  {
    var file, lo, hi := disk[c.file], Atoi(c.first), Atoi(c.last);
    assert |last| + |down| + |left| == |Body(disk, c)|;
    WindowSuffices(file, lo, hi);
    WindowExact(file, lo, hi);
    if Agrees(disk, c) {
      assert |down| + |left| == 0;
      assert last + down + left == last;
    }
  }

  /** A settled part is a clean one exactly when its ends agree; an empty part has the right
      result; every other command is clean. */
  lemma SettledIsClean(x: Script, s: Link, i: nat)
    requires Wellformed(x) && 0 < i <= |x.commands| && Settled(x, s, i)
    ensures var c := x.commands[i - 1];
            && Served(x.disk, c)
            && if EmptyPart(c) then ResultsRight(x, s.results, i) else
                 Clean(x, s, i) <==>
                   Agrees(x.disk, c) && (c.GetSize? ==> s.results[i - 1] == Expected(x.disk, c))
  {
    var c := x.commands[i - 1];
    assert Proper(x.disk, c);
    if c.GetPart? && !EmptyPart(c) {
      ServedPart(x.disk, c, s.results[i - 1], s.down, Left(s.worker));
    }
  }

  // ----- every step keeps the invariant -----

  /** The command last started. */
  function Current(u: User): int { if u.Prompt? then u.i - 1 else u.i }

  lemma ReadCommandStep(x: Script, s: Link, n: nat, junk: string)
    requires Wellformed(x) && Inv(x, s) && WorkerEnabled(s, n, junk) && s.worker.Idle?
    ensures var i := Current(s.user);
            && 0 <= i < |x.commands| && Pending(x, s, i) && s.up != ""
            && WorkerNext(x, s, n, junk) == s.(worker := Assigned(x.disk, x.commands[i]), up := "")
  {
    var c := x.commands[Current(s.user)];
    CommandArrives(c);
    CommandIsRead(x, s, c, n, junk);
  }

  lemma AssignedPart(x: Script, i: nat)
    requires Wellformed(x) && i < |x.commands| && x.commands[i].GetPart?
    ensures Assigned(x.disk, x.commands[i]) == SendBody(Body(x.disk, x.commands[i]))
  {
    var c := x.commands[i];
    assert Proper(x.disk, c);
    NineCharsFit(c.first);
    NineCharsFit(c.last);
  }

  lemma PartAssigned(x: Script, s: Link, i: nat)
    requires Wellformed(x) && i < |x.commands| && x.commands[i].GetPart? && Pending(x, s, i)
    ensures InParts(x, s.(worker := Assigned(x.disk, x.commands[i]), up := ""), i, "")
  {
    AssignedPart(x, i);
    var body := Body(x.disk, x.commands[i]);
    assert "" + "" + body == body;
  }

  lemma AssignedAfterPrompt(x: Script, s: Link, i: nat)
    requires Wellformed(x) && i < |x.commands| && Settled(x, s, i + 1) && Pending(x, s, i) && s.up != ""
    ensures Settled(x, s.(worker := Assigned(x.disk, x.commands[i]), up := ""), i + 1)
  {
    PartAssigned(x, s, i);
  }

  lemma AssignedInData(x: Script, s: Link, i: nat, total: int, saved: string)
    requires Wellformed(x) && DataPhase(x, s, i, total, saved) && Pending(x, s, i) && s.up != ""
    ensures DataPhase(x, s.(worker := Assigned(x.disk, x.commands[i]), up := ""), i, total, saved)
  {
    PartAssigned(x, s, i);
  }

  lemma AssigningKeepsInv(x: Script, s: Link, i: nat)
    requires Wellformed(x) && Inv(x, s) && i < |x.commands| && i == Current(s.user) && Pending(x, s, i) && s.up != ""
    ensures Inv(x, s.(worker := Assigned(x.disk, x.commands[i]), up := ""))
  {
    match s.user
    case Prompt(_) => AssignedAfterPrompt(x, s, i);
    case AwaitField(_) =>
    case Receiving(_, total, saved) => AssignedInData(x, s, i, total, saved);
    case Misread(_) =>
  }

  lemma ReadCommandKeepsInv(x: Script, s: Link, n: nat, junk: string)
    requires Wellformed(x) && Inv(x, s) && WorkerEnabled(s, n, junk) && s.worker.Idle?
    ensures Inv(x, WorkerNext(x, s, n, junk))
  {
    ReadCommandStep(x, s, n, junk);
    AssigningKeepsInv(x, s, Current(s.user));
  }

  /** Data bytes may move from the server to the channel. */
  predicate Passed(s: Link, s': Link) {
    && s' == s.(worker := s'.worker, down := s'.down) && Resting(s.worker) && Resting(s'.worker)
    && s.down <= s'.down && s'.down + Left(s'.worker) == s.down + Left(s.worker)
  }

  lemma PassedParts(x: Script, s: Link, s': Link, i: nat, saved: string)
    requires Wellformed(x) && i < |x.commands| && InParts(x, s, i, saved) && Passed(s, s')
    ensures InParts(x, s', i, saved)
  {
    assert saved + s'.down + Left(s'.worker) == saved + (s'.down + Left(s'.worker));
    assert saved + s.down + Left(s.worker) == saved + (s.down + Left(s.worker));
  }

  lemma NothingPassed(s: Link, s': Link)
    requires Passed(s, s') && s.down == "" && Left(s.worker) == ""
    ensures s'.down == "" && Left(s'.worker) == ""
  {
    assert |s'.down| + |Left(s'.worker)| == 0;
  }

  lemma PassedAtPrompt(x: Script, s: Link, s': Link, i: nat)
    requires Wellformed(x) && i <= |x.commands| && Settled(x, s, i) && Passed(s, s')
    ensures Settled(x, s', i)
  {
    if i > 0 && x.commands[i - 1].GetPart? && InParts(x, s, i - 1, s.results[i - 1]) {
      PassedParts(x, s, s', i - 1, s.results[i - 1]);
    } else {
      NothingPassed(s, s');
    }
  }

  lemma PassedBeforeField(x: Script, s: Link, s': Link, i: nat)
    requires Wellformed(x) && FieldPhase(x, s, i) && Passed(s, s') && s.worker.SendBody?
    ensures FieldPhase(x, s', i)
  {
    if Pending(x, s, i) {
      NothingPassed(s, s');
    } else {
      assert s'.down[..10] == s.down[..10];
      assert s'.down[10..] + Left(s'.worker) == (s'.down + Left(s'.worker))[10..];
      assert s.down[10..] + Left(s.worker) == (s.down + Left(s.worker))[10..];
    }
  }

  lemma PassedWhileReceiving(x: Script, s: Link, s': Link, i: nat, total: int, saved: string)
    requires Wellformed(x) && DataPhase(x, s, i, total, saved) && Passed(s, s')
    ensures DataPhase(x, s', i, total, saved)
  {
    if InParts(x, s, i, saved) {
      PassedParts(x, s, s', i, saved);
    } else {
      NothingPassed(s, s');
    }
  }

  lemma SendBodyPasses(x: Script, s: Link, n: nat, junk: string)
    requires WorkerEnabled(s, n, junk) && s.worker.SendBody?
    ensures Passed(s, WorkerNext(x, s, n, junk))
  {
    var unsent := s.worker.unsent;
    if n > 0 {
      assert s.down + unsent[..n] + unsent[n..] == s.down + unsent;
    }
  }

  lemma SendBodyKeepsInv(x: Script, s: Link, n: nat, junk: string)
    requires Wellformed(x) && Inv(x, s) && WorkerEnabled(s, n, junk) && s.worker.SendBody?
    ensures Inv(x, WorkerNext(x, s, n, junk))
  {
    var s' := WorkerNext(x, s, n, junk);
    SendBodyPasses(x, s, n, junk);
    match s.user
    case Prompt(i) => PassedAtPrompt(x, s, s', i);
    case AwaitField(i) => PassedBeforeField(x, s, s', i);
    case Receiving(i, total, saved) => PassedWhileReceiving(x, s, s', i, total, saved);
    case Misread(i) => PassedParts(x, s, s', i, "");
  }

  /** The server's reply to GETFILE starts with the field, that to GETFILESIZE is the field. */
  lemma SendFieldAnnounces(x: Script, s: Link, i: nat, n: nat, junk: string)
    requires Wellformed(x) && i < |x.commands| && !x.commands[i].GetPart? && |junk| == 100
    requires s.up == s.down == "" && s.worker == Assigned(x.disk, x.commands[i]) && WorkerEnabled(s, n, junk)
    ensures Announced(x, WorkerNext(x, s, n, junk), i)
  {
    var c := x.commands[i];
    var size := |x.disk[c.file]|;
    SizeFits(x.disk, c);
    FieldWritten(junk, size);
    var field := SizeField(junk, size);
    assert "" + field == field && field[..10] == field && field[10..] == "";
  }

  lemma SendFieldKeepsInv(x: Script, s: Link, n: nat, junk: string)
    requires Wellformed(x) && Inv(x, s) && WorkerEnabled(s, n, junk)
    requires s.worker.SendField? || s.worker.ReportSize?
    ensures Inv(x, WorkerNext(x, s, n, junk))
  {
    SendFieldAnnounces(x, s, s.user.i, n, junk);
  }

  lemma WorkerKeepsInv(x: Script, s: Link, n: nat, junk: string)
    requires Wellformed(x) && Inv(x, s) && WorkerEnabled(s, n, junk)
    ensures Inv(x, WorkerNext(x, s, n, junk))
  {
    match s.worker
    case Idle => ReadCommandKeepsInv(x, s, n, junk);
    case SendField(_) => SendFieldKeepsInv(x, s, n, junk);
    case SendBody(_) => SendBodyKeepsInv(x, s, n, junk);
    case ReportSize(_) => SendFieldKeepsInv(x, s, n, junk);
    case _ =>
  }

  lemma PromptKeepsInv(x: Script, s: Link, n: nat)
    requires Wellformed(x) && Inv(x, s) && UserEnabled(x, s, n) && s.user.Prompt?
    ensures Inv(x, UserNext(x, s, n))
  {
    var i := s.user.i;
    if i > 0 {
      SettledIsClean(x, s, i);
    }
    assert Clean(x, s, i);
    assert "" + Print(x.commands[i]) == Print(x.commands[i]);
  }

  /** The field at the front of the channel, read over the old bytes of the buffer. */
  lemma FieldInBuffer(buf: string, down: string, size: nat)
    requires |buf| == 255 && |down| >= 10 && FieldFor(down[..10], size) && size < INT_LIMIT
    ensures Drop(down, 10) == down[10..] && |Take(down, 10)| == 10
    ensures var b := Overwrite(buf, Take(down, 10));
            && (CStr(b) == Decimal(size) <==> size < Pow10(9) || buf[10] == NUL)
            && if size < Pow10(9) || !IsDigit(buf[10]) then Atoi(b) == size && FitsInt(size) else !FitsInt(Atoi(b))
  {
    var field, pad := down[..10], buf[10..];
    assert Take(down, 10) == field && pad[0] == buf[10];
    FieldReads(field, size, pad);
  }

  lemma ReadAnnounced(x: Script, s: Link, i: nat, n: nat)
    requires Wellformed(x) && i < |x.commands| && s.user == AwaitField(i) && !x.commands[i].GetPart?
    requires |s.results| == i && Announced(x, s, i) && UserEnabled(x, s, n)
    ensures var s' := UserNext(x, s, n);
            var c := x.commands[i];
            && s'.down + Left(s.worker) == Body(x.disk, c)
            && if c.GetSize? then
                 && s'.user == Prompt(i + 1) && |s'.results| == i + 1 && s'.results[..i] == s.results
                 && (s'.results[i] == Expected(x.disk, c) <==> Small(x.disk, c) || s.buf[10] == NUL)
               else
                 && s'.results == s.results
                 && s'.user == if Small(x.disk, c) || !IsDigit(s.buf[10])
                               then Receiving(i, |x.disk[c.file]|, "") else Misread(i)
  {
    FieldInBuffer(s.buf, s.down, |x.disk[x.commands[i].file]|);
  }

  /** The ten bytes read are the size field, and what was in the buffer behind them decides
      how a ten-digit size is decoded. */
  lemma ReadFieldStep(x: Script, s: Link, n: nat)
    requires Wellformed(x) && Inv(x, s) && UserEnabled(x, s, n) && s.user.AwaitField?
    ensures s.up == "" && Resting(s.worker)
    ensures var i, s' := s.user.i, UserNext(x, s, n);
            var c := x.commands[i];
            && s'.down + Left(s.worker) == Body(x.disk, c)
            && if c.GetSize? then
                 && s'.user == Prompt(i + 1) && |s'.results| == i + 1 && s'.results[..i] == s.results
                 && (s'.results[i] == Expected(x.disk, c) <==> Small(x.disk, c) || s.buf[10] == NUL)
               else
                 && s'.results == s.results
                 && s'.user == if Small(x.disk, c) || !IsDigit(s.buf[10])
                               then Receiving(i, |x.disk[c.file]|, "") else Misread(i)
  {
    ReadAnnounced(x, s, s.user.i, n);
  }

  /** The client has taken the size field of command `i`. */
  lemma FieldTaken(x: Script, s: Link, results: seq<string>, i: nat)
    requires Wellformed(x) && i < |x.commands| && |results| == i && ResultsRight(x, results, i)
    requires |s.buf| == 255 && s.up == "" && Resting(s.worker)
    requires s.down + Left(s.worker) == Body(x.disk, x.commands[i])
    requires var c := x.commands[i];
             if c.GetSize? then
               && s.user == Prompt(i + 1) && |s.results| == i + 1 && s.results[..i] == results
               && (Small(x.disk, c) ==> s.results[i] == Expected(x.disk, c))
             else
               && c.GetFile? && s.results == results
               && (s.user == Receiving(i, |x.disk[c.file]|, "") || (s.user == Misread(i) && !Small(x.disk, c)))
    ensures Inv(x, s)
  {
    if x.commands[i].GetSize? {
      assert ResultsRight(x, s.results, i);
      assert |s.down| + |Left(s.worker)| == 0;
    } else {
      assert "" + s.down + Left(s.worker) == s.down + Left(s.worker);
    }
  }

  lemma ReadFieldKeepsInv(x: Script, s: Link, n: nat)
    requires Wellformed(x) && Inv(x, s) && UserEnabled(x, s, n) && s.user.AwaitField?
    ensures Inv(x, UserNext(x, s, n))
  {
    ReadFieldStep(x, s, n);
    FieldTaken(x, UserNext(x, s, n), s.results, s.user.i);
  }

  lemma ReceivedAll(x: Script, s: Link, i: nat, total: int, saved: string)
    requires Wellformed(x) && DataPhase(x, s, i, total, saved) && |saved| >= total
    ensures Settled(x, s.(user := Prompt(i + 1), results := s.results + [saved]), i + 1)
  {
    if x.commands[i].GetFile? {
      assert |saved| + |s.down| + |Left(s.worker)| == |Body(x.disk, x.commands[i])|;
      assert saved + s.down + Left(s.worker) == saved;
    }
  }

  lemma ReceivedSome(x: Script, s: Link, s': Link, i: nat, total: int, saved: string, n: nat)
    requires Wellformed(x) && DataPhase(x, s, i, total, saved) && |saved| < total && 1 <= n <= |s.down|
    requires s'.worker == s.worker && s'.up == s.up && s'.down == s.down[n..] && s'.results == s.results
    ensures DataPhase(x, s', i, total, saved + s.down[..n])
  {
    assert s.down == s.down[..n] + s.down[n..];
    assert saved + s.down[..n] + s.down[n..] == saved + s.down;
  }

  lemma ReceiveKeepsInv(x: Script, s: Link, n: nat)
    requires Wellformed(x) && Inv(x, s) && UserEnabled(x, s, n) && s.user.Receiving?
    ensures Inv(x, UserNext(x, s, n))
  {
    var i, total, saved := s.user.i, s.user.total, s.user.saved;
    if |saved| >= total {
      ReceivedAll(x, s, i, total, saved);
    } else {
      ReceivedSome(x, s, UserNext(x, s, n), i, total, saved, n);
    }
  }

  lemma MoveKeepsInv(x: Script, s: Link, m: Move)
    requires Wellformed(x) && Inv(x, s) && CanMove(x, s, m)
    ensures Inv(x, Moved(x, s, m))
  {
    match m
    case WorkerMove(n, junk) => WorkerKeepsInv(x, s, n, junk);
    case UserMove(n) =>
      match s.user
      case Prompt(_) => PromptKeepsInv(x, s, n);
      case AwaitField(_) => ReadFieldKeepsInv(x, s, n);
      case Receiving(_, _, _) => ReceiveKeepsInv(x, s, n);
      case Misread(_) =>
  }

  // ----- termination -----

  function WorkerRank(w: Worker): nat {
    match w
    case SendField(f) => 300 + 2 * |f|
    case SendBody(unsent) => 100 + 2 * |unsent|
    case ReportSize(_) => 200
    case SendText(t) => 100 + |t|
    case _ => 0
  }

  /** What serving command `i` may cost the server. */
  function Load(x: Script, i: nat): nat {
    if i < |x.commands| then WorkerRank(Assigned(x.disk, x.commands[i])) else 0
  }

  /** What the commands not yet started may still cost. */
  function Remaining(x: Script, i: nat): nat
    decreases |x.commands| - i
  {
    if i >= |x.commands| then 0 else 600 + Load(x, i) + Remaining(x, i + 1)
  }

  function UserRank(x: Script, s: Link): nat {
    match s.user
    case Prompt(i) => Remaining(x, i) + if s.up == "" || i == 0 then 0 else Load(x, i - 1)
    case AwaitField(i) => Remaining(x, i + 1) + 300 + if s.up == "" then 0 else Load(x, i)
    case Receiving(i, _, _) => Remaining(x, i + 1) + 200 + if s.up == "" then 0 else Load(x, i)
    case Misread(i) => Remaining(x, i + 1) + 100 + if s.up == "" then 0 else Load(x, i)
  }

  function SessionRank(x: Script, s: Link): nat {
    UserRank(x, s) + WorkerRank(s.worker) + |s.up| + |s.down|
  }

  lemma AssigningStepsDown(x: Script, s: Link, i: nat)
    requires i < |x.commands| && s.up != "" && s.worker.Idle? && i == Current(s.user)
    ensures SessionRank(x, s.(worker := Assigned(x.disk, x.commands[i]), up := "")) < SessionRank(x, s)
  {
  }

  lemma ReadCommandStepsDown(x: Script, s: Link, n: nat, junk: string)
    requires Wellformed(x) && Inv(x, s) && WorkerEnabled(s, n, junk) && s.worker.Idle?
    ensures SessionRank(x, WorkerNext(x, s, n, junk)) < SessionRank(x, s)
  {
    ReadCommandStep(x, s, n, junk);
    AssigningStepsDown(x, s, Current(s.user));
  }

  lemma SendingRank(x: Script, s: Link, n: nat, junk: string)
    requires WorkerEnabled(s, n, junk) && !s.worker.Idle?
    ensures var s' := WorkerNext(x, s, n, junk);
            && s'.user == s.user && s'.up == s.up
            && WorkerRank(s'.worker) + |s'.down| < WorkerRank(s.worker) + |s.down|
  {
  }

  lemma SendingStepsDown(x: Script, s: Link, s': Link)
    requires s'.user == s.user && s'.up == s.up
    requires WorkerRank(s'.worker) + |s'.down| < WorkerRank(s.worker) + |s.down|
    ensures SessionRank(x, s') < SessionRank(x, s)
  {
  }

  lemma PromptStepsDown(x: Script, s: Link, n: nat)
    requires Wellformed(x) && UserEnabled(x, s, n) && s.user.Prompt? && s.up == ""
    ensures SessionRank(x, UserNext(x, s, n)) < SessionRank(x, s)
  {
    assert Proper(x.disk, x.commands[s.user.i]);
  }

  /** The client gets on with, or ends, its command and takes nothing but channel bytes. */
  lemma UserGetsOn(x: Script, s: Link, s': Link)
    requires (s.user.AwaitField? || s.user.Receiving?) && s'.worker == s.worker && s'.up == s.up
    requires |s'.down| <= |s.down|
    requires || s'.user == Prompt(s.user.i + 1) || (s'.user == Misread(s.user.i) && s.user.AwaitField?)
             || (s'.user.Receiving? && s'.user.i == s.user.i && (s.user.AwaitField? || |s'.down| < |s.down|))
    ensures SessionRank(x, s') < SessionRank(x, s)
  {
  }

  lemma ReadFieldStepsDown(x: Script, s: Link, n: nat)
    requires UserEnabled(x, s, n) && s.user.AwaitField?
    ensures SessionRank(x, UserNext(x, s, n)) < SessionRank(x, s)
  {
    UserGetsOn(x, s, UserNext(x, s, n));
  }

  lemma ReceiveStepsDown(x: Script, s: Link, n: nat)
    requires UserEnabled(x, s, n) && s.user.Receiving?
    ensures SessionRank(x, UserNext(x, s, n)) < SessionRank(x, s)
  {
    UserGetsOn(x, s, UserNext(x, s, n));
  }

  lemma MoveStepsDown(x: Script, s: Link, m: Move)
    requires Wellformed(x) && Inv(x, s) && CanMove(x, s, m)
    ensures SessionRank(x, Moved(x, s, m)) < SessionRank(x, s)
  {
    match m
    case WorkerMove(n, junk) =>
      if s.worker.Idle? {
        ReadCommandStepsDown(x, s, n, junk);
      } else {
        SendingRank(x, s, n, junk);
        SendingStepsDown(x, s, WorkerNext(x, s, n, junk));
      }
    case UserMove(n) =>
      match s.user
      case Prompt(_) => PromptStepsDown(x, s, n);
      case AwaitField(_) => ReadFieldStepsDown(x, s, n);
      case Receiving(_, _, _) => ReceiveStepsDown(x, s, n);
      case Misread(_) =>
  }

  // ----- progress -----

  predicate Done(x: Script, s: Link) { s.user == Prompt(|x.commands|) && s.worker == Idle && s.up == "" }

  /** The client has all the server sent for the last command and still waits for more,
      while the server waits for a command. */
  predicate Hung(x: Script, s: Link)
    requires Wellformed(x)
  {
    && s.user.Receiving? && s.user.i + 1 == |x.commands| && s.worker == Idle && s.up == s.down == ""
    && s.user.saved == Body(x.disk, x.commands[s.user.i]) && |s.user.saved| < s.user.total
  }

  /** The client is past an undefined atoi and the server waits for a command. */
  predicate Lost(s: Link) { s.user.Misread? && s.worker == Idle }

  function SomeMove(x: Script, s: Link): Move {
    if s.worker.SendBody? then
      WorkerMove(if |s.worker.unsent| <= 255 then |s.worker.unsent| else 255, "")
    else if !s.worker.Idle? || s.up != "" then WorkerMove(0, Zeros(100))
    else UserMove(if |s.down| <= 255 then |s.down| else 255)
  }

  /** Short of its count, the client has bytes to read, or the server bytes to send, or
      this is the last command and it hangs. */
  lemma ReceivingIsFed(x: Script, s: Link)
    requires Wellformed(x) && Inv(x, s) && s.user.Receiving? && |s.user.saved| < s.user.total
    ensures s.up != "" || s.down != "" || s.worker.SendBody? || Hung(x, s)
  {
    var i := s.user.i;
    var c := x.commands[i];
    if s.up == s.down == "" && s.worker.Idle? {
      assert s.user.saved + s.down + Left(s.worker) == s.user.saved;
      if i + 1 < |x.commands| {
        WantIsSent(x.disk, c);
      }
    }
  }

  lemma FieldIsComing(x: Script, s: Link)
    requires Wellformed(x) && Inv(x, s) && s.user.AwaitField?
    ensures CanMove(x, s, SomeMove(x, s))
  {
    SizeFits(x.disk, x.commands[s.user.i]);
  }

  lemma SomeoneCanMove(x: Script, s: Link)
    requires Wellformed(x) && Inv(x, s)
    ensures Done(x, s) || Hung(x, s) || Lost(s) || CanMove(x, s, SomeMove(x, s))
  {
    if s.user.Receiving? && |s.user.saved| < s.user.total {
      ReceivingIsFed(x, s);
    } else if s.user.AwaitField? {
      FieldIsComing(x, s);
    }
  }

  /** Nothing hangs but a part that is not served. */
  lemma WhatHangs(x: Script, s: Link)
    requires Wellformed(x) && Inv(x, s) && Hung(x, s)
    ensures x.commands[s.user.i].GetPart? && !Served(x.disk, x.commands[s.user.i])
  {
    WantIsSent(x.disk, x.commands[s.user.i]);
  }

  // ----- whole sessions -----

  lemma {:induction false} InvHoldsAfter(x: Script, s: Link, moves: seq<Move>)
    requires Wellformed(x) && Inv(x, s) && CanPlay(x, s, moves)
    ensures Inv(x, Played(x, s, moves))
    ensures |moves| + SessionRank(x, Played(x, s, moves)) <= SessionRank(x, s)
    decreases moves
  {
    if moves != [] {
      MoveKeepsInv(x, s, moves[0]);
      MoveStepsDown(x, s, moves[0]);
      InvHoldsAfter(x, Moved(x, s, moves[0]), moves[1..]);
    }
  }

  /** The script's first `i` commands. */
  function Upto(x: Script, i: nat): Script
    requires i <= |x.commands|
  {
    x.(commands := x.commands[..i])
  }

  /** How far the client is, in half commands. */
  function Position(u: User): nat { if u.Prompt? then 2 * u.i else 2 * u.i + 1 }

  lemma {:induction false} PositionGrows(x: Script, s: Link, moves: seq<Move>)
    requires CanPlay(x, s, moves)
    ensures Position(s.user) <= Position(Played(x, s, moves).user)
    decreases moves
  {
    if moves != [] {
      PositionGrows(x, Moved(x, s, moves[0]), moves[1..]);
    }
  }

  /** A move that ends no further than the prompt after `i` commands does not depend on the
      commands behind them. */
  lemma SameMove(x: Script, i: nat, s: Link, m: Move)
    requires i <= |x.commands| && CanMove(x, s, m) && Position(Moved(x, s, m).user) <= 2 * i
    ensures CanMove(Upto(x, i), s, m) && Moved(Upto(x, i), s, m) == Moved(x, s, m)
  {
  }

  lemma {:induction false} SameRun(x: Script, i: nat, s: Link, moves: seq<Move>)
    requires i <= |x.commands| && CanPlay(x, s, moves) && Position(Played(x, s, moves).user) <= 2 * i
    ensures CanPlay(Upto(x, i), s, moves) && Played(Upto(x, i), s, moves) == Played(x, s, moves)
    decreases moves
  {
    if moves != [] {
      var t := Moved(x, s, moves[0]);
      PositionGrows(x, t, moves[1..]);
      SameMove(x, i, s, moves[0]);
      SameRun(x, i, t, moves[1..]);
    }
  }

  /** Whenever the client is at its prompt, all results so far are right and both channels
      are empty, exactly when the command just done was not a part on which the ends count
      differently, nor a ten-digit size shown with old bytes behind it.  In every case saved
      bytes, bytes on the channel and bytes the server has still to send are together what
      the server set out to send; only of an empty part may the server not have heard yet.
      By SameRun this is true of any script, up to the prompt after the first command that
      is not small, served and agreeing. */
  lemma SessionAtPrompt(x: Script, buf: string, moves: seq<Move>, s: Link, i: nat)
    requires Wellformed(x) && |buf| == 255 && CanPlay(x, Start(buf), moves)
    requires s == Played(x, Start(buf), moves) && s.user == Prompt(i)
    ensures i <= |x.commands| && |s.results| == i
    ensures i == 0 ==> Clean(x, s, 0)
    ensures i > 0 ==>
              var c := x.commands[i - 1];
              if EmptyPart(c) then ResultsRight(x, s.results, i) else
                Clean(x, s, i) <==>
                  Agrees(x.disk, c)
                  && (c.GetSize? && !Small(x.disk, c) ==> s.results[i - 1] == Expected(x.disk, c))
    ensures i > 0 && x.commands[i - 1].GetPart? ==>
              var c := x.commands[i - 1];
              if s.up == "" then s.results[i - 1] + s.down + Left(s.worker) == Body(x.disk, c)
              else EmptyPart(c) && Pending(x, s, i - 1)
  {
    InvHoldsAfter(x, Start(buf), moves);
    if i > 0 {
      SettledIsClean(x, s, i);
      CommandArrives(x.commands[i - 1]);
    }
  }

  ghost predicate Halted(x: Script, s: Link) { forall m: Move :: !CanMove(x, s, m) }

  /** The last command is one after which the client stops waiting. */
  predicate EndServed(x: Script)
    requires Wellformed(x)
  {
    x.commands != [] ==> Served(x.disk, x.commands[|x.commands| - 1])
  }

  lemma HaltedIff(x: Script, s: Link)
    requires Wellformed(x) && Inv(x, s)
    ensures Halted(x, s) <==> Done(x, s) || Hung(x, s) || Lost(s)
  {
    SomeoneCanMove(x, s);
  }

  lemma DoneIsServed(x: Script, s: Link)
    requires Wellformed(x) && Inv(x, s)
    ensures Done(x, s) ==> EndServed(x)
    ensures Hung(x, s) ==> !EndServed(x)
  {
    if Hung(x, s) {
      WhatHangs(x, s);
    } else if Done(x, s) && x.commands != [] {
      SettledIsClean(x, s, |x.commands|);
    }
  }

  /** No session runs for ever, and one that can go no further is done, or hangs, or is lost
      on a misread size; unless lost it is done exactly when the last command, if a part, is
      one the server has bytes enough for. */
  lemma SessionEnds(x: Script, buf: string, moves: seq<Move>)
    requires Wellformed(x) && |buf| == 255 && CanPlay(x, Start(buf), moves)
    ensures |moves| <= Remaining(x, 0)
    ensures var s := Played(x, Start(buf), moves);
            && (Halted(x, s) <==> Done(x, s) || Hung(x, s) || Lost(s))
            && (Halted(x, s) && !Lost(s) ==> (Done(x, s) <==> EndServed(x)))
            && (Lost(s) ==> s.user.i + 1 == |x.commands| && x.commands[s.user.i].GetFile?
                            && !Small(x.disk, x.commands[s.user.i]))
  {
    InvHoldsAfter(x, Start(buf), moves);
    var s := Played(x, Start(buf), moves);
    HaltedIff(x, s);
    DoneIsServed(x, s);
  }

  // ----- a ten-digit size -----

  /** Past the read of the last command's size field. */
  predicate PastField(x: Script, u: User) {
    match u
    case Prompt(i) => i == |x.commands|
    case AwaitField(_) => false
    case Receiving(i, _, _) => i + 1 == |x.commands|
    case Misread(i) => i + 1 == |x.commands|
  }

  lemma {:induction false} MisreadIsKept(x: Script, s: Link, moves: seq<Move>)
    requires CanPlay(x, s, moves) && PastField(x, s.user)
    ensures PastField(x, Played(x, s, moves).user)
    ensures Played(x, s, moves).user.Misread? <==> s.user.Misread?
    decreases moves
  {
    if moves != [] {
      MisreadIsKept(x, Moved(x, s, moves[0]), moves[1..]);
    }
  }

  /** The script ends with a file, which is either saved or lost. */
  lemma LastFileHalts(x: Script, s: Link)
    requires Wellformed(x) && Inv(x, s) && Halted(x, s) && PastField(x, s.user)
    requires x.commands != [] && x.commands[|x.commands| - 1].GetFile? && !s.user.Misread?
    ensures Done(x, s) && Clean(x, s, |x.commands|)
  {
    HaltedIff(x, s);
    if Hung(x, s) {
      WhatHangs(x, s);
    }
    SettledIsClean(x, s, |x.commands|);
  }

  lemma AfterField(x: Script, s: Link, moves: seq<Move>)
    requires Wellformed(x) && Inv(x, s) && PastField(x, s.user)
    requires x.commands != [] && x.commands[|x.commands| - 1].GetFile?
    requires CanPlay(x, s, moves) && Halted(x, Played(x, s, moves))
    ensures var end := Played(x, s, moves);
            if s.user.Misread? then end.user.Misread? else Done(x, end) && Clean(x, end, |x.commands|)
  {
    InvHoldsAfter(x, s, moves);
    MisreadIsKept(x, s, moves);
    if !s.user.Misread? {
      LastFileHalts(x, Played(x, s, moves));
    }
  }

  /** While the client waits for the size of the script's last file, it is decided by that
      size and by byte ten of the client's buffer how every run ends that goes on till it
      can go no further: the file is saved, all results right and nothing left over, if the
      size leaves room for its NUL or that byte is no digit; otherwise the size is misread. */
  lemma {:induction false} FileArrivesIff(x: Script, s: Link, moves: seq<Move>)
    requires Wellformed(x) && Inv(x, s) && s.user.AwaitField? && s.user.i + 1 == |x.commands|
    requires x.commands[s.user.i].GetFile?
    requires CanPlay(x, s, moves) && Halted(x, Played(x, s, moves))
    ensures var end := Played(x, s, moves);
            if Small(x.disk, x.commands[s.user.i]) || !IsDigit(s.buf[10])
            then Done(x, end) && Clean(x, end, |x.commands|) else end.user.Misread?
    decreases moves
  {
    if moves == [] {
      FieldIsComing(x, s);
    } else {
      var t := Moved(x, s, moves[0]);
      MoveKeepsInv(x, s, moves[0]);
      if moves[0].WorkerMove? {
        FileArrivesIff(x, t, moves[1..]);
      } else {
        ReadFieldStep(x, s, moves[0].n);
        AfterField(x, t, moves[1..]);
      }
    }
  }
}
