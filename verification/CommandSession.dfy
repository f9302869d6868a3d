/** The command session of PRACTICA2: a client working through a script of commands and
    the server's command loop, over one connection that is never closed.

    As in FileTransfer, a run is any schedule of enabled actions.  A command read and
    the ten-byte reads return as much of their request as is in the channel. */
module CommandSession {
  import opened CText
  import opened Tokens
  import opened FileTransfer

  datatype Command =
    | GetFile(file: string)
    | GetPart(file: string, first: string, last: string)
    | GetSize(file: string)

  /** The lines a command is printed as. */
  function Words(c: Command): seq<string> {
    match c
    case GetFile(f) => ["GETFILE", f]
    case GetPart(f, first, last) => ["GETFILEPART", f, first, last]
    case GetSize(f) => ["GETFILESIZE", f]
  }

  function Print(c: Command): string { PrintLines(Words(c)) }

  /** What the server has in hand: nothing, a whole file announced by its size, bytes to
      send, a size to report, or a fixed text.  `Undefined` stands for a command on which
      the C code passes NULL to strcmp, NULL or a number past the range of an int to atoi,
      or a negative count to read. */
  datatype Worker =
    | Idle
    | SendField(file: string)
    | SendBody(unsent: string)
    | ReportSize(file: string)
    | SendText(text: string)
    | Undefined

  function Min(a: int, b: int): int { if a < b then a else b }

  /** The bytes sendFile is in charge of: from `from` on, at most `count` of them; a count
      of zero stands for the size of the file. */
  function Window(file: string, from: nat, count: nat): string {
    var b := if count == 0 then |file| else count;
    file[Min(from, |file|)..Min(from + b, |file|)]
  }

  /** Byte by byte: from `from` on, as many bytes as were asked for, or as there are. */
  lemma WindowBytes(file: string, from: nat, count: nat)
    ensures var wanted := if count == 0 then |file| else count;
            var there := if from < |file| then |file| - from else 0;
            && |Window(file, from, count)| == (if wanted < there then wanted else there)
            && forall i :: 0 <= i < |Window(file, from, count)| ==> Window(file, from, count)[i] == file[from + i]
  {
  }

  function PartWorker(disk: map<string, string>, arg1: Option<string>, arg2: Option<string>,
                      arg3: Option<string>): Worker
  {
    if arg2.None? || arg3.None? then Undefined
    else
      var initByte, bytes := Atoi(arg2.value), Atoi(arg3.value);
      if !FitsInt(initByte) || !FitsInt(bytes) then Undefined
      else if arg1.None? || arg1.value !in disk then SendText(NOT_FOUND)
      else if bytes < 0 then Undefined
      else SendBody(Window(disk[arg1.value], if initByte < 0 then 0 else initByte, bytes))
  }

  /** The server's command dispatch. */
  function Branch(disk: map<string, string>, command: Option<string>, arg1: Option<string>,
                  arg2: Option<string>, arg3: Option<string>): Worker
  {
    if command.None? then Undefined
    else if command.value == "GETFILE" then
      if arg1.Some? && arg1.value in disk then SendField(disk[arg1.value]) else SendText(NOT_FOUND)
    else if command.value == "GETFILEPART" then PartWorker(disk, arg1, arg2, arg3)
    else if command.value == "GETFILESIZE" then
      if arg1.Some? && arg1.value in disk then ReportSize(disk[arg1.value]) else SendText("FILE NOT FOUND")
    else Idle
  }

  /** The dispatch with a strtok call for each argument. */
  function Dispatch(disk: map<string, string>, text: string): Worker {
    Branch(disk, TokenAt(text, 0, CRLF), TokenAt(text, 1, CRLF), TokenAt(text, 2, CRLF), TokenAt(text, 3, CRLF))
  }

  datatype Script = Script(disk: map<string, string>, commands: seq<Command>)

  /** The client at its prompt with `i` commands done, or in the middle of command `i`;
      `Misread` is past a call of atoi whose digits name no C int. */
  datatype User =
    | Prompt(i: nat)
    | AwaitField(i: nat)
    | Receiving(i: nat, total: int, saved: string)
    | Misread(i: nat)

  /** `buf` is the client's buffer, never cleared; `results` has the saved file or the
      printed size for each command done. */
  datatype Link = Link(worker: Worker, user: User, up: string, down: string, buf: string, results: seq<string>)

  /** `junk` is what an uninitialised print buffer on the server's stack holds. */
  datatype Move = WorkerMove(n: nat, junk: string) | UserMove(n: nat)

  function Start(buf: string): Link { Link(Idle, Prompt(0), "", "", buf, []) }

  predicate WorkerEnabled(s: Link, n: nat, junk: string) {
    match s.worker
    case Idle => s.up != ""
    case SendField(f) => |junk| == 100 && |f| < Pow10(10)
    case SendBody(unsent) => CanRead(unsent, true, 255, n)
    case ReportSize(f) => |junk| == 100 && |f| < Pow10(10)
    case SendText(_) => true
    case Undefined => false
  }

  function WorkerNext(x: Script, s: Link, n: nat, junk: string): Link
    requires WorkerEnabled(s, n, junk)
  {
    match s.worker
    case Idle => s.(worker := Dispatch(x.disk, CStr(Take(s.up, 255))), up := Drop(s.up, 255))
    case SendField(f) => s.(worker := SendBody(Window(f, 0, 0)), down := s.down + SizeField(junk, |f|))
    case SendBody(unsent) =>
      if n == 0 then s.(worker := Idle)
      else s.(worker := SendBody(unsent[n..]), down := s.down + unsent[..n])
    case ReportSize(f) => s.(worker := Idle, down := s.down + SizeField(junk, |f|))
    case SendText(t) => s.(worker := Idle, down := s.down + t)
  }

  predicate UserEnabled(x: Script, s: Link, n: nat) {
    match s.user
    case Prompt(i) => i < |x.commands|
    case AwaitField(i) => s.down != "" && i < |x.commands| && |s.buf| == 255
    case Receiving(i, total, saved) =>
      i < |x.commands| && |s.buf| == 255 && (|saved| >= total || CanRead(s.down, false, 255, n))
    case Misread(_) => false
  }

  function UserNext(x: Script, s: Link, n: nat): Link
    requires UserEnabled(x, s, n)
  {
    match s.user
    case Prompt(i) =>
      var c := x.commands[i];
      s.(up := s.up + Print(c),
         user := if c.GetPart? then Receiving(i, Atoi(c.last) - Atoi(c.first), "") else AwaitField(i))
    case AwaitField(i) =>
      var field := Take(s.down, 10);
      var b := Overwrite(s.buf, field);
      var s' := s.(down := Drop(s.down, 10), buf := b);
      if x.commands[i].GetSize? then s'.(user := Prompt(i + 1), results := s.results + [CStr(b)])
      else s'.(user := if FitsInt(Atoi(b)) then Receiving(i, Atoi(b), "") else Misread(i))
    case Receiving(i, total, saved) =>
      if |saved| >= total then s.(user := Prompt(i + 1), results := s.results + [saved])
      else
        s.(user := Receiving(i, total, saved + s.down[..n]), down := s.down[n..],
           buf := Overwrite(s.buf, s.down[..n]))
  }

  predicate CanMove(x: Script, s: Link, m: Move) {
    match m
    case WorkerMove(n, junk) => WorkerEnabled(s, n, junk)
    case UserMove(n) => UserEnabled(x, s, n)
  }

  function Moved(x: Script, s: Link, m: Move): Link
    requires CanMove(x, s, m)
  {
    match m
    case WorkerMove(n, junk) => WorkerNext(x, s, n, junk)
    case UserMove(n) => UserNext(x, s, n)
  }

  predicate CanPlay(x: Script, s: Link, moves: seq<Move>)
    decreases moves
  {
    moves == [] || (CanMove(x, s, moves[0]) && CanPlay(x, Moved(x, s, moves[0]), moves[1..]))
  }

  function Played(x: Script, s: Link, moves: seq<Move>): Link
    requires CanPlay(x, s, moves)
    decreases moves
  {
    if moves == [] then s else Played(x, Moved(x, s, moves[0]), moves[1..])
  }
}
