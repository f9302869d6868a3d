/** The file-transfer protocol of FT_protocoll as two processes and two FIFO channels.

    A state holds both program counters and the bytes in flight each way; an action
    says which process moves and, for a read or a file chunk, how many bytes it gets.
    Any schedule of enabled actions is a run, so every interleaving and every choice
    of read sizes is covered.  A fixed-size control read returns as much of its
    request as is in the channel; a read on an empty channel returns zero bytes once
    the other side has closed, and waits otherwise. */
module FileTransfer {
  import opened CText

  const BUFFERSIZE: nat := 256
  const PATH_SIZE: nat := 252
  const OK: string := "Ok"
  const BYE: string := "Bye"
  const NOT_FOUND: string := "NO"

  // ----- the server's name reader -----

  /** The locals `ret`, `new`, `filePath` and `length` of the name loop. */
  datatype NameReader = NameReader(prev: char, cur: char, path: string, length: nat)

  const FreshReader: NameReader := NameReader(NUL, NUL, Zeros(PATH_SIZE), 0)

  /** The loop goes on until a CR was seen before the last byte, or an LF as the last byte. */
  predicate WantsMore(r: NameReader) { r.prev != '\r' && r.cur != '\n' }

  predicate FitsPath(r: NameReader, c: char) { c == '\r' || c == '\n' || r.length < |r.path| }

  /** One turn of the loop: the byte goes into `filePath` unless it is CR or LF. */
  function Feed(r: NameReader, c: char): NameReader
    requires FitsPath(r, c)
  {
    NameReader(r.cur, c, if c == '\r' || c == '\n' then r.path else r.path[r.length := c], r.length + 1)
  }

  // ----- the two processes -----

  /** One connection: the name the client asks for and the server's files. */
  datatype Session = Session(name: string, disk: map<string, string>)

  datatype Server =
    | ReadName(reader: NameReader)
    | ReplyNotFound
    | ReplyOk(file: string)
    | SendSize(file: string)
    | AwaitOk(file: string)
    | SendFile(unsent: string)
    | AwaitBye
    | SendBye
    | ServerDone

  datatype Client =
    | SendName
    | AwaitReply
    | AwaitSize
    | SendOk(total: int)
    | Receive(total: int, saved: string)
    | ClientBye(saved: string)
    | AwaitServerBye(saved: string)
    | ClientDone(saved: string)
    | Refused

  /** `up` flows to the server, `down` to the client.  `message` is the server's print
      buffer, kept from one connection to the next.  `heard` and `told` list what the
      control reads of the server and of the client returned. */
  datatype State = State(server: Server, client: Client, up: string, down: string,
                         message: string, heard: seq<string>, told: seq<string>)

  datatype Action = ServerStep(n: nat) | ClientStep(n: nat)

  function Init(message: string): State {
    State(ReadName(FreshReader), SendName, "", "", message, [], [])
  }

  predicate ClientGone(s: State) { s.client.ClientDone? || s.client.Refused? }

  predicate ServerGone(s: State) { s.server.ServerDone? }

  function Take(ch: string, max: nat): string { if |ch| <= max then ch else ch[..max] }

  function Drop(ch: string, max: nat): string { if |ch| <= max then "" else ch[max..] }

  /** A data read may return any positive number of available bytes, up to the request. */
  predicate CanRead(ch: string, closed: bool, max: nat, n: nat) {
    if ch == "" then closed && n == 0 else 1 <= n <= max && n <= |ch|
  }

  /** open(): the path is the C string in the buffer. */
  function Open(x: Session, path: string): Server {
    var name := CStr(path);
    if name in x.disk then ReplyOk(x.disk[name]) else ReplyNotFound
  }

  predicate ServerEnabled(s: State, n: nat) {
    match s.server
    case ReadName(r) => if s.up == "" then ClientGone(s) else FitsPath(r, s.up[0])
    case SendSize(f) => |Decimal(|f|)| < |s.message| && |s.message| >= 10
    case AwaitOk(_) => s.up != "" || ClientGone(s)
    case SendFile(unsent) => CanRead(unsent, true, BUFFERSIZE, n)
    case AwaitBye => s.up != "" || ClientGone(s)
    case ServerDone => false
    case _ => true
  }

  function ServerNext(x: Session, s: State, n: nat): State
    requires ServerEnabled(s, n)
  {
    match s.server
    case ReadName(r) =>
      if s.up == "" then s.(server := Open(x, r.path))
      else
        var r' := Feed(r, s.up[0]);
        s.(server := if WantsMore(r') then ReadName(r') else Open(x, r'.path), up := s.up[1..])
    case ReplyNotFound => s.(server := ServerDone, down := s.down + NOT_FOUND)
    case ReplyOk(f) => s.(server := SendSize(f), down := s.down + OK)
    case SendSize(f) =>
      var m := PrintSize(s.message, |f|);
      s.(server := AwaitOk(f), message := m, down := s.down + m[..10])
    case AwaitOk(f) =>
      s.(server := SendFile(f), up := Drop(s.up, 2), heard := s.heard + [Take(s.up, 2)])
    case SendFile(unsent) =>
      if n == 0 then s.(server := AwaitBye)
      else s.(server := SendFile(unsent[n..]), down := s.down + unsent[..n])
    case AwaitBye => s.(server := SendBye, up := Drop(s.up, 3), heard := s.heard + [Take(s.up, 3)])
    case SendBye => s.(server := ServerDone, down := s.down + BYE)
  }

  predicate ClientEnabled(s: State, n: nat) {
    match s.client
    case Receive(total, saved) =>
      |saved| >= total || CanRead(s.down, ServerGone(s), BUFFERSIZE, n)
    case AwaitReply => s.down != "" || ServerGone(s)
    case AwaitSize => s.down != "" || ServerGone(s)
    case AwaitServerBye(_) => s.down != "" || ServerGone(s)
    case ClientDone(_) => false
    case Refused => false
    case _ => true
  }

  function ClientNext(x: Session, s: State, n: nat): State
    requires ClientEnabled(s, n)
  {
    match s.client
    case SendName => s.(client := AwaitReply, up := s.up + x.name + CRLF)
    case AwaitReply =>
      var reply := Take(s.down, 2);
      s.(client := if CStr(reply) == OK then AwaitSize else Refused,
         down := Drop(s.down, 2), told := s.told + [reply])
    case AwaitSize =>
      var field := Take(s.down, 10);
      s.(client := SendOk(Atoi(field + Zeros(BUFFERSIZE - |field|))),
         down := Drop(s.down, 10), told := s.told + [field])
    case SendOk(total) => s.(client := Receive(total, ""), up := s.up + OK)
    case Receive(total, saved) =>
      if |saved| >= total || n == 0 then s.(client := ClientBye(saved))
      else s.(client := Receive(total, saved + Take(s.down, n)), down := Drop(s.down, n))
    case ClientBye(saved) => s.(client := AwaitServerBye(saved), up := s.up + BYE)
    case AwaitServerBye(saved) =>
      s.(client := ClientDone(saved), down := Drop(s.down, 3), told := s.told + [Take(s.down, 3)])
  }

  predicate Enabled(s: State, a: Action) {
    match a
    case ServerStep(n) => ServerEnabled(s, n)
    case ClientStep(n) => ClientEnabled(s, n)
  }

  function Next(x: Session, s: State, a: Action): State
    requires Enabled(s, a)
  {
    match a
    case ServerStep(n) => ServerNext(x, s, n)
    case ClientStep(n) => ClientNext(x, s, n)
  }

  /** A schedule that can be followed from `s`. */
  predicate CanRun(x: Session, s: State, acts: seq<Action>)
    decreases acts
  {
    acts == [] || (Enabled(s, acts[0]) && CanRun(x, Next(x, s, acts[0]), acts[1..]))
  }

  function After(x: Session, s: State, acts: seq<Action>): State
    requires CanRun(x, s, acts)
    decreases acts
  {
    if acts == [] then s else After(x, Next(x, s, acts[0]), acts[1..])
  }

  ghost predicate Stuck(s: State) { forall a: Action :: !Enabled(s, a) }

  /** The action reads from a socket whose other end has closed with nothing left in it. */
  predicate ReadsEndOfFile(s: State, a: Action) {
    match a
    case ServerStep(_) => (s.server.ReadName? || s.server.AwaitOk? || s.server.AwaitBye?) && s.up == ""
    case ClientStep(_) =>
      && s.down == ""
      && match s.client {
           case AwaitReply => true
           case AwaitSize => true
           case AwaitServerBye(_) => true
           case Receive(total, saved) => |saved| < total
           case _ => false
         }
  }
}
