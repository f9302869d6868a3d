/** What goes over the connection in a whole run of the file-transfer protocol, byte for byte. */
module FileTransferTranscript {
  import opened CText
  import opened FileTransfer
  import opened FileTransferProofs

  /** What one action adds to the server's channel. */
  function ClientWrote(x: Session, s: State, a: Action): string
    requires Enabled(s, a)
  {
    if a.ClientStep? then Next(x, s, a).up[|s.up|..] else ""
  }

  /** The bytes the client writes in a run, in order. */
  function ClientBytes(x: Session, s: State, acts: seq<Action>): string
    requires CanRun(x, s, acts)
    decreases acts
  {
    if acts == [] then ""
    else ClientWrote(x, s, acts[0]) + ClientBytes(x, Next(x, s, acts[0]), acts[1..])
  }

  /** What one action adds to the client's channel. */
  function ServerWrote(x: Session, s: State, a: Action): string
    requires Enabled(s, a)
  {
    if a.ServerStep? then Next(x, s, a).down[|s.down|..] else ""
  }

  /** The bytes the server writes in a run, in order. */
  function ServerBytes(x: Session, s: State, acts: seq<Action>): string
    requires CanRun(x, s, acts)
    decreases acts
  {
    if acts == [] then ""
    else ServerWrote(x, s, acts[0]) + ServerBytes(x, Next(x, s, acts[0]), acts[1..])
  }

  /** What the client has written when it stands at `c`. */
  function ClientSoFar(x: Session, c: Client): string {
    match c
    case SendName => ""
    case Receive(_, _) => x.name + "\r\n" + "Ok"
    case ClientBye(_) => x.name + "\r\n" + "Ok"
    case AwaitServerBye(_) => x.name + "\r\n" + "Ok" + "Bye"
    case ClientDone(_) => x.name + "\r\n" + "Ok" + "Bye"
    case _ => x.name + "\r\n"
  }

  /** What the server has written in the state `s`. */
  function ServerSoFar(x: Session, s: State): string {
    var begun := "Ok" + Field(s);
    match s.server
    case ReadName(_) => ""
    case ReplyNotFound => ""
    case ReplyOk(_) => ""
    case SendSize(_) => "Ok"
    case AwaitOk(_) => begun
    case SendFile(unsent) => begun + Take(File(x), |File(x)| - if |unsent| <= |File(x)| then |unsent| else 0)
    case AwaitBye => begun + File(x)
    case SendBye => begun + File(x)
    case ServerDone => if Exists(x) then begun + File(x) + "Bye" else "NO"
  }

  lemma ClientWrites(x: Session, s: State, a: Action)
    requires Enabled(s, a)
    ensures ClientSoFar(x, s.client) + ClientWrote(x, s, a) == ClientSoFar(x, Next(x, s, a).client)
  {
  }

  lemma {:induction false} ClientTranscript(x: Session, s: State, acts: seq<Action>)
    requires CanRun(x, s, acts)
    ensures ClientSoFar(x, s.client) + ClientBytes(x, s, acts) == ClientSoFar(x, After(x, s, acts).client)
    decreases acts
  {
    if acts != [] {
      var t := Next(x, s, acts[0]);
      ClientWrites(x, s, acts[0]);
      ClientTranscript(x, t, acts[1..]);
      Regroup(ClientSoFar(x, s.client), ClientWrote(x, s, acts[0]), ClientBytes(x, t, acts[1..]));
    }
  }

  lemma FileGoesOn(x: Session, s: State, n: nat)
    requires Wellformed(x) && Inv(x, s) && ServerEnabled(s, n) && s.server.SendFile?
    ensures var t := ServerNext(x, s, n);
            |s.down| <= |t.down| && ServerSoFar(x, s) + t.down[|s.down|..] == ServerSoFar(x, t)
  {
    var file, unsent := File(x), s.server.unsent;
    assert |unsent| <= |file| && file[|file| - |unsent|..] == unsent;
    var at := |file| - |unsent|;
    assert Take(file, at) == file[..at];
    if n > 0 {
      assert file[..at] + unsent[..n] == file[..at + n];
    }
  }

  lemma ServerWrites(x: Session, s: State, n: nat)
    requires Wellformed(x) && Inv(x, s) && ServerEnabled(s, n)
    ensures var t := ServerNext(x, s, n);
            |s.down| <= |t.down| && ServerSoFar(x, s) + t.down[|s.down|..] == ServerSoFar(x, t)
  {
    match s.server
    case SendFile(_) => FileGoesOn(x, s, n);
    case _ =>
  }

  lemma ActionWrites(x: Session, s: State, a: Action)
    requires Wellformed(x) && Inv(x, s) && Enabled(s, a)
    ensures Inv(x, Next(x, s, a))
    ensures ServerSoFar(x, s) + ServerWrote(x, s, a) == ServerSoFar(x, Next(x, s, a))
  {
    match a
    case ServerStep(n) => ServerWrites(x, s, n); ServerKeepsInv(x, s, n);
    case ClientStep(n) => ClientKeepsInv(x, s, n);
  }

  lemma Regroup(a: string, b: string, c: string)
    ensures a + (b + c) == a + b + c
  {
  }

  lemma {:induction false} ServerTranscript(x: Session, s: State, acts: seq<Action>)
    requires Wellformed(x) && Inv(x, s) && CanRun(x, s, acts)
    ensures ServerSoFar(x, s) + ServerBytes(x, s, acts) == ServerSoFar(x, After(x, s, acts))
    decreases acts
  {
    if acts != [] {
      var t := Next(x, s, acts[0]);
      ActionWrites(x, s, acts[0]);
      ServerTranscript(x, t, acts[1..]);
      Regroup(ServerSoFar(x, s), ServerWrote(x, s, acts[0]), ServerBytes(x, t, acts[1..]));
    }
  }

  lemma FieldOnWire(x: Session, s: State)
    requires Wellformed(x) && Exists(x) && Printed(s, x)
    ensures FieldFor(Field(s), |File(x)|)
  {
    PowersOfTen();
    FieldWritten(s.message, |File(x)|);
  }

  /** Both ends read up to 256 bytes of file at a time. */
  lemma ChunkSizes(s: State, n: nat)
    ensures s.server.SendFile? && s.server.unsent != "" ==>
              (ServerEnabled(s, n) <==> 1 <= n <= 256 && n <= |s.server.unsent|)
    ensures s.client.Receive? && |s.client.saved| < s.client.total && s.down != "" ==>
              (ClientEnabled(s, n) <==> 1 <= n <= 256 && n <= |s.down|)
  {
  }

  /** The whole conversation, in every interleaving: the client writes the name and CRLF
      and, if the file is there, "Ok" and "Bye"; the server writes "Ok", the ten bytes that
      announce the size, the file and "Bye", or else just "NO". */
  lemma WholeConversation(x: Session, message: string, acts: seq<Action>)
    requires Wellformed(x) && |message| == 100 && CanRun(x, Init(message), acts)
    requires Stuck(After(x, Init(message), acts))
    ensures x.name !in x.disk ==>
              ClientBytes(x, Init(message), acts) == x.name + "\r\n" && ServerBytes(x, Init(message), acts) == "NO"
    ensures x.name in x.disk ==>
              && ClientBytes(x, Init(message), acts) == x.name + "\r\n" + "Ok" + "Bye"
              && var field := Take(After(x, Init(message), acts).message, 10);
              && FieldFor(field, |x.disk[x.name]|)
              && ServerBytes(x, Init(message), acts) == "Ok" + field + x.disk[x.name] + "Bye"
  {
    InvHoldsAtStart(x, message);
    InvHoldsAfter(x, Init(message), acts);
    TransferEnds(x, message, acts);
    ClientTranscript(x, Init(message), acts);
    ServerTranscript(x, Init(message), acts);
    if x.name in x.disk {
      FieldOnWire(x, After(x, Init(message), acts));
    }
  }
}
