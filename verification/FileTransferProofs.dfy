/** What every run of the file-transfer protocol keeps, and how every run ends. */
module FileTransferProofs {
  import opened CText
  import opened FileTransfer

  /** The callers' side conditions: the name fits the 252-byte path buffer and holds no
      terminator, and file sizes fit a C int. */
  ghost predicate Wellformed(x: Session) {
    && |x.name| <= PATH_SIZE - 1
    && NUL !in x.name && '\r' !in x.name && '\n' !in x.name
    && forall f :: f in x.disk ==> |x.disk[f]| < INT_LIMIT
  }

  function Line(name: string): string { name + CRLF }

  // ----- the name reader -----

  /** The reader's locals after the first `i` bytes of `name` and its CRLF. */
  function ReaderAt(name: string, i: nat): NameReader
    requires |name| <= PATH_SIZE && i <= |name| + 2
  {
    var line := Line(name);
    var stored := if i <= |name| then name[..i] else name;
    NameReader(if i >= 2 then line[i - 2] else NUL, if i >= 1 then line[i - 1] else NUL,
               stored + Zeros(PATH_SIZE - |stored|), i)
  }

  /** The reader follows the line byte by byte and stops exactly after its LF. */
  lemma ReaderFollowsLine(name: string, i: nat)
    requires |name| <= PATH_SIZE - 1 && '\r' !in name && '\n' !in name
    requires i < |name| + 2
    ensures FitsPath(ReaderAt(name, i), Line(name)[i])
    ensures Feed(ReaderAt(name, i), Line(name)[i]) == ReaderAt(name, i + 1)
    ensures WantsMore(ReaderAt(name, i + 1)) <==> i + 1 < |name| + 2
  {
    var line, r, c := Line(name), ReaderAt(name, i), Line(name)[i];
    if i < |name| {
      assert c == name[i];
      assert r.path[i := c] == name[..i + 1] + Zeros(PATH_SIZE - (i + 1));
      assert i >= 1 ==> line[i - 1] == name[i - 1];
    } else if i == |name| {
      assert name[..i] == name;
      assert i >= 1 ==> line[i - 1] == name[i - 1];
    }
  }

  lemma ReaderFindsName(name: string)
    requires |name| <= PATH_SIZE - 1 && NUL !in name
    ensures CStr(ReaderAt(name, |name| + 2).path) == name
  {
    CStrOfTerminated(name, Zeros(PATH_SIZE - |name|));
  }

  // ----- the invariant -----

  predicate Exists(x: Session) { x.name in x.disk }

  function File(x: Session): string { if Exists(x) then x.disk[x.name] else "" }

  /** The size field as it stands in the server's print buffer. */
  predicate Printed(s: State, x: Session) {
    && |Decimal(|File(x)|)| < 100 == |s.message|
    && s.message == PrintSize(s.message, |File(x)|)
  }

  function Field(s: State): string { Take(s.message, 10) }

  /** Conservation: saved bytes, bytes in flight and bytes not yet sent make up the file.
      `pre` is what the server has still to read before the client's farewell. */
  predicate Transferring(x: Session, s: State, unsent: string, pre: string) {
    && Exists(x) && Printed(s, x) && s.told == [OK, Field(s)]
    && match s.client {
         case Receive(total, saved) =>
           total == |File(x)| && saved + s.down + unsent == File(x) && s.up == pre
         case ClientBye(saved) =>
           saved == File(x) && s.down == "" && unsent == "" && s.up == pre
         case AwaitServerBye(saved) =>
           saved == File(x) && s.down == "" && unsent == "" && s.up == pre + BYE
         case _ => false
       }
  }

  predicate Inv(x: Session, s: State) {
    && |s.message| == 100
    && match s.server {
         case ReadName(r) =>
           && s.heard == [] && s.told == [] && s.down == ""
           && |x.name| <= PATH_SIZE && r.length < |x.name| + 2 && r == ReaderAt(x.name, r.length)
           && (if r.length == 0 && s.client == SendName then s.up == ""
               else s.client == AwaitReply && s.up == Line(x.name)[r.length..])
         case ReplyNotFound =>
           !Exists(x) && s.client == AwaitReply && s.up == s.down == "" && s.heard == s.told == []
         case ReplyOk(f) =>
           Exists(x) && f == File(x) && s.client == AwaitReply && s.up == s.down == "" && s.heard == s.told == []
         case SendSize(f) =>
           && Exists(x) && f == File(x) && s.up == "" && s.heard == []
           && ((s.client == AwaitReply && s.down == OK && s.told == [])
               || (s.client == AwaitSize && s.down == "" && s.told == [OK]))
         case AwaitOk(f) =>
           && Exists(x) && f == File(x) && s.heard == [] && Printed(s, x)
           && match s.client {
                case AwaitReply => s.up == "" && s.down == OK + Field(s) && s.told == []
                case AwaitSize => s.up == "" && s.down == Field(s) && s.told == [OK]
                case SendOk(total) => s.up == "" && s.down == "" && total == |f| && s.told == [OK, Field(s)]
                case _ => Transferring(x, s, f, OK) && s.down == ""
              }
         case SendFile(unsent) => Transferring(x, s, unsent, "") && s.heard == [OK]
         case AwaitBye => Transferring(x, s, "", "") && s.heard == [OK]
         case SendBye =>
           && Exists(x) && Printed(s, x) && s.heard == [OK, BYE] && s.told == [OK, Field(s)]
           && s.client == AwaitServerBye(File(x)) && s.up == s.down == ""
         case ServerDone =>
           && s.up == ""
           && if Exists(x) then
                && s.heard == [OK, BYE] && Printed(s, x)
                && ((s.client == AwaitServerBye(File(x)) && s.down == BYE && s.told == [OK, Field(s)])
                    || (s.client == ClientDone(File(x)) && s.down == "" && s.told == [OK, Field(s), BYE]))
              else
                && s.heard == []
                && ((s.client == AwaitReply && s.down == NOT_FOUND && s.told == [])
                    || (s.client == Refused && s.down == "" && s.told == [NOT_FOUND]))
       }
  }

  lemma SizePrints(x: Session, s: State)
    requires Wellformed(x) && Exists(x) && |s.message| == 100
    ensures |Decimal(|File(x)|)| <= 10
    ensures var m := PrintSize(s.message, |File(x)|);
            |m| == 100 && m == PrintSize(m, |File(x)|)
  {
    PowersOfTen();
    DecimalLength(|File(x)|, 10);
  }

  lemma SizeDecodes(x: Session, s: State)
    requires Wellformed(x) && Exists(x) && Printed(s, x)
    ensures |Field(s)| == 10
    ensures Atoi(Field(s) + Zeros(BUFFERSIZE - 10)) == |File(x)|
  {
    PowersOfTen();
    SizeFieldRoundTrip(s.message, |File(x)|, Zeros(BUFFERSIZE - 10));
  }

  lemma NameStepKeepsInv(x: Session, s: State, n: nat)
    requires Wellformed(x) && Inv(x, s) && ServerEnabled(s, n) && s.server.ReadName?
    ensures s.up != "" && Inv(x, ServerNext(x, s, n))
  {
    var i := s.server.reader.length;
    if s.client == AwaitReply {
      ReaderFollowsLine(x.name, i);
      ReaderFindsName(x.name);
      assert s.up[0] == Line(x.name)[i];
      assert s.up[1..] == Line(x.name)[i + 1..];
    } else {
      assert false;
    }
  }

  lemma SendFileKeepsInv(x: Session, s: State, n: nat)
    requires Inv(x, s) && ServerEnabled(s, n) && s.server.SendFile?
    ensures Inv(x, ServerNext(x, s, n))
  {
    var unsent := s.server.unsent;
    if n > 0 {
      assert unsent == unsent[..n] + unsent[n..];
    }
  }

  lemma ServerKeepsInv(x: Session, s: State, n: nat)
    requires Wellformed(x) && Inv(x, s) && ServerEnabled(s, n)
    ensures Inv(x, ServerNext(x, s, n))
    ensures !ReadsEndOfFile(s, ServerStep(n))
  {
    match s.server
    case ReadName(_) => NameStepKeepsInv(x, s, n);
    case SendSize(_) => SizePrints(x, s);
    case SendFile(_) => SendFileKeepsInv(x, s, n);
    case AwaitBye => assert "" + BYE == BYE;
    case _ =>
  }

  lemma ReceiveKeepsInv(x: Session, s: State, n: nat)
    requires Inv(x, s) && ClientEnabled(s, n) && s.client.Receive?
    ensures Inv(x, ClientNext(x, s, n))
    ensures !ReadsEndOfFile(s, ClientStep(n))
  {
    assert s.down == Take(s.down, n) + Drop(s.down, n);
  }

  lemma ClientKeepsInv(x: Session, s: State, n: nat)
    requires Wellformed(x) && Inv(x, s) && ClientEnabled(s, n)
    ensures Inv(x, ClientNext(x, s, n))
    ensures !ReadsEndOfFile(s, ClientStep(n))
  {
    match s.client
    case AwaitSize => if s.server.AwaitOk? { SizeDecodes(x, s); }
    case Receive(_, _) => ReceiveKeepsInv(x, s, n);
    case _ =>
  }

  // ----- termination -----

  function ServerPhases(v: Server): nat {
    match v
    case ReadName(_) => 8
    case ReplyNotFound => 1
    case ReplyOk(_) => 7
    case SendSize(_) => 6
    case AwaitOk(_) => 5
    case SendFile(_) => 4
    case AwaitBye => 3
    case SendBye => 2
    case ServerDone => 0
  }

  function ClientPhases(c: Client): nat {
    match c
    case SendName => 8
    case AwaitReply => 7
    case AwaitSize => 6
    case SendOk(_) => 5
    case Receive(_, _) => 4
    case ClientBye(_) => 3
    case AwaitServerBye(_) => 2
    case ClientDone(_) => 0
    case Refused => 0
  }

  /** File bytes the server has still to hand to the socket. */
  function Unsent(x: Session, v: Server): nat {
    match v
    case ReadName(_) => |File(x)|
    case ReplyOk(f) => |f|
    case SendSize(f) => |f|
    case AwaitOk(f) => |f|
    case SendFile(unsent) => |unsent|
    case _ => 0
  }

  /** Phases left weigh more than any one control message; an unsent byte more than one in flight. */
  function Rank(x: Session, s: State): nat {
    300 * (ServerPhases(s.server) + ClientPhases(s.client)) + 2 * Unsent(x, s.server) + |s.up| + |s.down|
  }

  lemma ServerStepsDown(x: Session, s: State, n: nat)
    requires Wellformed(x) && Inv(x, s) && ServerEnabled(s, n)
    ensures Rank(x, ServerNext(x, s, n)) < Rank(x, s)
  {
    match s.server
    case ReadName(r) =>
      NameStepKeepsInv(x, s, n);
    case SendSize(_) => SizePrints(x, s);
    case _ =>
  }

  lemma ClientStepsDown(x: Session, s: State, n: nat)
    requires Wellformed(x) && Inv(x, s) && ClientEnabled(s, n)
    ensures Rank(x, ClientNext(x, s, n)) < Rank(x, s)
  {
    ClientKeepsInv(x, s, n);
  }

  // ----- deadlock freedom -----

  /** Both sides have closed, and the client has the file if there is one. */
  predicate Finished(x: Session, s: State) {
    && s.server == ServerDone && s.up == s.down == ""
    && if Exists(x) then
         s.client == ClientDone(File(x)) && s.heard == [OK, BYE] && s.told == [OK, Field(s), BYE]
       else
         s.client == Refused && s.heard == [] && s.told == [NOT_FOUND]
  }

  /** A step that can be taken now, whenever the two sides have not finished. */
  function SomeStep(s: State): Action {
    if s.server.ReadName? && s.up == "" then ClientStep(0)
    else if s.server.SendFile? then
      ServerStep(if |s.server.unsent| <= BUFFERSIZE then |s.server.unsent| else BUFFERSIZE)
    else if ((s.server.AwaitOk? || s.server.AwaitBye?) && s.up == "") || s.server.ServerDone? then
      ClientStep(if |s.down| <= BUFFERSIZE then |s.down| else BUFFERSIZE)
    else ServerStep(0)
  }

  lemma NeverBlocked(x: Session, s: State)
    requires Wellformed(x) && Inv(x, s)
    ensures Finished(x, s) || Enabled(s, SomeStep(s))
  {
    match s.server
    case ReadName(r) =>
      if s.up != "" {
        ReaderFollowsLine(x.name, r.length);
        assert s.up[0] == Line(x.name)[r.length];
      }
    case SendSize(_) => SizePrints(x, s);
    case _ =>
  }

  // ----- whole runs -----

  lemma InvHoldsAtStart(x: Session, message: string)
    requires Wellformed(x) && |message| == 100
    ensures Inv(x, Init(message))
  {
    assert FreshReader == ReaderAt(x.name, 0);
  }

  lemma {:induction false} InvHoldsAfter(x: Session, s: State, acts: seq<Action>)
    requires Wellformed(x) && Inv(x, s) && CanRun(x, s, acts)
    ensures Inv(x, After(x, s, acts))
    ensures |acts| + Rank(x, After(x, s, acts)) <= Rank(x, s)
    decreases acts
  {
    if acts != [] {
      match acts[0] {
        case ServerStep(n) => ServerKeepsInv(x, s, n); ServerStepsDown(x, s, n);
        case ClientStep(n) => ClientKeepsInv(x, s, n); ClientStepsDown(x, s, n);
      }
      InvHoldsAfter(x, Next(x, s, acts[0]), acts[1..]);
    }
  }

  /** File bytes still in the server's hands once the transfer phase has begun. */
  function UnsentBytes(v: Server): string {
    match v
    case AwaitOk(f) => f
    case SendFile(unsent) => unsent
    case _ => ""
  }

  /** Safety in every interleaving: no byte of the file is lost, repeated or reordered,
      the client never counts past the size it was told, stops exactly at it, and no
      read of either side ever meets a closed connection. */
  lemma TransferIsSafe(x: Session, message: string, acts: seq<Action>)
    requires Wellformed(x) && |message| == 100 && CanRun(x, Init(message), acts)
    ensures var s := After(x, Init(message), acts);
            && (forall total, saved :: s.client == Receive(total, saved) ==>
                  && |saved| <= total == |File(x)|
                  && saved + s.down + UnsentBytes(s.server) == File(x))
            && (forall saved :: s.client == ClientBye(saved) || s.client == AwaitServerBye(saved) ==>
                  saved == File(x) && UnsentBytes(s.server) == "" && (s.down == "" || s.down == BYE))
            && (forall a :: Enabled(s, a) ==> !ReadsEndOfFile(s, a))
  {
    InvHoldsAtStart(x, message);
    InvHoldsAfter(x, Init(message), acts);
    var s := After(x, Init(message), acts);
    forall a | Enabled(s, a)
      ensures !ReadsEndOfFile(s, a)
    {
      match a
      case ServerStep(n) => ServerKeepsInv(x, s, n);
      case ClientStep(n) => ClientKeepsInv(x, s, n);
    }
  }

  /** No run deadlocks and none goes on for ever: a run has at most as many steps as the
      bound, and the states with nothing left to do are exactly those where both sides
      have closed and the client holds the whole file, or was refused a missing one. */
  lemma TransferEnds(x: Session, message: string, acts: seq<Action>)
    requires Wellformed(x) && |message| == 100 && CanRun(x, Init(message), acts)
    ensures |acts| <= 4800 + 2 * |File(x)|
    ensures Stuck(After(x, Init(message), acts)) <==> Finished(x, After(x, Init(message), acts))
  {
    InvHoldsAtStart(x, message);
    InvHoldsAfter(x, Init(message), acts);
    NeverBlocked(x, After(x, Init(message), acts));
  }

  // ----- many connections to one server -----

  datatype Visit = Visit(name: string, acts: seq<Action>)

  /** Connections served one after the other, each run to its end; the print buffer is
      handed on as the previous connection left it. */
  ghost predicate Serves(disk: map<string, string>, message: string, visits: seq<Visit>)
    decreases visits
  {
    visits == [] ||
    (var x := Session(visits[0].name, disk);
     && CanRun(x, Init(message), visits[0].acts)
     && Stuck(After(x, Init(message), visits[0].acts))
     && Serves(disk, After(x, Init(message), visits[0].acts).message, visits[1..]))
  }

  /** How each client ended. */
  ghost function Outcomes(disk: map<string, string>, message: string, visits: seq<Visit>): seq<Client>
    requires Serves(disk, message, visits)
    decreases visits
  {
    if visits == [] then [] else
      var s := After(Session(visits[0].name, disk), Init(message), visits[0].acts);
      [s.client] + Outcomes(disk, s.message, visits[1..])
  }

  /** Whatever earlier connections left in the print buffer, every client of a server's
      life gets the file it named, or is refused when there is none. */
  lemma {:induction false} EveryVisitorIsServed(disk: map<string, string>, message: string, visits: seq<Visit>)
    requires |message| == 100 && Serves(disk, message, visits)
    requires forall v :: v in visits ==> Wellformed(Session(v.name, disk))
    ensures |Outcomes(disk, message, visits)| == |visits|
    ensures forall i :: 0 <= i < |visits| ==>
              Outcomes(disk, message, visits)[i]
                == if visits[i].name in disk then ClientDone(disk[visits[i].name]) else Refused
    decreases visits
  {
    if visits != [] {
      var x := Session(visits[0].name, disk);
      assert visits[0] in visits;
      var s := After(x, Init(message), visits[0].acts);
      TransferEnds(x, message, visits[0].acts);
      InvHoldsAtStart(x, message);
      InvHoldsAfter(x, Init(message), visits[0].acts);
      EveryVisitorIsServed(disk, s.message, visits[1..]);
    }
  }
}
