/** Runs of the command session in which a command goes wrong: parts on which the two ends
    count differently, and a ten-digit size behind which an old digit is left. */
module CommandSessionFailures {
  import opened CText
  import opened Tokens
  import opened FileTransfer
  import opened CommandSession
  import opened CommandSessionProofs

  // ----- parts that go wrong -----

  lemma PlayFirst(x: Script, s: Link, m: Move, rest: seq<Move>)
    requires CanMove(x, s, m)
    ensures CanPlay(x, s, [m] + rest) <==> CanPlay(x, Moved(x, s, m), rest)
    ensures CanPlay(x, s, [m] + rest) ==> Played(x, s, [m] + rest) == Played(x, Moved(x, s, m), rest)
  {
    assert ([m] + rest)[1..] == rest;
  }

  /** The client's write of a part and the server's read of it. */
  lemma PartIsRead(x: Script, buf: string)
    requires Wellformed(x) && |x.commands| == 1 && x.commands[0].GetPart? && |buf| == 255
    ensures var c := x.commands[0];
            var s := Start(buf).(user := Receiving(0, Want(x.disk, c), ""), up := Print(c));
            && UserNext(x, Start(buf), 0) == s
            && s.up != "" && WorkerNext(x, s, 0, "") == s.(worker := SendBody(Body(x.disk, c)), up := "")
  {
    var c := x.commands[0];
    var s := Start(buf).(user := Receiving(0, Want(x.disk, c), ""), up := Print(c));
    assert "" + Print(c) == Print(c);
    assert UserNext(x, Start(buf), 0) == s;
    assert Print(c) != "" by { CommandArrives(c); }
    ReadCommandStep(x, s, 0, "");
    AssignedPart(x, 0);
  }

  /** From there on the two ends go by their own counts. */
  lemma PartIsTaken(x: Script, buf: string, rest: seq<Move>)
    requires Wellformed(x) && |x.commands| == 1 && x.commands[0].GetPart? && |buf| == 255
    ensures var c := x.commands[0];
            var s := Link(SendBody(Body(x.disk, c)), Receiving(0, Want(x.disk, c), ""), "", "", buf, []);
            var moves := [UserMove(0)] + ([WorkerMove(0, "")] + rest);
            CanPlay(x, s, rest) ==>
              CanPlay(x, Start(buf), moves) && Played(x, Start(buf), moves) == Played(x, s, rest)
  {
    PartIsRead(x, buf);
    var s := UserNext(x, Start(buf), 0);
    PlayFirst(x, Start(buf), UserMove(0), [WorkerMove(0, "")] + rest);
    PlayFirst(x, s, WorkerMove(0, ""), rest);
  }

  lemma OneDigit(n: nat)
    requires n < 10
    ensures var w := [DigitChar(n)]; Atoi(w) == n && Word(w)
  {
    AtoiInvertsDecimal(n, "");
    assert Decimal(n) + "" == [DigitChar(n)];
  }

  /** The script that asks for one part, between digits, of the file "f". */
  function PartScript(file: string, lo: nat, hi: nat): Script
    requires lo < 10 && hi < 10
  {
    Script(map["f" := file], [GetPart("f", [DigitChar(lo)], [DigitChar(hi)])])
  }

  lemma PartScriptIsWellformed(file: string, lo: nat, hi: nat)
    requires lo < 10 && hi < 10 && |file| < 10
    ensures var x := PartScript(file, lo, hi);
            var c := x.commands[0];
            && Wellformed(x) && Atoi(c.first) == lo && Atoi(c.last) == hi && Want(x.disk, c) == hi - lo
            && Body(x.disk, c) == Window(file, lo, hi)
  {
    var c := PartScript(file, lo, hi).commands[0];
    OneDigit(lo);
    OneDigit(hi);
    FourLines("GETFILEPART", "f", c.first, c.last);
    assert Words(c) == ["GETFILEPART", "f", c.first, c.last];
    assert Word("GETFILEPART") && Word("f");
  }

  lemma FiveMoves(a: Move, b: Move, c: Move, d: Move, e: Move)
    ensures [a] + ([b] + ([c] + ([d] + ([e] + [])))) == [a, b, c, d, e]
  {
  }

  /** The server sends "b" and returns to its commands; the client takes it. */
  lemma ShortOfThree(x: Script, buf: string, moves: seq<Move>)
    requires |x.commands| == 1 && |buf| == 255
    requires moves == [WorkerMove(1, "")] + ([WorkerMove(0, "")] + ([UserMove(1)] + []))
    ensures var s := Link(SendBody("b"), Receiving(0, 3, ""), "", "", buf, []);
            CanPlay(x, s, moves)
            && Played(x, s, moves) == Link(Idle, Receiving(0, 3, "b"), "", "", Overwrite(buf, "b"), [])
  {
    var s := Link(SendBody("b"), Receiving(0, 3, ""), "", "", buf, []);
    var s1 := s.(worker := SendBody(""), down := "b");
    assert "" + "b"[..1] == "b" && "b"[1..] == "";
    PlayFirst(x, s, WorkerMove(1, ""), [WorkerMove(0, "")] + ([UserMove(1)] + []));
    PlayFirst(x, s1, WorkerMove(0, ""), [UserMove(1)] + []);
    PlayFirst(x, s1.(worker := Idle), UserMove(1), []);
  }

  lemma StarvedHalts(x: Script, s: Link)
    requires s.worker.Idle? && s.up == s.down == "" && s.user.Receiving? && |s.user.saved| < s.user.total
    ensures Halted(x, s) && !Done(x, s)
  {
  }

  /** A script of one part of which the server has one byte and the client wants three. */
  lemma OneOfThreeHangs(x: Script, buf: string)
    requires Wellformed(x) && |x.commands| == 1 && x.commands[0].GetPart? && |buf| == 255
    requires Body(x.disk, x.commands[0]) == "b" && Want(x.disk, x.commands[0]) == 3
    ensures var moves := [UserMove(0), WorkerMove(0, ""), WorkerMove(1, ""), WorkerMove(0, ""), UserMove(1)];
            && CanPlay(x, Start(buf), moves)
            && Played(x, Start(buf), moves)
                 == Link(Idle, Receiving(0, 3, "b"), "", "", Overwrite(buf, "b"), [])
  {
    var rest := [WorkerMove(1, "")] + ([WorkerMove(0, "")] + ([UserMove(1)] + []));
    ShortOfThree(x, buf, rest);
    PartIsTaken(x, buf, rest);
    FiveMoves(UserMove(0), WorkerMove(0, ""), WorkerMove(1, ""), WorkerMove(0, ""), UserMove(1));
  }

  /** Asked for bytes 1 to 4 of the two-byte file "ab", the server sends one byte and goes
      back to its commands; the client waits for two more, for ever. */
  lemma PartBeyondTheEndHangs(buf: string)
    requires |buf| == 255
    ensures var x := PartScript("ab", 1, 4);
            var moves := [UserMove(0), WorkerMove(0, ""), WorkerMove(1, ""), WorkerMove(0, ""), UserMove(1)];
            && Wellformed(x) && CanPlay(x, Start(buf), moves)
            && var s := Played(x, Start(buf), moves);
               s == Link(Idle, Receiving(0, 3, "b"), "", "", Overwrite(buf, "b"), [])
               && Halted(x, s) && !Done(x, s)
  {
    var x := PartScript("ab", 1, 4);
    PartScriptIsWellformed("ab", 1, 4);
    assert Body(x.disk, x.commands[0]) == "b";
    OneOfThreeHangs(x, buf);
    StarvedHalts(x, Link(Idle, Receiving(0, 3, "b"), "", "", Overwrite(buf, "b"), []));
  }

  /** The server sends "bcd"; the client takes the two bytes it wants. */
  lemma TwoOfThree(x: Script, buf: string, moves: seq<Move>)
    requires |x.commands| == 1 && |buf| == 255
    requires moves == [WorkerMove(3, "")] + ([UserMove(2)] + ([UserMove(0)] + []))
    ensures var s := Link(SendBody("bcd"), Receiving(0, 2, ""), "", "", buf, []);
            CanPlay(x, s, moves)
            && Played(x, s, moves) == Link(SendBody(""), Prompt(1), "", "d", Overwrite(buf, "bc"), ["bc"])
  {
    var s := Link(SendBody("bcd"), Receiving(0, 2, ""), "", "", buf, []);
    var s1 := s.(worker := SendBody(""), down := "bcd");
    assert "" + "bcd"[..3] == "bcd" && "bcd"[3..] == "";
    PlayFirst(x, s, WorkerMove(3, ""), [UserMove(2)] + ([UserMove(0)] + []));
    assert "" + "bcd"[..2] == "bc" && "bcd"[2..] == "d";
    PlayFirst(x, s1, UserMove(2), [UserMove(0)] + []);
    var s2 := s1.(user := Receiving(0, 2, "bc"), down := "d", buf := Overwrite(buf, "bc"));
    PlayFirst(x, s2, UserMove(0), []);
  }

  /** A script of one part of which the server sends three bytes and the client wants two. */
  lemma ThirdByteIsLeft(x: Script, buf: string)
    requires Wellformed(x) && |x.commands| == 1 && x.commands[0].GetPart? && |buf| == 255
    requires Body(x.disk, x.commands[0]) == "bcd" && Want(x.disk, x.commands[0]) == 2
    ensures var moves := [UserMove(0), WorkerMove(0, ""), WorkerMove(3, ""), UserMove(2), UserMove(0)];
            && CanPlay(x, Start(buf), moves)
            && Played(x, Start(buf), moves)
                 == Link(SendBody(""), Prompt(1), "", "d", Overwrite(buf, "bc"), ["bc"])
  {
    var rest := [WorkerMove(3, "")] + ([UserMove(2)] + ([UserMove(0)] + []));
    TwoOfThree(x, buf, rest);
    PartIsTaken(x, buf, rest);
    FiveMoves(UserMove(0), WorkerMove(0, ""), WorkerMove(3, ""), UserMove(2), UserMove(0));
  }

  /** Asked for bytes 1 to 3 of "abcd", the server sends three bytes; the client can be back
      at its prompt with the two it wants while the third is on its way, into the reply to
      the next command. */
  lemma InnerPartLeavesAByte(buf: string)
    requires |buf| == 255
    ensures var x := PartScript("abcd", 1, 3);
            var moves := [UserMove(0), WorkerMove(0, ""), WorkerMove(3, ""), UserMove(2), UserMove(0)];
            && Wellformed(x) && !Agrees(x.disk, x.commands[0])
            && |Body(x.disk, x.commands[0])| == 3 && Want(x.disk, x.commands[0]) == 2
            && CanPlay(x, Start(buf), moves)
            && Played(x, Start(buf), moves)
                 == Link(SendBody(""), Prompt(1), "", "d", Overwrite(buf, "bc"), ["bc"])
  {
    var x := PartScript("abcd", 1, 3);
    PartScriptIsWellformed("abcd", 1, 3);
    assert Body(x.disk, x.commands[0]) == "bcd";
    ThirdByteIsLeft(x, buf);
  }

  // ----- an old digit behind a size -----

  lemma FourMoves(a: Move, b: Move, c: Move, d: Move, rest: seq<Move>)
    ensures [a] + ([b] + ([c] + ([d] + rest))) == [a, b, c, d] + rest
  {
  }

  /** The client's write of GETFILE and the server's read of it. */
  lemma FileIsAsked(x: Script, buf: string)
    requires Wellformed(x) && x.commands != [] && x.commands[0].GetFile? && |buf| == 255
    ensures var c := x.commands[0];
            var s := Start(buf).(user := AwaitField(0), up := Print(c));
            && UserNext(x, Start(buf), 0) == s && Inv(x, s)
            && s.up != "" && WorkerNext(x, s, 0, "") == s.(worker := SendField(x.disk[c.file]), up := "")
  {
    var c := x.commands[0];
    var s := Start(buf).(user := AwaitField(0), up := Print(c));
    assert "" + Print(c) == Print(c);
    assert Proper(x.disk, c);
    PromptKeepsInv(x, Start(buf), 0);
    assert UserNext(x, Start(buf), 0) == s;
    assert Print(c) != "" by { CommandArrives(c); }
    ReadCommandStep(x, s, 0, "");
  }

  /** The server's size field and the client's read of it. */
  lemma FieldIsPassed(x: Script, s: Link, file: string, junk: string)
    requires Wellformed(x) && Inv(x, s) && |x.commands| == 2 && s.user == AwaitField(0) && |junk| == 100
    requires x.commands[0].GetFile? && x.disk[x.commands[0].file] == file && Small(x.disk, x.commands[0])
    requires s.worker == SendField(file) && s.up == s.down == "" && WorkerEnabled(s, 0, junk)
    ensures var t := WorkerNext(x, s, 0, junk);
            var b := Overwrite(s.buf, SizeField(junk, |file|));
            && UserEnabled(x, t, 0)
            && UserNext(x, t, 0) == s.(worker := SendBody(file), user := Receiving(0, |file|, ""), buf := b)
  {
    var t := WorkerNext(x, s, 0, junk);
    var field := SizeField(junk, |file|);
    assert "" + field == field && Window(file, 0, 0) == file;
    WorkerKeepsInv(x, s, 0, junk);
    ReadFieldStep(x, t, 0);
    assert Take(field, 10) == field && Drop(field, 10) == "";
  }

  /** From the start to the first file's data. */
  lemma FirstFileBegins(x: Script, buf: string, file: string, junk: string, rest: seq<Move>)
    requires Wellformed(x) && |x.commands| == 2 && |buf| == 255 && |junk| == 100 && |file| < Pow10(9)
    requires x.commands[0].GetFile? && x.disk[x.commands[0].file] == file
    ensures |file| < Pow10(10)
    ensures var b := Overwrite(buf, SizeField(junk, |file|));
            var s := Link(SendBody(file), Receiving(0, |file|, ""), "", "", b, []);
            var moves := [UserMove(0), WorkerMove(0, ""), WorkerMove(0, junk), UserMove(0)] + rest;
            CanPlay(x, s, rest) ==>
              CanPlay(x, Start(buf), moves) && Played(x, Start(buf), moves) == Played(x, s, rest)
  {
    SizeFits(x.disk, x.commands[0]);
    FileIsAsked(x, buf);
    var s0 := Start(buf);
    var s1 := UserNext(x, s0, 0);
    ReadCommandKeepsInv(x, s1, 0, "");
    var s2 := WorkerNext(x, s1, 0, "");
    FieldIsPassed(x, s2, file, junk);
    var s3 := WorkerNext(x, s2, 0, junk);
    FourMoves(UserMove(0), WorkerMove(0, ""), WorkerMove(0, junk), UserMove(0), rest);
    PlayFirst(x, s0, UserMove(0), [WorkerMove(0, "")] + ([WorkerMove(0, junk)] + ([UserMove(0)] + rest)));
    PlayFirst(x, s1, WorkerMove(0, ""), [WorkerMove(0, junk)] + ([UserMove(0)] + rest));
    PlayFirst(x, s2, WorkerMove(0, junk), [UserMove(0)] + rest);
    PlayFirst(x, s3, UserMove(0), rest);
  }

  /** From a first file's data, sent and read in one piece, to the next file's command. */
  lemma SecondFileIsAsked(x: Script, buf: string, file: string)
    requires |x.commands| == 2 && x.commands[1].GetFile? && |buf| == 255 && 1 <= |file| <= 255
    ensures var s := Link(SendBody(file), Receiving(0, |file|, ""), "", "", buf, []);
            var moves := [WorkerMove(|file|, ""), UserMove(|file|), UserMove(0), UserMove(0)];
            && CanPlay(x, s, moves)
            && Played(x, s, moves)
                 == Link(SendBody(""), AwaitField(1), Print(x.commands[1]), "", Overwrite(buf, file), [file])
  {
    var n := |file|;
    var s := Link(SendBody(file), Receiving(0, n, ""), "", "", buf, []);
    var s1 := s.(worker := SendBody(""), down := file);
    var s2 := s1.(user := Receiving(0, n, file), down := "", buf := Overwrite(buf, file));
    var s3 := s2.(user := Prompt(1), results := [file]);
    var s4 := s3.(user := AwaitField(1), up := Print(x.commands[1]));
    assert "" + file == file == file[..n] && file[n..] == "" && "" + Print(x.commands[1]) == Print(x.commands[1]);
    assert [] + [file] == [file];
    FourMoves(WorkerMove(n, ""), UserMove(n), UserMove(0), UserMove(0), []);
    var moves := [WorkerMove(n, ""), UserMove(n), UserMove(0), UserMove(0)];
    assert moves + [] == moves;
    PlayFirst(x, s, WorkerMove(n, ""), [UserMove(n)] + ([UserMove(0)] + ([UserMove(0)] + [])));
    PlayFirst(x, s1, UserMove(n), [UserMove(0)] + ([UserMove(0)] + []));
    PlayFirst(x, s2, UserMove(0), [UserMove(0)] + []);
    PlayFirst(x, s3, UserMove(0), []);
    assert Moved(x, s, WorkerMove(n, "")) == s1;
    assert Moved(x, s1, UserMove(n)) == s2;
    assert Moved(x, s2, UserMove(0)) == s3;
    assert Moved(x, s3, UserMove(0)) == s4;
  }

  /** Two GETFILEs, the first of them for eleven bytes that end in a digit. */
  predicate DigitThenFile(x: Script) {
    && Wellformed(x) && |x.commands| == 2 && x.commands[0].GetFile? && x.commands[1].GetFile?
    && |x.disk[x.commands[0].file]| == 11 && IsDigit(x.disk[x.commands[0].file][10])
  }

  /** There are such scripts, for a second file of any size. */
  lemma DigitThenFileExists(second: string)
    requires |second| < INT_LIMIT
    ensures DigitThenFile(Script(map["a" := "00000000000", "b" := second], [GetFile("a"), GetFile("b")]))
  {
    PowersOfTen();
    TwoLines("GETFILE", "a");
    TwoLines("GETFILE", "b");
    assert Words(GetFile("a")) == ["GETFILE", "a"] && Words(GetFile("b")) == ["GETFILE", "b"];
    assert Word("GETFILE") && Word("a") && Word("b");
  }

  /** A run to the second command, in which the eleven bytes come in one read. */
  function OldDigitRun(): seq<Move> {
    [UserMove(0), WorkerMove(0, ""), WorkerMove(0, Zeros(100)), UserMove(0)]
    + [WorkerMove(11, ""), UserMove(11), UserMove(0), UserMove(0)]
  }

  lemma OldDigitStays(x: Script, buf: string, file: string)
    requires DigitThenFile(x) && |buf| == 255 && file == x.disk[x.commands[0].file]
    ensures 11 < Pow10(10) && CanPlay(x, Start(buf), OldDigitRun())
    ensures Played(x, Start(buf), OldDigitRun())
         == Link(SendBody(""), AwaitField(1), Print(x.commands[1]), "",
                 Overwrite(Overwrite(buf, SizeField(Zeros(100), 11)), file), [file])
  {
    var later := [WorkerMove(11, ""), UserMove(11), UserMove(0), UserMove(0)];
    PowersOfTen();
    SecondFileIsAsked(x, Overwrite(buf, SizeField(Zeros(100), 11)), file);
    FirstFileBegins(x, buf, file, Zeros(100), later);
  }

  /** That run leaves a digit in byte ten of the client's buffer, which was zeroed at the
      start. */
  lemma OldDigitIsLeft(x: Script, s: Link)
    requires DigitThenFile(x)
    ensures CanPlay(x, Start(Zeros(255)), OldDigitRun())
    ensures s == Played(x, Start(Zeros(255)), OldDigitRun()) ==>
              s.user == AwaitField(1) && Inv(x, s) && IsDigit(s.buf[10])
  {
    OldDigitStays(x, Zeros(255), x.disk[x.commands[0].file]);
    InvHoldsAfter(x, Start(Zeros(255)), OldDigitRun());
  }

  lemma OldDigitDecides(x: Script, s: Link, later: seq<Move>)
    requires DigitThenFile(x) && Inv(x, s) && s.user == AwaitField(1) && IsDigit(s.buf[10])
    ensures CanPlay(x, s, later) && Halted(x, Played(x, s, later)) ==>
              if |x.disk[x.commands[1].file]| < 1_000_000_000
              then Done(x, Played(x, s, later)) && Clean(x, Played(x, s, later), 2)
              else Played(x, s, later).user == Misread(1)
  {
    if CanPlay(x, s, later) && Halted(x, Played(x, s, later)) {
      PowersOfTen();
      FileArrivesIff(x, s, later);
      InvHoldsAfter(x, s, later);
    }
  }

  /** However that run goes on from its end `s` till it can go no further: a second file of
      10^9 bytes or more is misread, and any smaller one is saved. */
  lemma OldDigitSpoilsSize(x: Script, s: Link, later: seq<Move>)
    requires DigitThenFile(x)
    ensures CanPlay(x, Start(Zeros(255)), OldDigitRun())
    ensures s == Played(x, Start(Zeros(255)), OldDigitRun())
            && CanPlay(x, s, later) && Halted(x, Played(x, s, later)) ==>
              if |x.disk[x.commands[1].file]| < 1_000_000_000
              then Done(x, Played(x, s, later)) && Clean(x, Played(x, s, later), 2)
              else Played(x, s, later).user == Misread(1)
  {
    OldDigitIsLeft(x, s);
    if s == Played(x, Start(Zeros(255)), OldDigitRun()) {
      OldDigitDecides(x, s, later);
    }
  }
}
