/** The two shapes of write loop in the programs.

    The accumulating one, `w += write(fd, buf + w, n - w)`, survives partial writes.
    The assigning one, `w = write(fd, buf + w, n - w)`, forgets its progress. */
module SendLoops {
  import opened Descriptors

  /** The accumulating loop: all bytes go out once and in order, however the writes are cut. */
  method SendAccumulating(sock: Sink, bytes: string)
    modifies sock`sent
    ensures sock.sent == old(sock.sent) + bytes
  {
    var w := 0;
    while w < |bytes|
      invariant 0 <= w <= |bytes|
      invariant sock.sent == old(sock.sent) + bytes[..w]
    {
      var n := sock.WriteSome(bytes[w..]);
      assert bytes[..w] + bytes[w..][..n] == bytes[..w + n];
      w := w + n;
    }
  }

  /** The assigning loop where writes are whole. */
  method SendAssigning(sock: Sink, bytes: string) returns (w: nat)
    modifies sock`sent
    ensures sock.sent == old(sock.sent) + bytes && w == |bytes|
  {
    w := 0;
    while w < |bytes|
      invariant w == 0 || w == |bytes|
      invariant sock.sent == old(sock.sent) + bytes[..w]
    {
      w := sock.WriteAll(bytes[w..]);
    }
  }

  // ----- the assigning loop where writes may be partial -----

  /** The loop variable when turn `i` is about to start. */
  function Before(ws: seq<nat>, i: nat): nat
    requires i <= |ws|
  {
    if i == 0 then 0 else ws[i - 1]
  }

  /** `ws` are the results of the first |ws| writes of the loop over `n` bytes: each turn
      was entered, and each write took between one byte and all it was given. */
  predicate AssigningRun(n: nat, ws: seq<nat>) {
    forall i :: 0 <= i < |ws| ==> Before(ws, i) < n && 1 <= ws[i] <= n - Before(ws, i)
  }

  lemma AssigningRunPrefix(n: nat, ws: seq<nat>)
    requires ws != [] && AssigningRun(n, ws)
    ensures AssigningRun(n, ws[..|ws| - 1])
  {
    var front := ws[..|ws| - 1];
    forall i | 0 <= i < |front|
      ensures Before(front, i) < n && 1 <= front[i] <= n - Before(front, i)
    {
      assert Before(front, i) == Before(ws, i) && front[i] == ws[i];
    }
  }

  lemma AssigningRunExtends(n: nat, ws: seq<nat>, k: nat)
    requires AssigningRun(n, ws) && Before(ws, |ws|) < n && 1 <= k <= n - Before(ws, |ws|)
    ensures AssigningRun(n, ws + [k])
  {
    var more := ws + [k];
    forall i | 0 <= i < |more|
      ensures Before(more, i) < n && 1 <= more[i] <= n - Before(more, i)
    {
      assert Before(more, i) == Before(ws, i);
    }
  }

  /** The bytes those writes put on the connection. */
  function Emitted(bytes: string, ws: seq<nat>): string
    requires AssigningRun(|bytes|, ws)
  {
    if ws == [] then ""
    else
      var from := Before(ws, |ws| - 1);
      AssigningRunPrefix(|bytes|, ws);
      Emitted(bytes, ws[..|ws| - 1]) + bytes[from..from + ws[|ws| - 1]]
  }

  predicate LoopEnds(n: nat, ws: seq<nat>) { Before(ws, |ws|) >= n }

  /** After a partial first write every later result stays short, so the guard stays true. */
  lemma PartialStaysPartial(n: nat, ws: seq<nat>, i: nat)
    requires AssigningRun(n, ws) && i < |ws| && ws[0] < n
    ensures 1 <= ws[i] < n
  {
    assert i > 0 ==> Before(ws, i) == ws[i - 1] && ws[i - 1] >= 1;
  }

  /** The loop ends exactly when the first write is whole, and then it has sent the bytes
      once; otherwise it can always take another turn and never ends. */
  lemma AssigningLoopEndsIffFirstWriteWhole(bytes: string, ws: seq<nat>)
    requires ws != [] && AssigningRun(|bytes|, ws)
    ensures LoopEnds(|bytes|, ws) <==> ws[0] == |bytes|
    ensures ws[0] == |bytes| ==> ws == [|bytes|] && Emitted(bytes, ws) == bytes
    ensures ws[0] < |bytes| ==>
              forall k :: 1 <= k <= |bytes| - ws[|ws| - 1] ==>
                AssigningRun(|bytes|, ws + [k]) && !LoopEnds(|bytes|, ws + [k])
  {
    var n := |bytes|;
    assert Before(ws, 0) == 0;
    if ws[0] == n {
      assert Before(ws, 1) == n;
      assert ws == [n];
      assert Emitted(bytes, ws[..0]) == "";
    } else {
      PartialStaysPartial(n, ws, |ws| - 1);
      forall k | 1 <= k <= n - ws[|ws| - 1]
        ensures AssigningRun(n, ws + [k]) && !LoopEnds(n, ws + [k])
      {
        AssigningRunExtends(n, ws, k);
      }
    }
  }

  /** A two-byte reply cut after its first byte: the loop sends the second byte for ever. */
  lemma {:induction false} CutReplyRepeats(turns: nat)
    ensures AssigningRun(2, seq(turns + 1, i => 1))
    ensures Emitted("Ok", seq(turns + 1, i => 1)) == "O" + seq(turns, i => 'k')
    ensures !LoopEnds(2, seq(turns + 1, i => 1))
  {
    var ws := seq(turns + 1, i => 1);
    if turns == 0 {
      assert Emitted("Ok", ws[..0]) == "";
      assert ws == [1];
      assert "Ok"[0..1] == "O";
    } else {
      CutReplyRepeats(turns - 1);
      assert ws[..turns] == seq(turns, i => 1);
      assert "Ok"[1..2] == "k";
      assert Before(ws, turns) == 1;
    }
  }
}
