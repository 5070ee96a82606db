/** `HandShake` and `SHandShake` as two processes that run at their own pace, joined by two byte channels. */
module HandshakeNetwork {
  import opened Bytes
  import opened HandshakeBlock
  import opened Handshake
  import opened HandshakeAgreement
  import DH = DiffieHellman

  /** Where a process stands: each `Await` is a blocking `ReadN`. */
  datatype ClientState =
    | CStart
    | CAwaitKind(hello: Block)
    | CAwaitBlock(hello: Block, kind: byte)
    | CAwaitSecond(hello: Block, kind: byte, a: Answer)
    | CEnd(outcome: Outcome)

  datatype ServerState =
    | SAwaitKind
    | SAwaitBlock(kind: byte)
    | SReplying(choice: ServerChoice, hello: Block, peer: Block)
    | SAwaitSecond(choice: ServerChoice, hello: Block, a: Answer)
    | SEnd(outcome: Outcome)

  /** The two processes and the bytes in flight: `up` from client to server, `down` the other way. */
  datatype Net = Net(client: ClientState, server: ServerState, up: Bytes, down: Bytes)

  const INITIAL := Net(CStart, SAwaitKind, [], [])

  /** The client's next step; None while it is blocked or has ended. */
  function ClientStep(q: Pairing, n: Net): Option<Net>
    requires q.s.Valid()
  {
    match n.client
    case CStart =>
      (match ClientHello(q.s, q.c)
       case None => Some(n.(client := CEnd(Failed)))
       case Some(h) => Some(n.(client := CAwaitKind(h), up := n.up + ([q.c.Type()] + h))))
    case CAwaitKind(h) =>
      if |n.down| < 1 then None else Some(n.(client := CAwaitBlock(h, n.down[0]), down := n.down[1..]))
    case CAwaitBlock(h, kind) =>
      if |n.down| < SIG_SIZE then None
      else
        var rest := n.(down := n.down[SIG_SIZE..]);
        (match ClientAnswer(q.s, q.c, h, kind, n.down[..SIG_SIZE])
         case None => Some(rest.(client := CEnd(Failed)))
         case Some(a) => Some(rest.(client := CAwaitSecond(h, kind, a), up := n.up + a.reply)))
    case CAwaitSecond(h, kind, a) =>
      if |n.down| < SIG_SIZE then None
      else Some(n.(client := CEnd(ClientFinish(q.s, q.c, h, kind, a, n.down[..SIG_SIZE])), down := n.down[SIG_SIZE..]))
    case CEnd(_) => None
  }

  function ServerStep(q: Pairing, n: Net): Option<Net>
    requires q.s.Valid()
  {
    match n.server
    case SAwaitKind =>
      if |n.up| < 1 then None else Some(n.(server := SAwaitBlock(n.up[0]), up := n.up[1..]))
    case SAwaitBlock(kind) =>
      if |n.up| < SIG_SIZE then None
      else
        var rest, peer := n.(up := n.up[SIG_SIZE..]), n.up[..SIG_SIZE];
        (match Choose(kind, peer)
         case None => Some(rest.(server := SEnd(Failed)))
         case Some(choice) =>
           match ServerHello(q.s, q.v, choice)
           case None => Some(rest.(server := SEnd(Failed)))
           case Some(h) => Some(rest.(server := SReplying(choice, h, peer), down := n.down + ([choice.kind] + h))))
    case SReplying(choice, h, peer) =>
      (match ServerAnswer(q.s, q.v, choice, h, peer)
       case None => Some(n.(server := SEnd(Failed)))
       case Some(a) => Some(n.(server := SAwaitSecond(choice, h, a), down := n.down + a.reply)))
    case SAwaitSecond(choice, h, a) =>
      if |n.up| < SIG_SIZE then None
      else Some(n.(server := SEnd(ServerFinish(q.s, choice, h, a, n.up[..SIG_SIZE])), up := n.up[SIG_SIZE..]))
    case SEnd(_) => None
  }

  ghost predicate Next(q: Pairing, n: Net, m: Net)
    requires q.s.Valid()
  {
    ClientStep(q, n) == Some(m) || ServerStep(q, n) == Some(m)
  }

  /** A run under some schedule: any process that is not blocked may take the next step. */
  ghost predicate IsRun(q: Pairing, run: seq<Net>)
    requires q.s.Valid()
  {
    && run != [] && run[0] == INITIAL
    && forall k, m :: 0 <= k && m == k + 1 < |run| ==> Next(q, run[k], run[m])
  }

  // ---------------------------------------------------------------- the script

  function ClientAt(q: Pairing, i: nat): ClientState
    requires q.s.Valid()
  {
    var answer := Answer(q.c.Signs(), ClientReply(q), ClientKeys(q));
    if i == 0 then CStart
    else if i == 1 then CAwaitKind(ClientBlock(q))
    else if i == 2 then CAwaitBlock(ClientBlock(q), Choice(q).kind)
    else if i == 3 then CAwaitSecond(ClientBlock(q), Choice(q).kind, answer)
    else CEnd(Succeeded(Advanced(ClientKeys(q))))
  }

  function ServerAt(q: Pairing, j: nat): ServerState
    requires q.s.Valid()
  {
    var answer := Answer(q.c.Signs(), ServerReply(q), ServerKeys(q));
    if j == 0 then SAwaitKind
    else if j == 1 then SAwaitBlock(q.c.Type())
    else if j == 2 then SReplying(Choice(q), ServerBlock(q), ClientBlock(q))
    else if j == 3 then SAwaitSecond(Choice(q), ServerBlock(q), answer)
    else SEnd(Succeeded(Advanced(ServerKeys(q))))
  }

  /** How much a process has sent and received after `i` steps. */
  function ClientSent(i: nat): nat { if i == 0 then 0 else if i <= 2 then 1 + SIG_SIZE else 1 + 2 * SIG_SIZE }

  function ClientReceived(i: nat): nat {
    if i <= 1 then 0 else if i == 2 then 1 else if i == 3 then 1 + SIG_SIZE else 1 + 2 * SIG_SIZE
  }

  function ServerSent(j: nat): nat { if j <= 1 then 0 else if j == 2 then 1 + SIG_SIZE else 1 + 2 * SIG_SIZE }

  function ServerReceived(j: nat): nat {
    if j == 0 then 0 else if j == 1 then 1 else if j <= 3 then 1 + SIG_SIZE else 1 + 2 * SIG_SIZE
  }

  /** Nobody has received more than was sent. */
  predicate Possible(i: nat, j: nat) {
    i <= 4 && j <= 4 && ServerReceived(j) <= ClientSent(i) && ClientReceived(i) <= ServerSent(j)
  }

  /** The state after `i` steps of the client and `j` of the server, in whatever order they were taken. */
  function At(q: Pairing, i: nat, j: nat): Net
    requires q.s.Valid() && Possible(i, j)
  {
    Net(ClientAt(q, i), ServerAt(q, j), ClientBytes(q)[ServerReceived(j)..ClientSent(i)],
        ServerBytes(q)[ClientReceived(i)..ServerSent(j)])
  }

  lemma StreamParts(q: Pairing)
    requires q.s.Valid()
    ensures var up := ClientBytes(q);
            && up[0] == q.c.Type() && up[1..1 + SIG_SIZE] == ClientBlock(q)
            && up[..1 + SIG_SIZE] == up[0..1 + SIG_SIZE] == [q.c.Type()] + ClientBlock(q)
            && up[1 + SIG_SIZE..1 + 2 * SIG_SIZE] == ClientReply(q)
    ensures var down := ServerBytes(q);
            && down[0] == Choice(q).kind && down[1..1 + SIG_SIZE] == ServerBlock(q)
            && down[..1 + SIG_SIZE] == down[0..1 + SIG_SIZE] == [Choice(q).kind] + ServerBlock(q)
            && down[1 + SIG_SIZE..1 + 2 * SIG_SIZE] == ServerReply(q)
  {
    hide ClientBlock, ServerBlock, ClientReply, ServerReply, Choice;
  }

  /** Taking bytes off the front of a channel, and adding bytes at its end. */
  lemma Receive(s: Bytes, from: nat, to: nat, sent: nat)
    requires from <= to <= sent <= |s|
    ensures s[from..sent][..to - from] == s[from..to]
    ensures s[from..sent][to - from..] == s[to..sent]
  {
  }

  lemma Send(s: Bytes, received: nat, from: nat, to: nat)
    requires received <= from <= to <= |s|
    ensures s[received..from] + s[from..to] == s[received..to]
  {
  }

  lemma ClientStarts(q: Pairing, j: nat)
    requires q.Valid() && Possible(0, j)
    ensures ClientStep(q, At(q, 0, j)) == if Possible(1, j) then Some(At(q, 1, j)) else None
  {
    hide ClientBlock, ServerBlock, ClientReply, ServerReply, ClientHello, ServerHello, ClientAnswer, ServerAnswer,
      ClientFinish, ServerFinish, Choose, Choice, ClientKeys, ServerKeys, Advanced, ClientBytes, ServerBytes, ServerAt;
    StreamParts(q);
    ClientOpens(q);
    if Possible(1, j) {
      Receive(ServerBytes(q), ClientReceived(0), ClientReceived(1), ServerSent(j));
      Send(ClientBytes(q), ServerReceived(j), ClientSent(0), ClientSent(1));
    }
  }

  lemma ClientReadsKind(q: Pairing, j: nat)
    requires q.Valid() && Possible(1, j)
    ensures ClientStep(q, At(q, 1, j)) == if Possible(2, j) then Some(At(q, 2, j)) else None
  {
    hide ClientBlock, ServerBlock, ClientReply, ServerReply, ClientHello, ServerHello, ClientAnswer, ServerAnswer,
      ClientFinish, ServerFinish, Choose, Choice, ClientKeys, ServerKeys, Advanced, ClientBytes, ServerBytes, ServerAt;
    StreamParts(q);
    if Possible(2, j) {
      Receive(ServerBytes(q), ClientReceived(1), ClientReceived(2), ServerSent(j));
      Send(ClientBytes(q), ServerReceived(j), ClientSent(1), ClientSent(2));
    }
  }

  lemma ClientReadsBlock(q: Pairing, j: nat)
    requires q.Valid() && Possible(2, j)
    ensures ClientStep(q, At(q, 2, j)) == if Possible(3, j) then Some(At(q, 3, j)) else None
  {
    hide ClientBlock, ServerBlock, ClientReply, ServerReply, ClientHello, ServerHello, ClientAnswer, ServerAnswer,
      ClientFinish, ServerFinish, Choose, Choice, ClientKeys, ServerKeys, Advanced, ClientBytes, ServerBytes, ServerAt;
    StreamParts(q);
    ClientAnswers(q);
    if Possible(3, j) {
      Receive(ServerBytes(q), ClientReceived(2), ClientReceived(3), ServerSent(j));
      Send(ClientBytes(q), ServerReceived(j), ClientSent(2), ClientSent(3));
    }
  }

  lemma ClientReadsSecond(q: Pairing, j: nat)
    requires q.Valid() && Possible(3, j)
    ensures ClientStep(q, At(q, 3, j)) == if Possible(4, j) then Some(At(q, 4, j)) else None
  {
    hide ClientBlock, ServerBlock, ClientReply, ServerReply, ClientHello, ServerHello, ClientAnswer, ServerAnswer,
      ClientFinish, ServerFinish, Choose, Choice, ClientKeys, ServerKeys, Advanced, ClientBytes, ServerBytes, ServerAt;
    StreamParts(q);
    BothFinish(q);
    if Possible(4, j) {
      Receive(ServerBytes(q), ClientReceived(3), ClientReceived(4), ServerSent(j));
      Send(ClientBytes(q), ServerReceived(j), ClientSent(3), ClientSent(4));
    }
  }

  lemma ClientHasEnded(q: Pairing, j: nat)
    requires q.Valid() && Possible(4, j)
    ensures ClientStep(q, At(q, 4, j)) == None
  {
    hide ClientBytes, ServerBytes, ServerAt;
  }

  lemma ServerHasEnded(q: Pairing, i: nat)
    requires q.Valid() && Possible(i, 4)
    ensures ServerStep(q, At(q, i, 4)) == None
  {
    hide ClientBytes, ServerBytes, ClientAt;
  }

  /** The client can move exactly when the bytes it waits for have been sent, and it moves along the script. */
  lemma ClientMoves(q: Pairing, i: nat, j: nat)
    requires q.Valid() && Possible(i, j)
    ensures ClientStep(q, At(q, i, j)) ==
            if i < 4 && Possible(i + 1, j) then Some(At(q, i + 1, j)) else None
  {
    assert i <= 4 && j <= 4;
    hide ClientStep, At, Possible;
    if i == 0 {
      ClientStarts(q, j);
    } else if i == 1 {
      ClientReadsKind(q, j);
    } else if i == 2 {
      ClientReadsBlock(q, j);
    } else if i == 3 {
      ClientReadsSecond(q, j);
    } else {
      ClientHasEnded(q, j);
    }
  }

  lemma ServerReadsKind(q: Pairing, i: nat)
    requires q.Valid() && Possible(i, 0)
    ensures ServerStep(q, At(q, i, 0)) == if Possible(i, 1) then Some(At(q, i, 1)) else None
  {
    hide ClientBlock, ServerBlock, ClientReply, ServerReply, ClientHello, ServerHello, ClientAnswer, ServerAnswer,
      ClientFinish, ServerFinish, Choose, Choice, ClientKeys, ServerKeys, Advanced, ClientBytes, ServerBytes, ClientAt;
    StreamParts(q);
    if Possible(i, 1) {
      Receive(ClientBytes(q), ServerReceived(0), ServerReceived(1), ClientSent(i));
      Send(ServerBytes(q), ClientReceived(i), ServerSent(0), ServerSent(1));
    }
  }

  lemma ServerBlockArrives(q: Pairing, i: nat)
    requires q.s.Valid() && Possible(i, 1) && Possible(i, 2)
    ensures var n, m := At(q, i, 1), At(q, i, 2);
            && |n.up| >= SIG_SIZE && n.up[..SIG_SIZE] == ClientBlock(q) && n.up[SIG_SIZE..] == m.up
            && n.down + ([Choice(q).kind] + ServerBlock(q)) == m.down
  {
    hide ClientBlock, ServerBlock, Choice, ClientBytes, ServerBytes, ClientAt, ServerAt;
    StreamParts(q);
    Receive(ClientBytes(q), ServerReceived(1), ServerReceived(2), ClientSent(i));
    Send(ServerBytes(q), ClientReceived(i), ServerSent(1), ServerSent(2));
  }

  lemma ServerReadsBlock(q: Pairing, i: nat)
    requires q.Valid() && Possible(i, 1)
    ensures ServerStep(q, At(q, i, 1)) == if Possible(i, 2) then Some(At(q, i, 2)) else None
  {
    hide ClientBlock, ServerBlock, ClientReply, ServerReply, ClientHello, ServerHello, ClientAnswer, ServerAnswer,
      ClientFinish, ServerFinish, Choose, Choice, ClientKeys, ServerKeys, Advanced, ClientBytes, ServerBytes, ClientAt;
    ClientOpens(q);
    ServerOpens(q);
    if Possible(i, 2) {
      ServerBlockArrives(q, i);
    }
  }

  lemma ServerReplies(q: Pairing, i: nat)
    requires q.Valid() && Possible(i, 2)
    ensures ServerStep(q, At(q, i, 2)) == if Possible(i, 3) then Some(At(q, i, 3)) else None
  {
    hide ClientBlock, ServerBlock, ClientReply, ServerReply, ClientHello, ServerHello, ClientAnswer, ServerAnswer,
      ClientFinish, ServerFinish, Choose, Choice, ClientKeys, ServerKeys, Advanced, ClientBytes, ServerBytes, ClientAt;
    StreamParts(q);
    ServerAnswers(q);
    if Possible(i, 3) {
      Receive(ClientBytes(q), ServerReceived(2), ServerReceived(3), ClientSent(i));
      Send(ServerBytes(q), ClientReceived(i), ServerSent(2), ServerSent(3));
    }
  }

  lemma ServerReadsSecond(q: Pairing, i: nat)
    requires q.Valid() && Possible(i, 3)
    ensures ServerStep(q, At(q, i, 3)) == if Possible(i, 4) then Some(At(q, i, 4)) else None
  {
    hide ClientBlock, ServerBlock, ClientReply, ServerReply, ClientHello, ServerHello, ClientAnswer, ServerAnswer,
      ClientFinish, ServerFinish, Choose, Choice, ClientKeys, ServerKeys, Advanced, ClientBytes, ServerBytes, ClientAt;
    StreamParts(q);
    BothFinish(q);
    if Possible(i, 4) {
      Receive(ClientBytes(q), ServerReceived(3), ServerReceived(4), ClientSent(i));
      Send(ServerBytes(q), ClientReceived(i), ServerSent(3), ServerSent(4));
    }
  }

  /** The same for the server. */
  lemma ServerMoves(q: Pairing, i: nat, j: nat)
    requires q.Valid() && Possible(i, j)
    ensures ServerStep(q, At(q, i, j)) ==
            if j < 4 && Possible(i, j + 1) then Some(At(q, i, j + 1)) else None
  {
    assert i <= 4 && j <= 4;
    hide ServerStep, At, Possible;
    if j == 0 {
      ServerReadsKind(q, i);
    } else if j == 1 {
      ServerReadsBlock(q, i);
    } else if j == 2 {
      ServerReplies(q, i);
    } else if j == 3 {
      ServerReadsSecond(q, i);
    } else {
      ServerHasEnded(q, i);
    }
  }

  // ---------------------------------------------------------------- all runs

  /** Whoever takes the next step, the script knows where it leads. */
  lemma StepFollowsScript(q: Pairing, i: nat, j: nat, m: Net)
    requires q.Valid() && Possible(i, j) && Next(q, At(q, i, j), m)
    ensures (Possible(i + 1, j) && m == At(q, i + 1, j)) || (Possible(i, j + 1) && m == At(q, i, j + 1))
  {
    hide ClientStep, ServerStep, At, Possible;
    ClientMoves(q, i, j);
    ServerMoves(q, i, j);
  }

  lemma {:induction false} RunFollowsScript(q: Pairing, run: seq<Net>) returns (i: nat, j: nat)
    requires q.Valid() && IsRun(q, run)
    ensures Possible(i, j) && i + j == |run| - 1
    ensures run[|run| - 1] == At(q, i, j)
  {
    hide Next, At, Possible, Suite.Valid, DH.GoodPrime;
    if |run| == 1 {
      i, j := 0, 0;
      AtStart(q);
    } else {
      var init, m := run[..|run| - 1], run[|run| - 1];
      i, j := RunFollowsScript(q, init);
      assert Next(q, init[|init| - 1], m);
      StepFollowsScript(q, i, j, m);
      if Possible(i + 1, j) && m == At(q, i + 1, j) {
        i := i + 1;
      } else {
        j := j + 1;
      }
    }
  }

  lemma AtStart(q: Pairing)
    requires q.Valid()
    ensures Possible(0, 0) && At(q, 0, 0) == INITIAL
  {
  }

  /** In every state of every run, neither side has failed; a run has at most eight steps; and a run that cannot go on
      has ended with both sides returning TRUE, nothing left in the channels, and crossed, equal session streams. */
  lemma EveryRunSucceeds(q: Pairing, run: seq<Net>)
    requires q.Valid() && IsRun(q, run)
    ensures |run| <= 9
    ensures var n := run[|run| - 1];
            && n.client != CEnd(Failed) && n.server != SEnd(Failed)
            && (ClientStep(q, n) == None && ServerStep(q, n) == None ==>
                  && n.client.CEnd? && n.client.outcome.Succeeded?
                  && n.server.SEnd? && n.server.outcome.Succeeded?
                  && n.up == [] && n.down == []
                  && Crossed(n.client.outcome.keys, n.server.outcome.keys, q.c.encrypted))
  {
    hide ClientStep, ServerStep, ClientKeys, ServerKeys, ClientBytes, ServerBytes, ClientBlock, ServerBlock, Crossed,
      Advanced;
    var i, j := RunFollowsScript(q, run);
    ClientMoves(q, i, j);
    ServerMoves(q, i, j);
    ScriptKeysCross(q);
  }

  // ------------------------------------------------- the processes and the code

  /** The client alone, for at most `steps` steps, until it is blocked. */
  function ClientAlone(q: Pairing, n: Net, steps: nat): Net
    requires q.s.Valid()
    decreases steps
  {
    if steps == 0 then n
    else match ClientStep(q, n)
      case None => n
      case Some(m) => ClientAlone(q, m, steps - 1)
  }

  function ServerAlone(q: Pairing, n: Net, steps: nat): Net
    requires q.s.Valid()
    decreases steps
  {
    if steps == 0 then n
    else match ServerStep(q, n)
      case None => n
      case Some(m) => ServerAlone(q, m, steps - 1)
  }

  /** How a process has ended agrees with a run: a process that still waits for bytes would fail at the end of the
      input. */
  predicate ClientAgrees(q: Pairing, n: Net, run: Run)
    requires q.s.Valid()
  {
    && n.up == run.written
    && (if n.client.CEnd? then n.client.outcome == run.outcome else ClientStep(q, n) == None && run.outcome == Failed)
  }

  predicate ServerAgrees(q: Pairing, n: Net, run: Run)
    requires q.s.Valid()
  {
    && n.down == run.written
    && (if n.server.SEnd? then n.server.outcome == run.outcome else ServerStep(q, n) == None && run.outcome == Failed)
  }

  /** The client process, once it has the server's first block, goes on as `ClientTurn` does. */
  lemma ClientTurnAlone(q: Pairing, n: Net, steps: nat)
    requires q.s.Valid() && n.client.CAwaitBlock? && |n.down| >= SIG_SIZE && steps >= 2
    ensures var turn := ClientTurn(q.s, q.c, n.client.hello, n.client.kind, n.down[..SIG_SIZE], n.down[SIG_SIZE..]);
            ClientAgrees(q, ClientAlone(q, n, steps), Run(n.up + turn.written, turn.outcome))
  {
    hide ClientAnswer, ClientFinish;
    var m := ClientStep(q, n).value;
    assert ClientAlone(q, n, steps) == ClientAlone(q, m, steps - 1);
    if m.client.CEnd? || |m.down| < SIG_SIZE {
      assert ClientStep(q, m) == None;
    } else {
      var end := ClientStep(q, m).value;
      assert ClientAlone(q, m, steps - 1) == ClientAlone(q, end, steps - 2);
      assert ClientStep(q, end) == None;
    }
  }

  /** Fed any bytes whatsoever, the client process writes and ends as `ClientRun`, and hence `HandShake`, does. */
  lemma ClientProcessIsRun(q: Pairing, server: ServerState, input: Bytes, steps: nat)
    requires q.s.Valid() && steps >= 4
    ensures ClientAgrees(q, ClientAlone(q, Net(CStart, server, [], input), steps), ClientRun(q.s, q.c, input))
  {
    hide ClientAnswer, ClientFinish, ClientHello, ClientTurn;
    var n := Net(CStart, server, [], input);
    var greeted := ClientStep(q, n).value;
    assert ClientAlone(q, n, steps) == ClientAlone(q, greeted, steps - 1);
    if greeted.client.CEnd? || input == [] {
      assert ClientStep(q, greeted) == None;
    } else {
      var told := ClientStep(q, greeted).value;
      assert ClientAlone(q, greeted, steps - 1) == ClientAlone(q, told, steps - 2);
      if |told.down| < SIG_SIZE {
        assert ClientStep(q, told) == None;
      } else {
        assert told.down[..SIG_SIZE] == input[1..1 + SIG_SIZE] && told.down[SIG_SIZE..] == input[1 + SIG_SIZE..];
        ClientTurnAlone(q, told, steps - 2);
      }
    }
  }

  /** The server process, once it has the client's first block, goes on as `ServerTurn` does. */
  lemma ServerTurnAlone(q: Pairing, n: Net, steps: nat)
    requires q.s.Valid() && n.server.SAwaitBlock? && |n.up| >= SIG_SIZE && n.down == [] && steps >= 3
    requires Choose(n.server.kind, n.up[..SIG_SIZE]).Some?
    ensures var choice := Choose(n.server.kind, n.up[..SIG_SIZE]).value;
            ServerAgrees(q, ServerAlone(q, n, steps), ServerTurn(q.s, q.v, choice, n.up[..SIG_SIZE], n.up[SIG_SIZE..]))
  {
    hide ServerAnswer, ServerFinish, ServerHello, Choose;
    var m := ServerStep(q, n).value;
    assert ServerAlone(q, n, steps) == ServerAlone(q, m, steps - 1);
    if m.server.SEnd? {
      assert ServerStep(q, m) == None;
    } else {
      var k := ServerStep(q, m).value;
      assert ServerAlone(q, m, steps - 1) == ServerAlone(q, k, steps - 2);
      if k.server.SEnd? || |k.up| < SIG_SIZE {
        assert ServerStep(q, k) == None;
      } else {
        var end := ServerStep(q, k).value;
        assert ServerAlone(q, k, steps - 2) == ServerAlone(q, end, steps - 3);
        assert ServerStep(q, end) == None;
      }
    }
  }

  /** The same for the server process and `ServerRun`, and hence `SHandShake`. */
  lemma ServerProcessIsRun(q: Pairing, client: ClientState, input: Bytes, steps: nat)
    requires q.s.Valid() && steps >= 4
    ensures ServerAgrees(q, ServerAlone(q, Net(client, SAwaitKind, input, []), steps), ServerRun(q.s, q.v, input))
  {
    hide ServerAnswer, ServerFinish, ServerHello, ServerTurn, Choose;
    var n := Net(client, SAwaitKind, input, []);
    if input == [] {
      assert ServerStep(q, n) == None;
    } else {
      var told := ServerStep(q, n).value;
      assert ServerAlone(q, n, steps) == ServerAlone(q, told, steps - 1);
      if |told.up| < SIG_SIZE {
        assert ServerStep(q, told) == None;
      } else {
        assert told.up[..SIG_SIZE] == input[1..1 + SIG_SIZE] && told.up[SIG_SIZE..] == input[1 + SIG_SIZE..];
        if Choose(told.server.kind, told.up[..SIG_SIZE]) == None {
          var end := ServerStep(q, told).value;
          assert ServerAlone(q, told, steps - 1) == ServerAlone(q, end, steps - 2);
          assert ServerStep(q, end) == None;
        } else {
          ServerTurnAlone(q, told, steps - 1);
        }
      }
    }
  }
}
