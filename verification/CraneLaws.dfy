/** What the client does, said without the functions that say how: numerals are those of the protocol. */
module CraneLaws {
  import opened MachineTypes
  import opened CraneMachine
  import opened CraneRuns

  // ----- Starting a connection -----

  /** A connection is opened by one packet, the SYN: type 1, number 0, no challenge. Its flags are SYN, and TEST
      for a test. Opening does nothing unless the client is disconnected; the test always starts anew. */
  lemma {:induction false} StartsWithSyn(m: Machine, id: uint8)
    requires m.task == Prompt
    ensures Enabled(m, Open(id)) && Enabled(m, Test(id))
    ensures m.c.conn != Disconnected ==> Step(m, Open(id)) == m
    ensures m.c.conn == Disconnected ==>
      var n := Step(m, Open(id));
      && n.c == m.c.(crane := id, conn := Handshake, next := 0) && n.task == Prompt
      && n.past == m.past + m.wire && n.wire == [Send(id, Packet(1, 1, 0, 0))] && n.acked == [] && n.pending == None
    ensures var n := Step(m, Test(id));
      && n.c == m.c.(crane := id, conn := Handshake, next := 0) && n.task == Greeting(0) && n.delays == 0
      && n.past == m.past + m.wire && n.wire == [Send(id, Packet(1, 9, 0, 0))] && n.acked == [] && n.pending == None
      && n.report == [] && n.begun == m.clock
  {
  }

  // ----- The handshake -----

  /** A CONNECT with both SYN and ACK. */
  predicate Welcome(p: Packet) {
    p.kind == 1 && p.flags % 2 == 1 && p.flags / 2 % 2 == 1
  }

  /** The reply to challenge and flags of `p`: a CONNECT with number 0 and ACK set, SYN and NAK clear, TEST as in
      `p`, nothing else, and every bit of the challenge flipped. */
  predicate Replies(q: Packet, p: Packet) {
    && q.kind == 1 && q.number == 0
    && q.flags == (if p.flags / 8 % 2 == 1 then 10 else 2)
    && q.data + p.data == 0xFFFF_FFFF
  }

  /** Numbers that add up to 2^n - 1 differ in every bit. */
  lemma {:induction false} ComplementFlipsBits(a: nat, b: nat, n: nat, k: nat)
    requires a + b == Pow2(n) - 1 && k < n
    ensures BitAt(a, k) != BitAt(b, k)
  {
    assert Pow2(n) == 2 * Pow2(n - 1);
    hide *;
    HalvesComplement(a, b, Pow2(n - 1));
    if k == 0 {
      BitAbove(a, 0); BitAbove(b, 0);
    } else {
      ComplementFlipsBits(a / 2, b / 2, n - 1, k - 1);
      BitAbove(a, k - 1); BitAbove(b, k - 1);
    }
  }

  lemma {:induction false} HalvesComplement(a: nat, b: nat, p: nat)
    requires a + b == 2 * p - 1
    ensures a / 2 + b / 2 == p - 1 && a % 2 != b % 2
  {
  }

  /** Packets connect the client exactly if it is in a handshake and they are a CONNECT with SYN and ACK; then it
      sends exactly one packet, the reply, to its crane, and expects to use number 1. No other packet makes
      it send anything. */
  lemma {:induction false} ConnectsExactly(m: Machine, p: Packet)
    ensures var n := Step(m, Deliver(p));
            if m.c.conn == Handshake && Welcome(p) then
              && n.c == m.c.(conn := Connected, next := 1)
              && |n.wire| == |m.wire| + 1 && n.wire[..|m.wire|] == m.wire
              && n.wire[|m.wire|].to == m.c.crane && Replies(n.wire[|m.wire|].packet, p)
            else n.wire == m.wire && (n.c.conn == Connected ==> m.c.conn == Connected)
  {
  }

  /** Nothing but a packet connects. */
  lemma {:induction false} OnlyPacketsConnect(m: Machine, e: Event)
    requires Enabled(m, e) && !e.Deliver? && Step(m, e).c.conn == Connected
    ensures m.c.conn == Connected && m.wire <= Step(m, e).wire
  {
    if e.Resume? {
      ResumeGoes(m, e.waited);
      BlockConnectsNot(Noted(m, e.waited));
      hide Step; hide Go;
    }
  }

  lemma {:induction false} BlockConnectsNot(m: Machine)
    ensures Go(m).c.conn == Connected ==> m.c.conn == Connected
    ensures m.wire <= Go(m).wire
  {
  }

  /** In the packets of this connection, with the SYN at the front, entry `j` replies to arrival `k`. */
  ghost predicate Introduced(run: seq<Event>, k: int, j: int) {
    && 0 <= k < |run| && run[k].Deliver? && Welcome(run[k].packet)
    && var wire := Exec(run).wire;
       && 0 < j < |wire| && wire[0].packet.kind == 1 && wire[0].packet.flags in {1, 9}
       && wire[j].to == wire[0].to && Replies(wire[j].packet, run[k].packet)
  }

  ghost predicate HasReplied(run: seq<Event>) {
    exists k, j :: Introduced(run, k, j)
  }

  /** In a handshake nothing but the SYN was sent, by the user, or was sent before it. */
  ghost predicate Introducing(m: Machine) {
    m.c.conn == Handshake ==>
      m.wire != [] && m.wire[0].packet.kind == 1 && m.wire[0].packet.flags in {1, 9} && m.wire[0].to == m.c.crane
  }

  lemma {:induction false} IntroducingKept(m: Machine, e: Event)
    requires Enabled(m, e) && Introducing(m)
    ensures Introducing(Step(m, e))
  {
    if e.Resume? {
      ResumeGoes(m, e.waited);
      BlockKeepsHandshake(Noted(m, e.waited));
      hide Step; hide Go;
    }
  }

  lemma {:induction false} BlockKeepsHandshake(m: Machine)
    ensures Go(m).c.conn == Handshake ==> m.c.conn == Handshake && Go(m).c.crane == m.c.crane
    ensures m.wire <= Go(m).wire
  {
    BlockConnectsNot(m);
    match m.task
    case Drain(k, packet, attempt, best) =>
    case Ready(pos) =>
    case Hangup(why) =>
    case _ =>
  }

  /** In every run: a connected client has sent, in this connection, a SYN, and to the same node the reply to
      a CONNECT with SYN and ACK that it received. */
  lemma {:induction false} ConnectedHasReplied(run: seq<Event>)
    requires IsRun(run)
    ensures Introducing(Exec(run))
    ensures Exec(run).c.conn == Connected ==> HasReplied(run)
  {
    if run != [] {
      var n := |run| - 1;
      var m, e := Exec(run[..n]), run[n];
      ConnectedHasReplied(run[..n]);
      IntroducingKept(m, e);
      hide Exec; hide Reachable;
      if Step(m, e).c.conn == Connected {
        ReplyStands(run, m, e);
      }
    }
  }

  lemma {:induction false} ReplyStands(run: seq<Event>, m: Machine, e: Event)
    requires run != [] && IsRun(run) && m == Exec(run[..|run| - 1]) && e == run[|run| - 1]
    requires Introducing(m) && Step(m, e).c.conn == Connected
    requires m.c.conn == Connected ==> HasReplied(run[..|run| - 1])
    ensures HasReplied(run)
  {
    var n := |run| - 1;
    assert Exec(run) == Step(m, e);
    if e.Deliver? { ConnectsExactly(m, e.packet); } else { OnlyPacketsConnect(m, e); }
    hide Step; hide Exec; hide IsRun;
    if m.c.conn == Connected {
      var k, j :| Introduced(run[..n], k, j);
      assert m.wire <= Exec(run).wire;
      assert Introduced(run, k, j);
    } else {
      assert Introduced(run, n, |m.wire|);
    }
  }

  // ----- What packets change -----

  /** A STATUS that carries no NAK. */
  predicate Reports(p: Packet) {
    p.kind == 2 && p.flags / 4 % 2 == 0
  }

  /** A STATUS without NAK queues its number, if that is neither 0 nor 0xFFFF and fewer than eight are queued,
      and is remembered; a CLOSE disconnects and forgets crane and number; no other packet than these and
      the one that connects changes anything. Packets leave the command line task where it is. */
  lemma {:induction false} PacketsChange(m: Machine, p: Packet)
    ensures var n := Step(m, Deliver(p));
            && n.task == m.task && n.acked == m.acked && n.pending == m.pending && n.result == m.result && n.clock == m.clock
            && n.c.acks == (if Reports(p) && 1 <= p.number <= 0xFFFE && |m.c.acks| < 8 then m.c.acks + [p.number] else m.c.acks)
            && n.c.backlog == (if Reports(p) then p.data % 256 else m.c.backlog)
            && n.c.lastStatus == (if Reports(p) then p.number else m.c.lastStatus)
            && (p.kind == 4 ==> n.c == m.c.(next := 0, conn := Disconnected, crane := 0))
            && (p.kind != 4 && !(m.c.conn == Handshake && Welcome(p)) ==>
                  n.c.next == m.c.next && n.c.conn == m.c.conn && n.c.crane == m.c.crane)
  {
  }

  /** The last STATUS without NAK of a run. */
  ghost function LastReport(run: seq<Event>): Option<Packet> {
    if run == [] then None
    else if run[|run| - 1].Deliver? && Reports(run[|run| - 1].packet) then Some(run[|run| - 1].packet)
    else LastReport(run[..|run| - 1])
  }

  lemma {:induction false} BlockKeepsBacklog(m: Machine)
    ensures Go(m).c.backlog == m.c.backlog && Go(m).c.lastStatus == m.c.lastStatus
  {
  }

  lemma {:induction false} OthersKeepBacklog(m: Machine, e: Event)
    requires !e.Deliver?
    ensures Step(m, e).c.backlog == m.c.backlog && Step(m, e).c.lastStatus == m.c.lastStatus
  {
    if e.Resume? {
      ResumeGoes(m, e.waited);
      BlockKeepsBacklog(Noted(m, e.waited));
      hide Step; hide Go;
    }
  }

  /** The backlog is that of the last STATUS without NAK the client has handled, 0 if there was none. */
  lemma {:induction false} BacklogIsLastReported(run: seq<Event>)
    ensures var c := Exec(run).c;
            match LastReport(run)
            case None => c.backlog == 0 && c.lastStatus == 0
            case Some(p) => c.backlog == p.data % 256 && c.lastStatus == p.number
  {
    if run != [] {
      var n := |run| - 1;
      BacklogIsLastReported(run[..n]);
      var m := Exec(run[..n]);
      if run[n].Deliver? { PacketsChange(m, run[n].packet); } else { OthersKeepBacklog(m, run[n]); }
      hide Step; hide Reports;
    }
  }

  // ----- The begin of an action -----

  /** The action that an event calls, from the command line or the script, if any. */
  function Calls(m: Machine, e: Event): Option<uint8> {
    match e
    case Command(command) => Some(command)
    case Resume(_) =>
      if m.task.Ready? && m.task.pos < |SCRIPT| && SCRIPT[m.task.pos].Act? then Some(SCRIPT[m.task.pos].command) else None
    case _ => None
  }

  /** An action called while connected to a node other than 0 sends one packet, an ACTION with the client's
      number and the command, and waits for its first acknowledgement; called otherwise it sends nothing
      and returns -1, and a connection with node 0 is given up. */
  lemma {:induction false} ActionBegins(m: Machine, e: Event)
    requires Enabled(m, e) && Calls(m, e).Some?
    ensures var n, command := Step(m, e), Calls(m, e).value;
            if m.c.conn == Connected && m.c.crane != 0 then
              && n.c == m.c && n.wire == m.wire + [Send(m.c.crane, Packet(3, 0, m.c.next, command))]
              && n.task.Await? && n.task.packet == Packet(3, 0, m.c.next, command)
              && n.mark == |m.wire| && n.readings == [] && n.empties == 0 && n.pending == Some(command)
            else
              && n.c == m.c.(conn := if m.c.conn == Connected then Disconnected else m.c.conn)
              && n.wire == m.wire && n.result == -1 && !Acting(n.task) && n.acked == m.acked && n.pending == m.pending
  {
    if e.Resume? { ResumeGoes(m, e.waited); }
  }

  // ----- The reads of an action -----

  /** The receive loop of a read ends only when the queue is empty; then the read is noted, with its value and the
      client's number. Nothing else notes a read. */
  lemma {:induction false} ReadEndsOnEmptyQueue(m: Machine, e: Event)
    requires Enabled(m, e) && Acting(m.task)
    ensures var n := Step(m, e);
            var complete := e.Resume? && m.task.Drain? && m.c.acks == [];
            && n.readings == (if complete then m.readings + [Read(m.task.best, m.c.next)] else m.readings)
            && (m.task.Drain? && !complete ==> n.task.Drain?)
            && (m.task.Await? ==> n.task == m.task || n.task.Drain?)
  {
  }

  /** A read that decides: it found something, and no number below the client's. */
  predicate Decides(r: Read) {
    r.value != 0 && r.value >= r.number
  }

  /** The reads of an action under way: none decides, and each was made under the number of the action, or
      under 0 after the connection was gone. */
  ghost predicate Undecided(readings: seq<Read>, number: uint16) {
    forall r :: r in readings ==> !Decides(r) && (r.number == number || r.number == 0)
  }

  /** The reads of an action that has decided to return `code`. */
  ghost predicate Verdict(readings: seq<Read>, number: uint16, code: int) {
    && 1 <= |readings| <= 5
    && var last := readings[|readings| - 1];
       && Undecided(readings[..|readings| - 1], number) && (last.number == number || last.number == 0)
       && (code == 0 <==> last.value == last.number && last.number != 0)
       && (code == -2 <==> last.value > last.number)
       && (code == -1 <==> |readings| == 5 && !Decides(last))
       && (code == 0 || code == -1 || code == -2)
  }

  ghost predicate VerdictInv(m: Machine) {
    match m.task
    case Await(_, packet, attempt) => |m.readings| == attempt && Undecided(m.readings, packet.number)
    case Drain(_, packet, attempt, _) => |m.readings| == attempt && Undecided(m.readings, packet.number)
    case Hangup(AfterFailure(_, code)) =>
      code != 0 && m.mark < |m.wire| && Verdict(m.readings, m.wire[m.mark].packet.number, code)
    case _ => true
  }

  lemma {:induction false} OneMoreReading(readings: seq<Read>, r: Read, number: uint16)
    requires Undecided(readings, number) && (r.number == number || r.number == 0)
    ensures !Decides(r) ==> Undecided(readings + [r], number)
    ensures Decides(r) && |readings| < 5 ==> Verdict(readings + [r], number, if r.value == r.number then 0 else -2)
    ensures !Decides(r) && |readings| == 4 ==> Verdict(readings + [r], number, -1)
  {
    assert (readings + [r])[..|readings|] == readings;
  }

  /** The judgement on a read: `m` has noted it. */
  lemma {:induction false} JudgeKeepsVerdict(before: Machine, m: Machine, k: Caller, packet: Packet, attempt: nat, ack: uint16)
    requires ConnectionInv(before) && AccountInv(before) && VerdictInv(before)
    requires before.task == Drain(k, packet, attempt, ack) && m == before.(clock := m.clock, readings := before.readings + [Read(ack, before.c.next)])
    ensures var n := Judge(m, k, packet, attempt, ack);
            && VerdictInv(n)
            && (!Acting(n.task) ==> n.wire == m.wire && Verdict(n.readings, m.wire[m.mark].packet.number, n.result) && n.result == 0)
  {
    var r := Read(ack, before.c.next);
    OneMoreReading(before.readings, r, packet.number);
    assert m.wire[m.mark].packet == packet;
    hide Verdict; hide Undecided;
  }

  lemma {:induction false} BlockKeepsVerdict(m: Machine)
    requires ConnectionInv(m) && AccountInv(m) && VerdictInv(m) && !(m.task.Drain? && m.c.acks == [])
    ensures VerdictInv(Go(m))
    ensures m.task.Hangup? && m.task.why.AfterFailure? ==>
      && Go(m).wire == m.wire && Go(m).readings == m.readings && Go(m).mark == m.mark && Go(m).result == m.task.why.code
  {
    assert Undecided([], 0);
    match m.task
    case Ready(pos) => if pos < |SCRIPT| && SCRIPT[pos].Act? { BeginKeepsVerdict(m, Script(pos), SCRIPT[pos].command); }
    case Await(k, packet, attempt) =>
    case Drain(k, packet, attempt, best) =>
    case Hangup(why) =>
    case _ =>
  }

  lemma {:induction false} BeginKeepsVerdict(m: Machine, k: Caller, command: uint8)
    ensures VerdictInv(m) && !Acting(m.task) ==> VerdictInv(Begin(m, k, command))
  {
  }

  lemma {:induction false} DeliverKeepsVerdict(m: Machine, p: Packet)
    requires VerdictInv(m)
    ensures VerdictInv(Step(m, Deliver(p)))
  {
    PacketsChange(m, p);
    ConnectsExactly(m, p);
    var n := Step(m, Deliver(p));
    assert n.readings == m.readings && n.mark == m.mark;
    assert m.wire <= n.wire;
    hide Step; hide Verdict; hide Undecided;
  }

  lemma {:induction false} UserKeepsVerdict(m: Machine, e: Event)
    requires Enabled(m, e) && !e.Deliver? && !e.Resume?
    ensures VerdictInv(Step(m, e))
  {
    if e.Command? { BeginKeepsVerdict(m, Cli, e.command); }
    hide Verdict;
  }

  lemma {:induction false} NotedKeepsVerdict(m: Machine, w: nat)
    requires ConnectionInv(m) && AccountInv(m) && VerdictInv(m) && !(m.task.Drain? && m.c.acks == [])
    ensures var n := Noted(m, w); ConnectionInv(n) && AccountInv(n) && VerdictInv(n)
  {
  }

  lemma {:induction false} ResumeKeepsVerdict(m: Machine, w: nat)
    requires ConnectionInv(m) && AccountInv(m) && VerdictInv(m)
    ensures VerdictInv(Step(m, Resume(w)))
    ensures ReturnsAfterSending(m, Resume(w)) ==>
      var n := Step(m, Resume(w));
      n.mark < |n.wire| && Verdict(n.readings, n.wire[n.mark].packet.number, n.result)
  {
    ResumeGoes(m, w);
    var h := Noted(m, w);
    hide Step; hide Verdict; hide Undecided;
    if m.task.Drain? && m.c.acks == [] {
      JudgeKeepsVerdict(m, h, m.task.caller, m.task.packet, m.task.attempt, m.task.best);
      JudgeMarks(h, m.task.caller, m.task.packet, m.task.attempt, m.task.best);
    } else {
      NotedKeepsVerdict(m, w);
      BlockKeepsVerdict(h);
      WaitsOn(h);
      hide Go;
    }
  }

  lemma {:induction false} JudgeMarks(m: Machine, k: Caller, packet: Packet, attempt: nat, ack: uint16)
    requires m.task == Drain(k, packet, attempt, ack) && m.c.acks == [] && m.mark < |m.wire|
    ensures Go(m) == Judge(m, k, packet, attempt, ack)
    ensures Judge(m, k, packet, attempt, ack).mark == m.mark
  {
  }

  /** A block of an action that neither judges a read nor ends a disconnect does not return. */
  lemma {:induction false} WaitsOn(m: Machine)
    requires m.task.Await? || (m.task.Drain? && m.c.acks != []) || !Waiting(m.task)
    ensures Waiting(m.task) ==> Acting(Go(m).task)
  {
  }

  lemma {:induction false} VerdictKept(m: Machine, e: Event)
    requires ConnectionInv(m) && AccountInv(m) && VerdictInv(m) && Enabled(m, e)
    ensures VerdictInv(Step(m, e))
  {
    hide *;
    match e
    case Deliver(p) => DeliverKeepsVerdict(m, p);
    case Resume(w) => ResumeKeepsVerdict(m, w);
    case _ => UserKeepsVerdict(m, e);
  }

  lemma {:induction false} VerdictHolds(run: seq<Event>)
    requires IsRun(run)
    ensures VerdictInv(Exec(run))
  {
    if run != [] {
      var n := |run| - 1;
      InvHolds(run[..n]);
      VerdictHolds(run[..n]);
      VerdictKept(Exec(run[..n]), run[n]);
      hide Step; hide VerdictInv; hide NamingInv;
    }
  }

  /** An action that began by sending returns 0 exactly if its last read is the client's number while
      connected, -2 exactly if its last read is above the client's number (0 once the connection is gone), and -1
      exactly after five reads of which the last does not decide either; it makes at most five reads, and
      none before the last decides. */
  lemma {:induction false} ReturnCodes(m: Machine, e: Event)
    requires Reachable(m) && Enabled(m, e)
    ensures ReturnsAfterSending(m, e) ==>
      var n := Step(m, e);
      n.mark < |n.wire| && Verdict(n.readings, n.wire[n.mark].packet.number, n.result)
  {
    var run :| IsRun(run) && Exec(run) == m;
    VerdictHolds(run);
    ReachableInv(m);
    if e.Resume? {
      ResumeKeepsVerdict(m, e.waited);
    } else if e.Deliver? {
      PacketsChange(m, e.packet);
    }
    hide Step; hide Verdict; hide VerdictInv; hide ConnectionInv; hide AccountInv; hide NamingInv; hide Exec;
  }

  // ----- Disconnecting -----

  /** Closing from the prompt sends one CLOSE, with the client's number, to its crane, connected or not; when the delay
      of any disconnect is over the client is disconnected, with number 0, whatever arrived meanwhile. */
  lemma {:induction false} Disconnects(m: Machine, e: Event)
    requires Enabled(m, e)
    ensures e.Close? ==> var n := Step(m, e);
      n.c == m.c && n.wire == m.wire + [Send(m.c.crane, Packet(4, 0, m.c.next, 0))] && n.task == Hangup(ByUser)
    ensures e.Resume? && m.task.Hangup? ==> var n := Step(m, e);
      n.c == m.c.(conn := Disconnected, next := 0) && n.wire == m.wire && !n.task.Hangup?
    ensures e.Resume? && !m.task.Hangup? && Step(m, e).task.Hangup? ==> var n := Step(m, e);
      n.wire != [] && n.wire[|n.wire| - 1] == Send(m.c.crane, Packet(4, 0, m.c.next, 0)) && n.c == m.c
  {
    if e.Resume? { ResumeGoes(m, e.waited); }
  }

  // ----- Waiting loops -----

  /** The delays of a wait are counted: those of the handshake up to 30, those of a pause up to 100. */
  ghost predicate DelayInv(m: Machine) {
    && (m.task.Greeting? ==> m.delays == m.task.i < 30)
    && (m.task.Settle? ==> m.delays == m.task.i < 100 && m.task.pos < |SCRIPT| && SCRIPT[m.task.pos] == Pause)
  }

  lemma {:induction false} DelayKept(m: Machine, e: Event)
    requires DelayInv(m) && Enabled(m, e)
    ensures DelayInv(Step(m, e))
  {
    if e.Resume? {
      ResumeGoes(m, e.waited);
      BlockCountsDelays(Noted(m, e.waited));
      hide Step; hide Go;
    }
  }

  /** `m` has counted the delay that is over. */
  lemma {:induction false} BlockCountsDelays(m: Machine)
    requires m.task.Greeting? ==> m.delays == m.task.i + 1 <= 30
    requires m.task.Settle? ==> m.delays == m.task.i + 1 <= 100 && m.task.pos < |SCRIPT| && SCRIPT[m.task.pos] == Pause
    requires m.task.Ready? ==> m.delays == 0
    ensures DelayInv(Go(m))
  {
  }

  lemma {:induction false} DelayHolds(run: seq<Event>)
    requires IsRun(run)
    ensures DelayInv(Exec(run))
  {
    if run != [] {
      var n := |run| - 1;
      DelayHolds(run[..n]);
      DelayKept(Exec(run[..n]), run[n]);
      hide Step; hide DelayInv;
    }
  }

  /** The client is in, or comes to, the pause at item `pos` of the script. */
  predicate Pausing(m: Machine, pos: nat) {
    pos < |SCRIPT| && SCRIPT[pos] == Pause && (m.task == Ready(pos) || (m.task.Settle? && m.task.pos == pos))
  }

  /** A pause goes on to the next item exactly when the backlog is 0 or 100 delays have passed in this pause;
      otherwise it goes into one more delay. It does nothing else. */
  lemma {:induction false} PauseExactly(m: Machine, waited: nat, pos: nat)
    requires Reachable(m) && Enabled(m, Resume(waited)) && Pausing(m, pos)
    ensures var n := Step(m, Resume(waited));
            && n.delays == (if m.task.Settle? then m.delays + 1 else 0)
            && (m.c.backlog == 0 || n.delays == 100 <==> n.task == Ready(pos + 1))
            && (m.c.backlog != 0 && n.delays < 100 <==> n.task.Settle? && n.task.pos == pos)
            && n.delays <= 100
            && n.c == m.c && n.wire == m.wire
  {
    var run :| IsRun(run) && Exec(run) == m;
    DelayHolds(run);
    ResumeGoes(m, waited);
  }

  /** After each delay of the handshake of a test, the script begins exactly if the client is connected by then, the
      test gives up exactly if it is not and 30 delays have passed, and otherwise one more delay follows. */
  lemma {:induction false} HandshakeWaitExactly(m: Machine, waited: nat)
    requires Reachable(m) && Enabled(m, Resume(waited)) && m.task.Greeting?
    ensures var n := Step(m, Resume(waited));
            && n.delays == m.delays + 1 <= 30
            && (m.c.conn == Connected <==> n.task == Ready(0))
            && (m.c.conn != Connected && n.delays == 30 <==> n.task == Prompt)
            && (m.c.conn != Connected && n.delays < 30 <==> n.task.Greeting?)
            && n.c == m.c && n.wire == m.wire
  {
    var run :| IsRun(run) && Exec(run) == m;
    DelayHolds(run);
    ResumeGoes(m, waited);
  }

  // ----- The script -----

  /** The script: light on, forward twice, back, pause, down twice, pause, up twice, back, light off, pause. */
  lemma {:induction false} ScriptIs()
    ensures SCRIPT == [Act(6), Act(2), Act(2), Act(3), Pause, Act(5), Act(5), Pause, Act(4), Act(4), Act(3), Act(7), Pause]
  {
  }

  /** The item of the script the client is at, or whose action is under way. */
  function Item(m: Machine): Option<nat> {
    match m.task
    case Ready(pos) => Some(pos)
    case Await(Script(pos), _, _) => Some(pos)
    case Drain(Script(pos), _, _, _) => Some(pos)
    case Hangup(AfterFailure(Script(pos), _)) => Some(pos)
    case _ => None
  }

  predicate Returned(m: Machine, e: Event) {
    (Acting(m.task) || Calls(m, e).Some?) && !Acting(Step(m, e).task)
  }

  /** When an action of the script has returned, its code is reported and the test is at the next item; at
      the end of the script it disconnects. An action of the command line returns to the prompt. */
  lemma {:induction false} ScriptGoesOn(m: Machine, e: Event)
    requires Enabled(m, e)
    ensures e.Resume? && m.task.Ready? && m.task.pos >= 13 ==> Step(m, e).task == Hangup(ScriptDone)
    ensures Returned(m, e) && Item(m).Some? ==>
      Step(m, e).task == Ready(Item(m).value + 1) && Step(m, e).report == m.report + [Step(m, e).result]
    ensures Returned(m, e) && Item(m).None? ==> Step(m, e).task == Prompt && Step(m, e).report == m.report
  {
    if e.Resume? { ResumeGoes(m, e.waited); }
  }

  // ----- Blocking times -----

  /** The longest each block can last, in milliseconds; the rest of the program takes no time. */
  lemma {:induction false} BlockingTimes(m: Machine, waited: nat)
    ensures Enabled(m, Resume(waited)) <==>
      match m.task
      case Prompt => false
      case Await(_, _, _) => waited <= 5000
      case Hangup(_) => waited <= 500
      case Greeting(_) => waited <= 100
      case Settle(_, _) => waited <= 100
      case _ => waited == 0
    ensures Step(m, Resume(waited)).clock == m.clock + waited
  {
    ResumeGoes(m, waited);
  }
}
