/** The automated test: its results, the commands it gets acknowledged and the time it takes. */
module CraneTest {
  import opened MachineTypes
  import opened CraneMachine
  import opened CraneRuns

  /** The test is under way. */
  predicate InTest(t: Task) {
    t.Greeting? || Underway(t)
  }

  /** The commands of the script before item `pos`. */
  function Commands(pos: nat): seq<uint8>
    requires pos <= |SCRIPT|
  {
    if pos == 0 then []
    else match SCRIPT[pos - 1]
      case Act(command) => Commands(pos - 1) + [command]
      case Pause => Commands(pos - 1)
  }

  function Acts(pos: nat): nat
    requires pos <= |SCRIPT|
  {
    |Commands(pos)|
  }

  function Pauses(pos: nat): int
    requires pos <= |SCRIPT|
  {
    pos - Acts(pos)
  }

  lemma {:induction false} CommandsGrow(pos: nat, end: nat)
    requires pos <= end <= |SCRIPT|
    ensures Commands(pos) <= Commands(end) && Pauses(pos) <= Pauses(end)
  {
    if pos < end { CommandsGrow(pos, end - 1); }
  }

  lemma {:induction false} WholeScript()
    ensures |SCRIPT| == 13 && Acts(13) == 10 && Pauses(13) == 3
    ensures Commands(13) == [LIGHT_ON, FWD, FWD, REV, DOWN, DOWN, UP, UP, REV, LIGHT_OFF] == [6, 2, 2, 3, 5, 5, 4, 4, 3, 7]
  {
    assert Commands(4) == [LIGHT_ON, FWD, FWD, REV] by { assert Commands(2) == [LIGHT_ON, FWD]; }
    assert Commands(7) == [LIGHT_ON, FWD, FWD, REV, DOWN, DOWN] by { assert Commands(5) == Commands(4); }
    assert Commands(10) == [LIGHT_ON, FWD, FWD, REV, DOWN, DOWN, UP, UP] by { assert Commands(8) == Commands(7); }
    assert Commands(12) == [LIGHT_ON, FWD, FWD, REV, DOWN, DOWN, UP, UP, REV, LIGHT_OFF];
  }

  // ----- Results -----

  /** The return codes are `n` zeros followed only by nonzeros. */
  ghost predicate ZerosFirst(report: seq<int>, n: nat) {
    n <= |report| && forall i :: 0 <= i < |report| ==> (report[i] == 0 <==> i < n)
  }

  /** The script item the test is at. */
  function At(t: Task): nat
    requires InTest(t)
  {
    match t
    case Greeting(_) => 0
    case Ready(pos) => pos
    case Settle(pos, _) => pos
    case Await(Script(pos), _, _) => pos
    case Drain(Script(pos), _, _, _) => pos
    case Hangup(AfterFailure(Script(pos), _)) => pos
    case Hangup(_) => |SCRIPT|
  }

  ghost predicate ReportInv(m: Machine) {
    && (exists n :: ZerosFirst(m.report, n))
    && |m.report| <= 10
    && (InTest(m.task) ==>
          && At(m.task) <= |SCRIPT|
          && |m.report| == Acts(At(m.task))
          && ZerosFirst(m.report, |m.acked|)
          && m.acked <= Commands(At(m.task))
          && (m.c.conn == Connected || Acting(m.task) ==> |m.acked| == |m.report|)
          && (m.task.Greeting? ==> m.report == [])
          && (m.task.Settle? ==> At(m.task) < |SCRIPT| && SCRIPT[At(m.task)] == Pause)
          && (Acting(m.task) ==> At(m.task) < |SCRIPT| && SCRIPT[At(m.task)].Act?)
          && (Acting(m.task) ==> m.pending == Some(SCRIPT[At(m.task)].command))
          && (m.pending.Some? ==> m.acked + [m.pending.value] <= Commands(|SCRIPT|)))
  }

  // ----- Time -----

  /** What the items from `pos` on can take: every action up to five reads, and 500 ms for one that fails,
      if the client is connected; every pause ten seconds; and the final disconnect. */
  function Rest(pos: nat, connected: bool): int
    requires pos <= |SCRIPT|
  {
    (if connected then 25000 * (10 - Acts(pos)) + CLOSE_MS else 0) + 10000 * (3 - Pauses(pos)) + CLOSE_MS
  }

  function Budget(t: Task, connected: bool): int
    requires InTest(t) && At(t) < |SCRIPT| + (if Acting(t) || t.Settle? then 0 else 1)
  {
    match t
    case Greeting(i) => (GREETINGS - i) * TICK_MS + Rest(0, true)
    case Ready(pos) => Rest(pos, connected)
    case Settle(pos, i) => (SETTLES - i) * TICK_MS + Rest(pos + 1, connected)
    case Await(Script(pos), _, attempt) => (ATTEMPTS - attempt) * READ_MS + Rest(pos + 1, true)
    case Drain(Script(pos), _, attempt, _) => (ATTEMPTS - 1 - attempt) * READ_MS + Rest(pos + 1, true)
    case Hangup(AfterFailure(Script(pos), _)) => CLOSE_MS + Rest(pos + 1, false)
    case Hangup(_) => CLOSE_MS
  }

  const TEST_MS := 284000

  /** The time spent and the time left fit the bound; `slack` is what has just been waited. */
  ghost predicate TimeInv(m: Machine, slack: nat)
    requires ReportInv(m)
  {
    InTest(m.task) ==>
      && (m.task.Greeting? ==> m.task.i < GREETINGS)
      && (m.task.Settle? ==> m.task.i < SETTLES)
      && m.clock - m.begun + Budget(m.task, m.c.conn == Connected) <= TEST_MS + slack
  }

  // ----- Steps -----

  ghost predicate TestInv(m: Machine, slack: nat) {
    ReportInv(m) && TimeInv(m, slack)
  }

  lemma {:induction false} ReportGrows(report: seq<int>, n: nat, code: int)
    requires ZerosFirst(report, n) && (code == 0 ==> n == |report|)
    ensures ZerosFirst(report + [code], if code == 0 then n + 1 else n)
  {
  }

  /** Where the script goes on after item `pos`: one command further or not. */
  lemma {:induction false} NextItem(pos: nat)
    requires pos < |SCRIPT|
    ensures Commands(pos + 1) == if SCRIPT[pos].Act? then Commands(pos) + [SCRIPT[pos].command] else Commands(pos)
    ensures Commands(pos + 1) <= Commands(|SCRIPT|)
    ensures Acts(pos + 1) <= 10 && Pauses(pos + 1) <= 3 && Acts(pos) <= 10 && Pauses(pos) <= 3
  {
    WholeScript();
    CommandsGrow(pos, |SCRIPT|); CommandsGrow(pos + 1, |SCRIPT|);
  }

  lemma {:induction false} DeliverKeepsTest(m: Machine, p: Packet)
    requires Inv(m) && TestInv(m, 0)
    ensures TestInv(Step(m, Deliver(p)), 0)
  {
    var n := Step(m, Deliver(p));
    assert n.task == m.task && n.report == m.report && n.acked == m.acked && n.pending == m.pending;
    if InTest(m.task) && At(m.task) < |SCRIPT| { NextItem(At(m.task)); }
  }

  lemma {:induction false} UserKeepsTest(m: Machine, e: Event)
    requires Inv(m) && TestInv(m, 0) && Enabled(m, e) && !e.Deliver? && !e.Resume?
    ensures TestInv(Step(m, e), 0)
  {
    if e.Test? {
      WholeScript();
      assert ZerosFirst([], 0);
    }
  }

  /** An action of the script is refused. */
  lemma {:induction false} Refused(m: Machine, pos: nat, n: Machine)
    requires TestInv(m, 0) && m.task == Ready(pos) && pos < |SCRIPT| && SCRIPT[pos].Act?
    requires n.task == Ready(pos + 1) && n.report == m.report + [-1] && n.acked == m.acked && n.pending == m.pending
    requires n.c.conn != Connected && n.clock == m.clock && n.begun == m.begun
    ensures TestInv(n, 0)
  {
    NextItem(pos);
    ReportGrows(m.report, |m.acked|, -1);
  }

  /** An action of the script sends its packet and waits. */
  lemma {:induction false} Sends(m: Machine, pos: nat, n: Machine)
    requires TestInv(m, 0) && m.task == Ready(pos) && pos < |SCRIPT| && SCRIPT[pos].Act? && m.c.conn == Connected
    requires n.task.Await? && n.task.caller == Script(pos) && n.task.attempt == 0
    requires n.report == m.report && n.acked == m.acked && n.pending == Some(SCRIPT[pos].command)
    requires n.c.conn == m.c.conn && n.clock == m.clock && n.begun == m.begun
    ensures TestInv(n, 0)
  {
    NextItem(pos);
  }

  /** An action of the script begins. */
  lemma {:induction false} BeginKeepsTest(m: Machine, pos: nat)
    requires TestInv(m, 0) && m.task == Ready(pos) && pos < |SCRIPT| && SCRIPT[pos].Act?
    ensures TestInv(Begin(m, Script(pos), SCRIPT[pos].command), 0)
  {
    var n := Begin(m, Script(pos), SCRIPT[pos].command);
    hide TestInv;
    if m.c.conn == Connected && m.c.crane != 0 { Sends(m, pos, n); } else { Refused(m, pos, n); }
  }

  lemma {:induction false} RetryKeepsTest(m: Machine, k: Caller, packet: Packet, attempt: nat)
    requires TestInv(m, 0) && m.task.Drain? && m.task.caller == k && k.Script?
    requires m.task.packet == packet && m.task.attempt == attempt < ATTEMPTS
    ensures TestInv(Retry(m, k, packet, attempt), 0)
  {
    if attempt + 1 < ATTEMPTS {
      AwaitKeepsReport(m, k, packet, attempt + 1);
      hide ReportInv; hide Commands;
    } else {
      LeaveKeepsTest(m, k, -1);
      hide TestInv;
    }
  }

  lemma {:induction false} AwaitKeepsReport(m: Machine, k: Caller, packet: Packet, attempt: nat)
    requires ReportInv(m) && m.task.Drain? && m.task.caller == k && k.Script?
    ensures ReportInv(m.(task := Await(k, packet, attempt))) && At(m.task) < |SCRIPT|
  {
    hide Commands; hide ZerosFirst;
  }

  lemma {:induction false} LeaveKeepsTest(m: Machine, k: Caller, code: int)
    requires TestInv(m, 0) && m.task.Drain? && m.task.caller == k && k.Script? && m.task.attempt < ATTEMPTS
    ensures TestInv(Leave(m, AfterFailure(k, code)), 0)
  {
    LeaveKeepsReport(m, k, code);
    NextItem(k.pos);
    hide ReportInv; hide Commands;
  }

  lemma {:induction false} LeaveKeepsReport(m: Machine, k: Caller, code: int)
    requires ReportInv(m) && m.task.Drain? && m.task.caller == k && k.Script?
    ensures ReportInv(Leave(m, AfterFailure(k, code)))
  {
    hide Commands; hide ZerosFirst;
  }

  lemma {:induction false} SuccessKeepsTest(m: Machine, k: Caller, packet: Packet, attempt: nat, ack: uint16)
    requires ConnectionInv(m) && TestInv(m, 0) && m.task == Drain(k, packet, attempt, ack) && k.Script?
    requires m.pending == Some(LowByte(packet.data)) && 0 < ack < 0xFFFF && ack == m.c.next
    ensures TestInv(Judge(m, k, packet, attempt, ack), 0)
  {
    Succeeded(m, Judge(m, k, packet, attempt, ack));
  }

  /** An action of the script has returned 0. */
  lemma {:induction false} Succeeded(m: Machine, n: Machine)
    requires TestInv(m, 0) && m.task.Drain? && m.task.caller.Script? && m.task.attempt < ATTEMPTS
    requires m.c.conn == n.c.conn == Connected && n.clock == m.clock && n.begun == m.begun
    requires m.pending.Some? && n.pending == None && n.report == m.report + [0] && n.acked == m.acked + [m.pending.value]
    requires n.task == Ready(m.task.caller.pos + 1)
    ensures TestInv(n, 0)
  {
    SuccessKeepsReport(m, n);
    NextItem(m.task.caller.pos);
    hide Commands; hide ReportInv; hide Rest;
  }

  lemma {:induction false} SuccessKeepsReport(m: Machine, n: Machine)
    requires ReportInv(m) && m.task.Drain? && m.task.caller.Script? && n.task == Ready(m.task.caller.pos + 1)
    requires n.c.conn == Connected && m.pending.Some? && n.pending == None
    requires n.report == m.report + [0] && n.acked == m.acked + [m.pending.value]
    ensures ReportInv(n) && At(m.task) < |SCRIPT|
  {
    var pos := m.task.caller.pos;
    WaitingReport(m, pos);
    NextItem(pos);
    hide ReportInv;
    ReportGrows(m.report, |m.acked|, 0);
    hide *;
    ReadyReport(n, pos + 1);
  }

  /** What the report holds while an action of the script is under way. */
  lemma {:induction false} WaitingReport(m: Machine, pos: nat)
    requires ReportInv(m) && m.task.Drain? && m.task.caller == Script(pos)
    ensures pos < |SCRIPT| && SCRIPT[pos].Act? && m.pending == Some(SCRIPT[pos].command)
    ensures m.acked == Commands(pos) && |m.report| == |m.acked| == Acts(pos) && ZerosFirst(m.report, |m.acked|)
  {
    hide Commands; hide ZerosFirst;
  }

  lemma {:induction false} ReadyReport(n: Machine, pos: nat)
    requires n.task == Ready(pos) && pos <= |SCRIPT| && Acts(pos) <= 10 && n.pending == None
    requires n.acked == Commands(pos) && |n.report| == |n.acked| && ZerosFirst(n.report, |n.acked|)
    ensures ReportInv(n)
  {
    hide Commands; hide ZerosFirst;
  }

  lemma {:induction false} SendKeepsTest(m: Machine, packet: Packet)
    requires TestInv(m, 0)
    ensures TestInv(Transmit(m, packet).(empties := m.empties + 1), 0)
  {
  }

  lemma {:induction false} WaitingFor(m: Machine)
    requires Inv(m) && Waiting(m.task)
    ensures m.task.attempt < ATTEMPTS && m.pending == Some(LowByte(m.task.packet.data))
  {
  }

  lemma {:induction false} JudgeKeepsTest(m: Machine, k: Caller, packet: Packet, attempt: nat, ack: uint16)
    requires Inv(m) && TestInv(m, 0) && m.task == Drain(k, packet, attempt, ack) && k.Script?
    ensures TestInv(Judge(m, k, packet, attempt, ack), 0)
  {
    WaitingFor(m);
    hide TestInv; hide ConnectionInv; hide NamingInv; hide AccountInv; hide Retry; hide Leave; hide Return;
    SendKeepsTest(m, packet);
    if ack == 0 {
      RetryKeepsTest(Transmit(m, packet).(empties := m.empties + 1), k, packet, attempt);
    } else if ack == m.c.next && ack < 0xFFFF {
      SuccessKeepsTest(m, k, packet, attempt, ack);
    } else {
      RetryKeepsTest(m, k, packet, attempt);
      LeaveKeepsTest(m, k, -2);
    }
  }

  /** An action of the script has failed and disconnected. */
  lemma {:induction false} Failed(m: Machine, pos: nat, code: int, n: Machine)
    requires TestInv(m, CLOSE_MS) && m.task == Hangup(AfterFailure(Script(pos), code)) && code != 0
    requires n.task == Ready(pos + 1) && n.report == m.report + [code] && n.acked == m.acked && n.pending == m.pending
    requires n.c.conn == Disconnected && n.clock == m.clock && n.begun == m.begun
    ensures TestInv(n, 0)
  {
    NextItem(pos);
    ReportGrows(m.report, |m.acked|, code);
  }

  lemma {:induction false} LeftKeepsTest(m: Machine, why: Why)
    requires AccountInv(m) && m.task == Hangup(why) && TestInv(m, CLOSE_MS)
    ensures TestInv(Left(m, why), 0)
  {
    if why.AfterFailure? && why.caller.Script? {
      var n := Left(m, why);
      hide TestInv;
      Failed(m, why.caller.pos, why.code, n);
    }
  }

  /** A pause goes into its next delay. */
  lemma {:induction false} Pausing(m: Machine, pos: nat, i: nat)
    requires ReportInv(m) && pos < |SCRIPT| && SCRIPT[pos] == Pause && i < SETTLES
    requires m.task == Ready(pos) || (m.task.Settle? && m.task.pos == pos)
    requires m.clock - m.begun + (SETTLES - i) * TICK_MS + Rest(pos + 1, m.c.conn == Connected) <= TEST_MS
    ensures TestInv(m.(task := Settle(pos, i)), 0)
  {
    hide Commands; hide Rest; hide ZerosFirst;
  }

  /** A pause is over. */
  lemma {:induction false} Paused(m: Machine, pos: nat)
    requires ReportInv(m) && pos < |SCRIPT| && SCRIPT[pos] == Pause
    requires m.task == Ready(pos) || (m.task.Settle? && m.task.pos == pos)
    requires m.clock - m.begun + Rest(pos + 1, m.c.conn == Connected) <= TEST_MS
    ensures TestInv(m.(task := Ready(pos + 1)), 0)
  {
    PausedReport(m, pos);
    hide ReportInv; hide Rest;
  }

  lemma {:induction false} PausedReport(m: Machine, pos: nat)
    requires ReportInv(m) && pos < |SCRIPT| && SCRIPT[pos] == Pause
    requires m.task == Ready(pos) || (m.task.Settle? && m.task.pos == pos)
    ensures ReportInv(m.(task := Ready(pos + 1)))
  {
    NextItem(pos);
    hide Commands; hide Rest; hide ZerosFirst;
  }

  lemma {:induction false} LookKeepsTest(m: Machine, pos: nat, i: nat)
    requires ReportInv(m) && pos < |SCRIPT| && SCRIPT[pos] == Pause
    requires m.task == Ready(pos) || (m.task.Settle? && m.task.pos == pos)
    requires m.clock - m.begun + (SETTLES - i) * TICK_MS + Rest(pos + 1, m.c.conn == Connected) <= TEST_MS && i <= SETTLES
    ensures TestInv(Look(m, pos, i), 0)
  {
    hide ReportInv; hide TestInv; hide Rest;
    if i < SETTLES && m.c.backlog != 0 { Pausing(m, pos, i); } else { Paused(m, pos); }
  }

  lemma {:induction false} GreetedKeepsTest(m: Machine, i: nat)
    requires Inv(m) && m.task == Greeting(i) && TestInv(m, TICK_MS)
    ensures TestInv(Greeted(m, i + 1), 0)
  {
    WholeScript();
  }

  lemma {:induction false} ReadyKeepsTest(m: Machine, pos: nat)
    requires Inv(m) && m.task == Ready(pos) && TestInv(m, 0)
    ensures TestInv(Follow(m, pos), 0)
  {
    if pos < |SCRIPT| {
      NextItem(pos);
      if SCRIPT[pos].Act? {
        BeginKeepsTest(m, pos);
      } else {
        LookKeepsTest(m, pos, 0);
      }
      hide Inv; hide TestInv; hide Begin; hide Look;
    } else {
      WholeScript();
    }
  }

  lemma {:induction false} SettleKeepsTest(m: Machine, pos: nat, i: nat)
    requires m.task == Settle(pos, i) && TestInv(m, TICK_MS)
    ensures TestInv(Look(m, pos, i + 1), 0)
  {
    LookKeepsTest(m, pos, i + 1);
  }

  lemma {:induction false} TakeKeepsTest(m: Machine)
    requires m.task.Await? || (m.task.Drain? && m.c.acks != [])
    requires ConnectionInv(m) && TestInv(m, Limit(m.task))
    ensures TestInv(Go(m), 0)
  {
    if InTest(m.task) { NextItem(At(m.task)); }
  }

  lemma {:induction false} CliJudgeKeepsTest(m: Machine, k: Caller, packet: Packet, attempt: nat, ack: uint16)
    requires TestInv(m, 0) && m.task == Drain(k, packet, attempt, ack) && k.Cli?
    ensures TestInv(Judge(m, k, packet, attempt, ack), 0)
  {
    var n := Judge(m, k, packet, attempt, ack);
    assert n.report == m.report && !InTest(n.task);
  }

  lemma {:induction false} GoKeepsTest(m: Machine)
    requires Inv(m) && m.task != Prompt && TestInv(m, Limit(m.task))
    ensures TestInv(Go(m), 0)
  {
    hide TestInv; hide ConnectionInv; hide NamingInv; hide AccountInv;
    hide Judge; hide Left; hide Look; hide Follow; hide Greeted;
    match m.task
    case Greeting(i) => GreetedKeepsTest(m, i);
    case Ready(pos) => ReadyKeepsTest(m, pos);
    case Settle(pos, i) => SettleKeepsTest(m, pos, i);
    case Await(k, packet, attempt) => TakeKeepsTest(m);
    case Drain(k, packet, attempt, best) =>
      if m.c.acks != [] {
        TakeKeepsTest(m);
      } else if k.Script? {
        JudgeKeepsTest(m, k, packet, attempt, best);
      } else {
        CliJudgeKeepsTest(m, k, packet, attempt, best);
      }
    case Hangup(why) => LeftKeepsTest(m, why);
  }

  lemma {:induction false} TestKept(m: Machine, e: Event)
    requires Inv(m) && TestInv(m, 0) && Enabled(m, e)
    ensures TestInv(Step(m, e), 0)
  {
    match e
    case Deliver(p) => DeliverKeepsTest(m, p);
    case Resume(waited) =>
      var w := Noted(m, waited);
      ResumeGoes(m, waited);
      NotedKeepsInv(m, waited);
      assert TestInv(w, Limit(m.task));
      GoKeepsTest(w);
    case _ => UserKeepsTest(m, e);
  }

  // ----- All runs -----

  lemma {:induction false} TestInvHolds(run: seq<Event>)
    requires IsRun(run)
    ensures TestInv(Exec(run), 0)
  {
    if run == [] {
      assert ZerosFirst([], 0);
    } else {
      var n := |run| - 1;
      TestInvHolds(run[..n]);
      InvHolds(run[..n]);
      TestKept(Exec(run[..n]), run[n]);
    }
  }

  /** Whatever is lost and whenever the crane closes: the return codes of the test's actions, at most ten,
      are zeros followed only by nonzeros, and while the test runs the acknowledged commands are as many
      commands of the script, from its beginning. */
  lemma {:induction false} ResultsAreZerosFirst(m: Machine)
    requires Reachable(m)
    ensures |m.report| <= 10 && exists n :: ZerosFirst(m.report, n)
    ensures InTest(m.task) ==> ZerosFirst(m.report, |m.acked|) && m.acked <= Commands(13)
    ensures InTest(m.task) && m.pending.Some? ==> m.acked + [m.pending.value] <= Commands(13)
  {
    var run :| IsRun(run) && Exec(run) == m;
    TestInvHolds(run);
    WholeScript();
    if InTest(m.task) {
      CommandsGrow(At(m.task), 13);
    }
  }

  lemma {:induction false} BudgetCovers(m: Machine)
    requires ConnectionInv(m) && TestInv(m, 0) && InTest(m.task)
    ensures 0 <= Limit(m.task) <= Budget(m.task, m.c.conn == Connected)
  {
    if At(m.task) < |SCRIPT| { NextItem(At(m.task)); } else { WholeScript(); }
  }

  lemma {:induction false} ClockOnlyWaits(m: Machine, e: Event)
    requires Enabled(m, e) && InTest(m.task)
    ensures Step(m, e).clock == m.clock + (if e.Resume? then e.waited else 0) && Step(m, e).begun == m.begun
  {
  }

  /** At every moment of a test, its end included, at most 284 seconds were spent blocking. */
  lemma {:induction false} TestTakesBoundedTime(m: Machine, e: Event)
    requires Reachable(m) && InTest(m.task) && Enabled(m, e)
    ensures m.clock - m.begun <= 284000
    ensures Step(m, e).clock - Step(m, e).begun <= 284000
  {
    var run :| IsRun(run) && Exec(run) == m;
    TestInvHolds(run);
    ReachableInv(m);
    BudgetCovers(m);
    ClockOnlyWaits(m, e);
    hide Step; hide Budget; hide Limit; hide Reachable; hide Exec;
  }

  lemma {:induction false} ScriptIsOver(m: Machine)
    requires TestInv(m, 0) && InTest(m.task)
    ensures m.task.Greeting? ==> m.report == [] && m.acked == []
    ensures m.task == Hangup(ScriptDone) ==> |m.report| == 10
    ensures ZerosFirst(m.report, |m.acked|) && m.acked <= Commands(13)
  {
    WholeScript();
    CommandsGrow(At(m.task), 13);
  }

  /** Only two blocks of the test go back to the command line. */
  lemma {:induction false} TestGoesBack(m: Machine, e: Event)
    requires InTest(m.task) && Enabled(m, e) && Step(m, e).task == Prompt
    ensures m.task.Greeting? || m.task == Hangup(ScriptDone)
    ensures Step(m, e).report == m.report && Step(m, e).acked == m.acked
    ensures m.task == Hangup(ScriptDone) ==> Step(m, e).c.conn == Disconnected && Step(m, e).c.next == 0
  {
  }

  /** A test ends either with its handshake or after all ten actions, disconnected and with a prefix of the
      script acknowledged that is as long as the zeros of the results. */
  lemma {:induction false} TestEnds(m: Machine, e: Event)
    requires Reachable(m) && InTest(m.task) && Enabled(m, e) && Step(m, e).task == Prompt
    ensures var n := Step(m, e);
            (m.task.Greeting? && n.report == [] && n.acked == [])
            || (|n.report| == 10 && n.c.conn == Disconnected && n.c.next == 0
                && ZerosFirst(n.report, |n.acked|) && n.acked <= Commands(13))
  {
    var run :| IsRun(run) && Exec(run) == m;
    TestInvHolds(run);
    ScriptIsOver(m);
    TestGoesBack(m, e);
    hide Step; hide TestInv; hide Reachable; hide Exec;
  }
}
