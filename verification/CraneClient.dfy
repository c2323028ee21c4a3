/** The crane client as the firmware has it: global state changed by the handlers of the receive task and by
    the blocking calls of the command line task. A ghost machine goes along with it, so that whatever holds
    over all runs of the machine holds of every state the object can get into. */
module CraneClient {
  import opened MachineTypes
  import opened CraneMachine
  import opened CraneRuns
  import opened CraneLaws

  // ----- Blocking points -----

  /** What happens at one blocking point: the packets that arrive, and after how many milliseconds a
      receive that finds something goes on. */
  datatype Interval = Interval(packets: seq<Packet>, waited: nat)

  /** The n-th interval; when the list is used up nothing arrives any more. */
  function At(pool: seq<Interval>, n: nat): Interval {
    if n < |pool| then pool[n] else Interval([], 0)
  }

  function DeliverAll(m: Machine, packets: seq<Packet>): Machine {
    if packets == [] then m
    else Step(DeliverAll(m, packets[..|packets| - 1]), Deliver(packets[|packets| - 1]))
  }

  /** A delay and a receive that finds nothing take their full time. */
  function Waited(m: Machine, i: Interval): nat {
    if m.task.Await? && m.c.acks != [] then Min(i.waited, READ_MS) else Limit(m.task)
  }

  /** The task blocks for one interval and then runs its next block. */
  function Turn(m: Machine, i: Interval): Machine {
    var d := DeliverAll(m, i.packets);
    Step(d, Resume(Waited(d, i)))
  }

  /** The machine after the intervals from `from` to `to`. */
  function Forward(pool: seq<Interval>, m: Machine, from: nat, to: nat): Machine
    requires from <= to
  {
    if from == to then m else Turn(Forward(pool, m, from, to - 1), At(pool, to - 1))
  }

  lemma {:induction false} ForwardOne(pool: seq<Interval>, m: Machine, from: nat, to: nat)
    requires from < to
    ensures Forward(pool, m, from, to) == Turn(Forward(pool, m, from, to - 1), At(pool, to - 1))
  {
    hide Turn;
  }

  lemma {:induction false} DeliverKeepsTask(m: Machine, packets: seq<Packet>)
    ensures DeliverAll(m, packets).task == m.task
  {
    if packets != [] { DeliverKeepsTask(m, packets[..|packets| - 1]); }
  }

  lemma {:induction false} DeliverOne(m: Machine, packets: seq<Packet>, k: nat)
    requires k < |packets|
    ensures var d, n := DeliverAll(m, packets[..k]), DeliverAll(m, packets[..k + 1]);
            && n.c == Receive(d.c, packets[k]).0
            && n.past + n.wire == (d.past + d.wire) + Receive(d.c, packets[k]).1
  {
    assert packets[..k + 1][..k] == packets[..k];
    hide Receive;
  }

  lemma {:induction false} DeliverReachable(m: Machine, packets: seq<Packet>)
    requires Reachable(m)
    ensures Reachable(DeliverAll(m, packets))
  {
    if packets != [] {
      var n := |packets| - 1;
      DeliverReachable(m, packets[..n]);
      ReachableStep(DeliverAll(m, packets[..n]), Deliver(packets[n]));
    }
  }

  lemma {:induction false} TurnReachable(m: Machine, i: Interval)
    requires Reachable(m) && m.task != Prompt
    ensures Reachable(Turn(m, i))
  {
    var d := DeliverAll(m, i.packets);
    DeliverReachable(m, i.packets);
    DeliverKeepsTask(m, i.packets);
    ReachableStep(d, Resume(Waited(d, i)));
  }

  /** The block after an interval, as the next block of the machine that has handled its packets. */
  lemma {:induction false} TurnGoes(m: Machine, i: Interval)
    ensures var d := DeliverAll(m, i.packets);
            d.task == m.task && Turn(m, i) == Go(Noted(d, Waited(d, i)))
  {
    DeliverKeepsTask(m, i.packets);
    hide Go;
  }

  lemma {:induction false} FirstReceive(m: Machine, i: Interval)
    requires m.task.Await?
    ensures var d, n, t := DeliverAll(m, i.packets), Turn(m, i), m.task;
            && n.past + n.wire == d.past + d.wire
            && n.c == d.c.(acks := if d.c.acks == [] then [] else d.c.acks[1..])
            && n.task == Drain(t.caller, t.packet, t.attempt, if d.c.acks == [] then 0 else d.c.acks[0])
  {
    TurnGoes(m, i);
    hide DeliverAll; hide Turn; hide Waited;
  }

  lemma {:induction false} NextReceive(m: Machine, i: Interval)
    requires m.task.Drain? && DeliverAll(m, i.packets).c.acks != []
    ensures var d, n, t := DeliverAll(m, i.packets), Turn(m, i), m.task;
            && n.past + n.wire == d.past + d.wire
            && n.c == d.c.(acks := d.c.acks[1..])
            && n.task == Drain(t.caller, t.packet, t.attempt, if t.best >= d.c.acks[0] then t.best else d.c.acks[0])
  {
    TurnGoes(m, i);
    hide DeliverAll; hide Turn; hide Waited;
  }

  lemma {:induction false} DeliverKeepsClock(m: Machine, packets: seq<Packet>)
    ensures DeliverAll(m, packets).clock == m.clock
  {
    if packets != [] {
      DeliverKeepsClock(m, packets[..|packets| - 1]);
      PacketsChange(DeliverAll(m, packets[..|packets| - 1]), packets[|packets| - 1]);
      hide Step;
    }
  }

  /** How long an interval lasts, in milliseconds: a delay takes its full time, and so does a receive for which
      nothing comes; one that finds an acknowledgement goes on when it comes. */
  lemma {:induction false} TurnTakes(m: Machine, i: Interval)
    requires m.task != Prompt
    ensures Turn(m, i).clock == m.clock +
      match m.task
      case Await(_, _, _) => if DeliverAll(m, i.packets).c.acks == [] then 5000 else Min(i.waited, 5000)
      case Hangup(_) => 500
      case Greeting(_) => 100
      case Settle(_, _) => 100
      case _ => 0
  {
    var d := DeliverAll(m, i.packets);
    DeliverKeepsTask(m, i.packets);
    DeliverKeepsClock(m, i.packets);
    BlockingTimes(d, Waited(d, i));
    hide Step; hide DeliverAll;
  }

  /** Where the task goes when crane_disconnect is over. */
  function Gone(why: Why): Task {
    match why
    case AfterFailure(Script(pos), _) => Ready(pos + 1)
    case _ => Prompt
  }

  lemma {:induction false} HangupEnds(m: Machine, i: Interval)
    requires m.task.Hangup?
    ensures var d, n := DeliverAll(m, i.packets), Turn(m, i);
            && n.past + n.wire == d.past + d.wire
            && n.c == d.c.(conn := Disconnected, next := 0) && n.task == Gone(m.task.why)
            && (m.task.why.AfterFailure? ==> n.result == m.task.why.code)
  {
    TurnGoes(m, i);
    hide DeliverAll; hide Turn; hide Waited;
  }

  /** The machine at the end of read_acks, about to judge what was read. */
  function Judging(m: Machine, i: Interval): Machine {
    var d := DeliverAll(m, i.packets);
    Noted(d, Waited(d, i))
  }

  lemma {:induction false} ReadEnds(m: Machine, i: Interval)
    requires m.task.Drain? && DeliverAll(m, i.packets).c.acks == []
    ensures var d, t := Judging(m, i), m.task;
            d.task == t && Turn(m, i) == Judge(d, t.caller, t.packet, t.attempt, t.best)
  {
    TurnGoes(m, i);
    hide DeliverAll; hide Turn; hide Waited; hide Judge;
  }

  lemma {:induction false} ScriptCalls(m: Machine, i: Interval)
    requires m.task.Ready?
    ensures Turn(m, i) == Follow(Judging(m, i), m.task.pos)
  {
    TurnGoes(m, i);
    hide DeliverAll; hide Turn; hide Waited; hide Follow;
  }

  lemma {:induction false} HandshakeWaits(m: Machine, i: Interval, k: nat)
    requires m.task == Greeting(k)
    ensures Turn(m, i) == Greeted(Judging(m, i), k + 1)
  {
    TurnGoes(m, i);
    hide DeliverAll; hide Turn; hide Waited; hide Greeted;
  }

  /** The blocks of crane_wait_until_idle: `i` delays are over. */
  lemma {:induction false} Looks(m: Machine, interval: Interval, pos: nat, i: nat)
    requires pos < |SCRIPT| && SCRIPT[pos] == Pause
    requires m.task == if i == 0 then Ready(pos) else Settle(pos, i - 1)
    ensures Turn(m, interval) == Look(Judging(m, interval), pos, i)
  {
    if i == 0 { ScriptCalls(m, interval); } else { TurnGoes(m, interval); }
    hide DeliverAll; hide Turn; hide Waited; hide Look;
  }

  // ----- The client -----

  /** The client's global state. `CraneMachine.Client` is its value at one moment. */
  class Controller {
    var next: uint16
    var crane: uint8
    var acks: seq<uint16>
    var conn: Conn
    var lastStatus: uint16
    var backlog: uint8
    /** Everything given to lownet_send so far. */
    var sent: seq<Send>
    /** The environment: what happens at each blocking point, and how many were passed. */
    const arrivals: seq<Interval>
    var turns: nat
    ghost var model: Machine

    function State(): Client
      reads this
    {
      Client(next, crane, acks, conn, lastStatus, backlog)
    }

    /** The fields are those of machine `m`. */
    ghost predicate Shows(m: Machine)
      reads this
    {
      m.c == State() && m.past + m.wire == sent
    }

    ghost predicate Valid()
      reads this
    {
      Reachable(model) && Shows(model)
    }

    /** The client is where the machine gets from `m`, which it was in after `since` intervals, without
        having been back at the prompt in between. */
    ghost predicate Followed(m: Machine, since: nat)
      reads this
    {
      since <= turns && model == Forward(arrivals, m, since, turns)
      && forall i :: since <= i < turns ==> Forward(arrivals, m, since, i).task != Prompt
    }

    /** The same, in the middle of a block: the packets of the last interval have been handled, and the
        machine has not yet taken the block that follows. */
    ghost predicate Halfway(m: Machine, since: nat)
      reads this
    {
      && Reachable(model) && model.task != Prompt
      && since < turns && model == Forward(arrivals, m, since, turns - 1)
      && (forall i :: since <= i < turns ==> Forward(arrivals, m, since, i).task != Prompt)
      && Shows(Handled())
    }

    ghost function Handled(): Machine
      reads this
      requires turns > 0
    {
      DeliverAll(model, At(arrivals, turns - 1).packets)
    }

    /** The machine at the end of the block under way. */
    ghost function Coming(): Machine
      reads this
      requires turns > 0
    {
      Turn(model, At(arrivals, turns - 1))
    }

    constructor (arrivals: seq<Interval>)
      ensures Valid() && model == INITIAL && turns == 0 && sent == [] && this.arrivals == arrivals
    {
      next, crane, acks, conn := 0, 0, [], Disconnected;
      lastStatus, backlog := 0, 0;
      sent, turns := [], 0;
      this.arrivals := arrivals;
      model := INITIAL;
      new;
      assert IsRun([]) && Exec([]) == INITIAL;
    }

    // ----- The receive task -----

    method RecvConnect(p: Packet)
      modifies this`next, this`conn, this`sent
      ensures var (c, answers) := CraneMachine.RecvConnect(old(State()), p);
              State() == c && sent == old(sent) + answers
    {
      if conn != Handshake { return; }
      if !(Has(p.flags, SYN) && Has(p.flags, ACK)) { return; }
      var flags: uint8 := ACK;
      if Has(p.flags, TEST) { flags := flags + TEST; }
      sent := sent + [Send(crane, Packet(CONNECT, flags, 0, 0xFFFF_FFFF - p.data))];
      next := 1;
      conn := Connected;
    }

    method RecvClose()
      modifies this`next, this`conn, this`crane
      ensures State() == CraneMachine.RecvClose(old(State()))
    {
      next := 0;
      conn := Disconnected;
      crane := 0;
    }

    method RecvStatus(p: Packet)
      modifies this`acks, this`lastStatus, this`backlog
      ensures State() == CraneMachine.RecvStatus(old(State()), p)
    {
      if Has(p.flags, NAK) { return; }
      if p.number != 0 && p.number != 0xFFFF {
        if |acks| < QUEUE_SIZE { acks := acks + [p.number]; }
      }
      lastStatus := p.number;
      backlog := LowByte(p.data);
    }

    method Receive(p: Packet)
      modifies this`next, this`conn, this`crane, this`acks, this`lastStatus, this`backlog, this`sent
      ensures var (c, answers) := CraneMachine.Receive(old(State()), p);
              State() == c && sent == old(sent) + answers
    {
      if p.kind == CONNECT {
        RecvConnect(p);
      } else if p.kind == STATUS {
        RecvStatus(p);
      } else if p.kind == CLOSE {
        RecvClose();
      }
    }

    /** A packet that arrives while the command line is at its prompt. */
    method ReceiveAtPrompt(p: Packet)
      requires Valid() && model.task == Prompt
      modifies this
      ensures Valid() && turns == old(turns) && model == Step(old(model), Deliver(p))
    {
      ReachableStep(model, Deliver(p));
      hide CraneMachine.Receive; hide Reachable;
      Receive(p);
      model := Step(model, Deliver(p));
    }

    // ----- The command line task -----

    /** A blocking point: the receive task handles what arrives. */
    method Block(ghost m: Machine, ghost since: nat)
      requires Valid() && model.task != Prompt && Followed(m, since)
      modifies this
      ensures model == old(model) && turns == old(turns) + 1
      ensures Halfway(m, since)
      ensures old(turns) >= |arrivals| ==> acks == old(acks)
    {
      var packets := At(arrivals, turns).packets;
      hide Step; hide CraneMachine.Receive; hide Forward; hide Exec;
      for k := 0 to |packets|
        invariant model == old(model) && turns == old(turns)
        invariant Shows(DeliverAll(model, packets[..k]))
      {
        DeliverOne(model, packets, k);
        Receive(packets[k]);
      }
      assert packets[..|packets|] == packets;
      turns := turns + 1;
    }

    /** The block is over: the machine catches up. */
    ghost method CatchUp(m: Machine, since: nat)
      requires Reachable(model) && model.task != Prompt
      requires since < turns && model == Forward(arrivals, m, since, turns - 1)
      requires forall i :: since <= i < turns ==> Forward(arrivals, m, since, i).task != Prompt
      requires Shows(Coming())
      modifies this`model
      ensures model == old(Coming()) && Valid() && Followed(m, since)
    {
      hide Turn; hide Reachable; hide Forward; hide At;
      TurnReachable(model, At(arrivals, turns - 1));
      ForwardOne(arrivals, m, since, turns);
      model := Coming();
    }

    method Connect(id: uint8)
      requires Valid() && model.task == Prompt
      modifies this
      ensures Valid() && turns == old(turns) && model == Step(old(model), Open(id))
    {
      ReachableStep(model, Open(id));
      if conn == Disconnected {
        crane := id;
        conn := Handshake;
        next := 0;
        sent := sent + [Send(id, Packet(CONNECT, SYN, 0, 0))];
      }
      model := Step(model, Open(id));
    }

    /** The first receive of read_acks, up to the second one. */
    method ReceiveFirst(ghost m: Machine, ghost since: nat) returns (best: uint16)
      requires Valid() && model.task.Await? && Followed(m, since)
      modifies this
      ensures Halfway(m, since)
      ensures var t := old(model.task); model.task == Drain(t.caller, t.packet, t.attempt, best)
    {
      hide DeliverAll; hide Turn; hide Forward; hide Reachable;
      Block(m, since);
      FirstReceive(model, At(arrivals, turns - 1));
      if acks != [] {
        best := acks[0];
        acks := acks[1..];
      } else {
        best := 0;
      }
      CatchUp(m, since);
      Block(m, since);
    }

    /** One turn of the drain loop of read_acks, up to the next receive. */
    method ReceiveNext(best: uint16, ghost m: Machine, ghost since: nat) returns (best': uint16)
      requires Halfway(m, since) && model.task.Drain? && model.task.best == best && acks != []
      modifies this
      ensures Halfway(m, since)
      ensures var t := old(model.task); model.task == Drain(t.caller, t.packet, t.attempt, best')
      ensures turns == old(turns) + 1 && (old(turns) >= |arrivals| ==> |acks| < |old(acks)|)
    {
      hide DeliverAll; hide Turn; hide Forward; hide Reachable;
      NextReceive(model, At(arrivals, turns - 1));
      var x := acks[0];
      acks := acks[1..];
      best' := if best >= x then best else x;
      CatchUp(m, since);
      Block(m, since);
    }

    lemma {:induction false} ReadsMaximum(m: Machine, since: nat)
      requires Halfway(m, since)
      ensures model.task.Drain? ==> IsMaximum(model.task.best, model.drained)
    {
      ReadIsMaximum(model);
    }

    /** Blocks up to five seconds for an acknowledgement, then takes whatever else is queued. Returns the
        largest number taken, 0 if there was none. Ends in the middle of the block in which the queue was
        found empty. */
    method ReadAcks(ghost m: Machine, ghost since: nat) returns (best: uint16)
      requires Valid() && model.task.Await? && Followed(m, since)
      modifies this
      ensures Halfway(m, since) && acks == []
      ensures var t := old(model.task); model.task == Drain(t.caller, t.packet, t.attempt, best)
      ensures IsMaximum(best, model.drained)
    {
      hide Halfway;
      ghost var t := model.task;
      best := ReceiveFirst(m, since);
      while acks != []
        invariant Halfway(m, since) && model.task == Drain(t.caller, t.packet, t.attempt, best)
        decreases Max(|arrivals| - turns, 0), |acks|
      {
        best := ReceiveNext(best, m, since);
      }
      ReadsMaximum(m, since);
    }

    /** crane_disconnect, called where the machine would leave for reason `why`; `mid` is the machine the
        fields show at the call and `x` the one that has sent the CLOSE. */
    method Disconnect(ghost mid: Machine, ghost why: Why, ghost x: Machine, ghost m: Machine, ghost since: nat)
      requires Shows(mid) && x == Leave(mid, why) && Reachable(x)
      requires since <= turns && x == Forward(arrivals, m, since, turns)
      requires forall i :: since <= i < turns ==> Forward(arrivals, m, since, i).task != Prompt
      modifies this
      ensures Valid() && Followed(m, since) && model.task == Gone(why)
      ensures why.AfterFailure? ==> model.result == why.code
    {
      hide DeliverAll; hide Turn; hide Forward; hide Reachable; hide Limit;
      sent := sent + [Send(crane, Packet(CLOSE, 0, next, 0))];
      model := x;
      assert model.task == Hangup(why) && Shows(model);
      hide Leave;
      Block(m, since);
      HangupEnds(model, At(arrivals, turns - 1));
      conn := Disconnected;
      next := 0;
      CatchUp(m, since);
      // crane_disconnect resets the connection twice
      conn := Disconnected;
      next := 0;
    }

    method Close()
      requires Valid() && model.task == Prompt
      modifies this
      ensures Valid() && model.task == Prompt
      ensures Followed(Step(old(model), Event.Close), old(turns))
    {
      ghost var x := Step(model, Event.Close);
      ReachableStep(model, Event.Close);
      Disconnect(model, ByUser, x, x, turns);
    }

    /** crane_action is called: from the command line, or in the block of a script item. */
    ghost predicate Called(k: Caller, command: uint8, m: Machine, since: nat)
      reads this
    {
      match k
      case Cli => Valid() && model.task == Prompt && since == turns && m == Step(model, Command(command))
      case Script(pos) => Halfway(m, since) && model.task == Ready(pos) && pos < |SCRIPT| && SCRIPT[pos] == Act(command)
    }

    /** The machine whose block the call is in. */
    ghost function Calling(k: Caller): Machine
      reads this
      requires k.Script? ==> turns > 0
    {
      if k.Cli? then model else Judging(model, At(arrivals, turns - 1))
    }

    /** The first block of crane_action is over. */
    ghost method Enter(k: Caller, command: uint8, m: Machine, since: nat, before: Machine)
      requires Reachable(model) && since <= turns
      requires k.Cli? ==> model.task == Prompt && since == turns && m == Step(model, Command(command)) && before == model
      requires k.Script? ==>
        && since < turns && model.task == Ready(k.pos) && k.pos < |SCRIPT| && SCRIPT[k.pos] == Act(command)
        && model == Forward(arrivals, m, since, turns - 1)
        && before == Judging(model, At(arrivals, turns - 1))
      requires forall i :: since <= i < turns ==> Forward(arrivals, m, since, i).task != Prompt
      requires Shows(Begin(before, k, command))
      modifies this`model
      ensures model == Begin(before, k, command) && Valid() && Followed(m, since)
    {
      hide DeliverAll; hide Turn; hide Begin; hide Judging; hide Reachable;
      if k.Cli? {
        ReachableStep(model, Command(command));
        model := Step(model, Command(command));
      } else {
        ScriptCalls(model, At(arrivals, turns - 1));
        hide Forward;
        CatchUp(m, since);
      }
    }

    /** The attempts are used up: the fields show `before`, and the block under way ends in a disconnect. */
    ghost predicate Exhausted(k: Caller, before: Machine, m: Machine, since: nat)
      reads this
    {
      && since < turns && Reachable(Coming()) && Coming() == Forward(arrivals, m, since, turns)
      && (forall i :: since <= i < turns ==> Forward(arrivals, m, since, i).task != Prompt)
      && Shows(before) && Coming() == Leave(before, AfterFailure(k, -1))
    }

    lemma {:induction false} ComingIsNext(m: Machine, since: nat)
      requires Reachable(model) && model.task != Prompt && since < turns && model == Forward(arrivals, m, since, turns - 1)
      ensures Reachable(Coming()) && Coming() == Forward(arrivals, m, since, turns)
    {
      hide Turn; hide Reachable; hide Forward; hide At;
      TurnReachable(model, At(arrivals, turns - 1));
      ForwardOne(arrivals, m, since, turns);
    }

    /** One attempt of the retry loop of crane_action. */
    method Try(packet: Packet, attempt: nat, ghost k: Caller, ghost m: Machine, ghost since: nat)
        returns (over: bool, r: int, ghost before: Machine)
      requires Valid() && Followed(m, since) && model.task == Await(k, packet, attempt) && attempt < ATTEMPTS
      modifies this
      ensures over ==> Valid() && Followed(m, since) && r == model.result && model.task == Gone(AfterFailure(k, r))
      ensures !over && attempt + 1 < ATTEMPTS ==> Valid() && Followed(m, since) && model.task == Await(k, packet, attempt + 1)
      ensures !over && attempt + 1 == ATTEMPTS ==> Exhausted(k, before, m, since)
    {
      hide DeliverAll; hide Turn; hide Forward; hide Reachable; hide Waited; hide Limit;
      r := 0;
      var ack := ReadAcks(m, since);
      before := Judging(model, At(arrivals, turns - 1));
      ReadEnds(model, At(arrivals, turns - 1));
      ComingIsNext(m, since);
      assert Shows(before) && Coming() == Judge(before, k, packet, attempt, ack);
      if ack == 0 {
        sent := sent + [Send(crane, packet)];
        before := Transmit(before, packet).(empties := before.empties + 1);
      } else if ack != 0xFFFF {
        if ack > next {
          Disconnect(before, AfterFailure(k, -2), Coming(), m, since);
          return true, -2, before;
        }
        if ack == next {
          next := (next + 1) % 0x1_0000;
          CatchUp(m, since);
          return true, 0, before;
        }
      }
      if attempt + 1 < ATTEMPTS { CatchUp(m, since); }
      over := false;
    }

    /** crane_action. */
    method Perform(command: uint8, ghost k: Caller, ghost m: Machine, ghost since: nat) returns (r: int)
      requires Called(k, command, m, since)
      modifies this
      ensures Valid() && Followed(m, since) && r == model.result
      ensures model.task == Gone(AfterFailure(k, r))
    {
      hide DeliverAll; hide Turn; hide Forward; hide Reachable; hide Waited; hide Limit;
      ghost var before := Calling(k);
      if conn != Connected {
        Enter(k, command, m, since, before);
        return -1;
      }
      if crane == 0 {
        conn := Disconnected;
        Enter(k, command, m, since, before);
        return -1;
      }
      var packet := ActionPacket(next, command);
      sent := sent + [Send(crane, packet)];
      Enter(k, command, m, since, before);
      r := Attempts(packet, k, m, since);
    }

    /** The retry loop of crane_action, and the disconnect when the attempts are used up. */
    method Attempts(packet: Packet, ghost k: Caller, ghost m: Machine, ghost since: nat) returns (r: int)
      requires Valid() && Followed(m, since) && model.task == Await(k, packet, 0)
      modifies this
      ensures Valid() && Followed(m, since) && r == model.result
      ensures model.task == Gone(AfterFailure(k, r))
    {
      hide DeliverAll; hide Turn; hide Forward; hide Reachable; hide Waited; hide Limit;
      ghost var before := model;
      var attempt := 0;
      while attempt < ATTEMPTS
        invariant attempt <= ATTEMPTS
        invariant attempt < ATTEMPTS ==> Valid() && Followed(m, since) && model.task == Await(k, packet, attempt)
        invariant attempt == ATTEMPTS ==> Exhausted(k, before, m, since)
      {
        var over;
        over, r, before := Try(packet, attempt, k, m, since);
        if over { return; }
        attempt := attempt + 1;
      }
      Disconnect(before, AfterFailure(k, -1), Coming(), m, since);
      return -1;
    }

    /** crane_action from the command line. */
    method Action(command: uint8) returns (r: int)
      requires Valid() && model.task == Prompt
      modifies this
      ensures Valid() && model.task == Prompt && r == model.result
      ensures Followed(Step(old(model), Command(command)), old(turns))
    {
      r := Perform(command, Cli, Step(model, Command(command)), turns);
    }

    // ----- The test -----

    method WaitUntilIdle(ghost pos: nat, ghost m: Machine, ghost since: nat)
      requires Halfway(m, since) && model.task == Ready(pos) && pos < |SCRIPT| && SCRIPT[pos] == Pause
      modifies this
      ensures Valid() && Followed(m, since) && model.task == Ready(pos + 1)
    {
      hide DeliverAll; hide Turn; hide Forward; hide Reachable; hide Waited; hide Limit;
      var i := 0;
      while i < SETTLES
        invariant i <= SETTLES
        invariant Halfway(m, since) && model.task == if i == 0 then Ready(pos) else Settle(pos, i - 1)
      {
        Looks(model, At(arrivals, turns - 1), pos, i);
        if backlog == 0 {
          CatchUp(m, since);
          return;
        }
        CatchUp(m, since);
        Block(m, since);
        i := i + 1;
      }
      Looks(model, At(arrivals, turns - 1), pos, i);
      CatchUp(m, since);
    }

    /** An item of the script that is an action. The receive task may run before it. */
    method Item(command: uint8, ghost pos: nat, ghost m: Machine, ghost since: nat)
      requires Valid() && Followed(m, since) && model.task == Ready(pos)
      requires pos < |SCRIPT| && SCRIPT[pos] == Act(command)
      modifies this
      ensures Valid() && Followed(m, since) && model.task == Ready(pos + 1)
    {
      Block(m, since);
      var _ := Perform(command, Script(pos), m, since);
    }

    method Idle(ghost pos: nat, ghost m: Machine, ghost since: nat)
      requires Valid() && Followed(m, since) && model.task == Ready(pos)
      requires pos < |SCRIPT| && SCRIPT[pos] == Pause
      modifies this
      ensures Valid() && Followed(m, since) && model.task == Ready(pos + 1)
    {
      Block(m, since);
      WaitUntilIdle(pos, m, since);
    }

    /** crane_test. */
    method Test(id: uint8)
      requires Valid() && model.task == Prompt
      modifies this
      ensures Valid() && model.task == Prompt
      ensures Followed(Step(old(model), Event.Test(id)), old(turns))
    {
      hide DeliverAll; hide Turn; hide Reachable; hide Waited; hide Limit;
      crane := id;
      conn := Disconnected;
      next := 0;
      crane := id;
      conn := Handshake;
      next := 0;
      sent := sent + [Send(id, Packet(CONNECT, SYN + TEST, 0, 0))];
      ReachableStep(model, Event.Test(id));
      model := Step(model, Event.Test(id));
      ghost var m, since := model, turns;
      Greet(m, since);
      if conn != Connected { return; }
      RunScript(m, since);
    }

    /** Waits up to three seconds for the handshake. */
    method Greet(ghost m: Machine, ghost since: nat)
      requires Valid() && Followed(m, since) && model.task == Greeting(0) && conn != Connected
      modifies this
      ensures Valid() && Followed(m, since)
      ensures model.task == if conn == Connected then Ready(0) else Prompt
    {
      hide DeliverAll; hide Turn; hide Forward; hide Reachable; hide Waited; hide Limit;
      var i := 0;
      while i < GREETINGS && conn != Connected
        invariant i <= GREETINGS && Valid() && Followed(m, since)
        invariant model.task == if conn == Connected then Ready(0) else if i < GREETINGS then Greeting(i) else Prompt
      {
        Block(m, since);
        HandshakeWaits(model, At(arrivals, turns - 1), i);
        CatchUp(m, since);
        i := i + 1;
      }
    }

    /** The test sequence, and the disconnect at its end. */
    method RunScript(ghost m: Machine, ghost since: nat)
      requires Valid() && Followed(m, since) && model.task == Ready(0)
      modifies this
      ensures Valid() && Followed(m, since) && model.task == Prompt
    {
      hide DeliverAll; hide Turn; hide Forward; hide Reachable; hide Waited; hide Limit; hide Valid; hide Followed;
      Item(LIGHT_ON, 0, m, since);
      Item(FWD, 1, m, since);
      Item(FWD, 2, m, since);
      Item(REV, 3, m, since);
      Idle(4, m, since);
      Item(DOWN, 5, m, since);
      Item(DOWN, 6, m, since);
      Idle(7, m, since);
      Item(UP, 8, m, since);
      Item(UP, 9, m, since);
      Item(REV, 10, m, since);
      Item(LIGHT_OFF, 11, m, since);
      Idle(12, m, since);
      Finish(m, since);
    }

    method Finish(ghost m: Machine, ghost since: nat)
      requires Valid() && Followed(m, since) && model.task == Ready(|SCRIPT|)
      modifies this
      ensures Valid() && Followed(m, since) && model.task == Prompt
    {
      hide DeliverAll; hide Turn; hide Forward; hide Reachable; hide Waited; hide Limit; hide Leave;
      Block(m, since);
      ScriptCalls(model, At(arrivals, turns - 1));
      ComingIsNext(m, since);
      Disconnect(Judging(model, At(arrivals, turns - 1)), ScriptDone, Coming(), m, since);
    }
  }
}
