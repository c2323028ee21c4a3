/** The crane control client as a machine. The command line task runs in atomic blocks between its
    blocking points; handlers of the receive task run between any two of these blocks. */
module CraneMachine {
  import opened MachineTypes

  // ----- Packets -----

  const CONNECT: uint8 := 0x01
  const STATUS: uint8 := 0x02
  const ACTION: uint8 := 0x03
  const CLOSE: uint8 := 0x04

  const SYN: uint8 := 1
  const ACK: uint8 := 2
  const NAK: uint8 := 4
  const TEST: uint8 := 8

  const FWD: uint8 := 0x02
  const REV: uint8 := 0x03
  const UP: uint8 := 0x04
  const DOWN: uint8 := 0x05
  const LIGHT_ON: uint8 := 0x06
  const LIGHT_OFF: uint8 := 0x07

  /** `data` is the union: the challenge is the whole word, the command of an ACTION and the
      backlog of a STATUS are its low byte. */
  datatype Packet = Packet(kind: uint8, flags: uint8, number: uint16, data: uint32)

  datatype Send = Send(to: uint8, packet: Packet)

  predicate Has(flags: uint8, bit: uint8)
    requires bit > 0
  {
    flags / bit % 2 == 1
  }

  function LowByte(data: uint32): uint8 {
    data % 0x100
  }

  function ActionPacket(number: uint16, command: uint8): Packet {
    Packet(ACTION, 0, number, command)
  }

  // ----- The receive task -----

  datatype Conn = Disconnected | Handshake | Connected

  const QUEUE_SIZE := 8

  /** `next` is the sequence number of the next action, `acks` the queue between the two tasks. */
  datatype Client = Client(next: uint16, crane: uint8, acks: seq<uint16>, conn: Conn, lastStatus: uint16, backlog: uint8)

  function Answer(crane: uint8, p: Packet): Send {
    Send(crane, Packet(CONNECT, ACK + (if Has(p.flags, TEST) then TEST else 0), 0, 0xFFFF_FFFF - p.data))
  }

  predicate Opens(c: Client, p: Packet) {
    c.conn == Handshake && Has(p.flags, SYN) && Has(p.flags, ACK)
  }

  function RecvConnect(c: Client, p: Packet): (Client, seq<Send>) {
    if Opens(c, p) then (c.(next := 1, conn := Connected), [Answer(c.crane, p)]) else (c, [])
  }

  function RecvClose(c: Client): Client {
    c.(next := 0, conn := Disconnected, crane := 0)
  }

  function RecvStatus(c: Client, p: Packet): Client {
    if Has(p.flags, NAK) then c
    else
      var acks := if p.number != 0 && p.number != 0xFFFF && |c.acks| < QUEUE_SIZE then c.acks + [p.number] else c.acks;
      c.(acks := acks, lastStatus := p.number, backlog := LowByte(p.data))
  }

  function Receive(c: Client, p: Packet): (Client, seq<Send>) {
    if p.kind == CONNECT then RecvConnect(c, p)
    else if p.kind == STATUS then (RecvStatus(c, p), [])
    else if p.kind == CLOSE then (RecvClose(c), [])
    else (c, [])
  }

  // ----- The command line task -----

  datatype Item = Act(command: uint8) | Pause

  /** The test pattern. */
  const SCRIPT: seq<Item> := [Act(LIGHT_ON), Act(FWD), Act(FWD), Act(REV), Pause,
                              Act(DOWN), Act(DOWN), Pause,
                              Act(UP), Act(UP), Act(REV), Act(LIGHT_OFF), Pause]

  /** Who called crane_action: the command line, or the test at one item of its script. */
  datatype Caller = Cli | Script(pos: nat)

  datatype Why = ByUser | AfterFailure(caller: Caller, code: int) | ScriptDone

  /** Where the command line task is. */
  datatype Task =
    | Prompt
    | Greeting(i: nat)                                                            // in delay i of the test handshake
    | Ready(pos: nat)                                                             // between two script items
    | Settle(pos: nat, i: nat)                                                    // in delay i of a script pause
    | Await(caller: Caller, packet: Packet, attempt: nat)                         // first receive of read_acks
    | Drain(caller: Caller, packet: Packet, attempt: nat, best: uint16)           // drain loop of read_acks
    | Hangup(why: Why)                                                            // delay of crane_disconnect

  /** What a call of read_acks returned, and the client's sequence number at that moment. */
  datatype Read = Read(value: uint16, number: uint16)

  const ATTEMPTS := 5
  const READ_MS := 5000
  const CLOSE_MS := 500
  const TICK_MS := 100
  const GREETINGS := 30
  const SETTLES := 100

  /** The client, the task, and a history: what was sent before (`past`) and in this connection (`wire`),
      the commands acknowledged in this connection, the one command begun and not acknowledged, the
      return codes of the last action and of the actions of the last test, the blocking time spent,
      when the last test began, where in `wire` the last action began with how many empty reads, the
      acknowledgements the last read took from the queue, all reads of the last action, and the delays spent
      in the last pause or the last wait for a handshake. */
  datatype Machine = Machine(c: Client, task: Task, past: seq<Send>, wire: seq<Send>,
                             acked: seq<uint8>, pending: Option<uint8>, result: int, report: seq<int>,
                             clock: nat, begun: nat, mark: nat, empties: nat, drained: seq<uint16>,
                             readings: seq<Read>, delays: nat)

  datatype Event =
    | Deliver(packet: Packet)      // the receive task handles a packet
    | Resume(waited: nat)          // the command line task goes on after blocking for some milliseconds
    | Open(id: uint8)
    | Close
    | Test(id: uint8)
    | Command(command: uint8)

  const INITIAL: Machine :=
    Machine(Client(0, 0, [], Disconnected, 0, 0), Prompt, [], [], [], None, 0, [], 0, 0, 0, 0, [], [], 0)

  function Limit(t: Task): nat {
    match t
    case Await(_, _, _) => READ_MS
    case Hangup(_) => CLOSE_MS
    case Greeting(_) => TICK_MS
    case Settle(_, _) => TICK_MS
    case _ => 0
  }

  predicate Enabled(m: Machine, e: Event) {
    match e
    case Deliver(_) => true
    case Resume(waited) => m.task != Prompt && waited <= Limit(m.task)
    case _ => m.task == Prompt
  }

  function Transmit(m: Machine, packet: Packet): Machine {
    m.(wire := m.wire + [Send(m.c.crane, packet)])
  }

  /** Sending a SYN starts a connection. */
  function Greet(m: Machine, id: uint8, flags: uint8): Machine {
    m.(c := m.c.(crane := id, conn := Handshake, next := 0), past := m.past + m.wire,
       wire := [Send(id, Packet(CONNECT, flags, 0, 0))], acked := [], pending := None)
  }

  function Return(m: Machine, k: Caller, code: int): Machine {
    var m := m.(result := code);
    match k
    case Cli => m.(task := Prompt)
    case Script(pos) => m.(task := Ready(pos + 1), report := m.report + [code])
  }

  /** crane_action up to its first blocking point. */
  function Begin(m: Machine, k: Caller, command: uint8): Machine {
    if m.c.conn != Connected then Return(m, k, -1)
    else if m.c.crane == 0 then Return(m.(c := m.c.(conn := Disconnected)), k, -1)
    else
      var packet := ActionPacket(m.c.next, command);
      Transmit(m, packet).(task := Await(k, packet, 0), pending := Some(command), mark := |m.wire|, empties := 0, readings := [])
  }

  /** crane_disconnect up to its delay. */
  function Leave(m: Machine, why: Why): Machine {
    Transmit(m, Packet(CLOSE, 0, m.c.next, 0)).(task := Hangup(why))
  }

  function Retry(m: Machine, k: Caller, packet: Packet, attempt: nat): Machine {
    if attempt + 1 < ATTEMPTS then m.(task := Await(k, packet, attempt + 1)) else Leave(m, AfterFailure(k, -1))
  }

  /** crane_action from the return of read_acks to its next blocking point. */
  function Judge(m: Machine, k: Caller, packet: Packet, attempt: nat, ack: uint16): Machine {
    if ack == 0 then Retry(Transmit(m, packet).(empties := m.empties + 1), k, packet, attempt)
    else if ack == 0xFFFF then Retry(m, k, packet, attempt)
    else if ack > m.c.next then Leave(m, AfterFailure(k, -2))
    else if ack == m.c.next then
      Return(m.(c := m.c.(next := (m.c.next + 1) % 0x1_0000), acked := m.acked + [LowByte(packet.data)], pending := None), k, 0)
    else Retry(m, k, packet, attempt)
  }

  function Left(m: Machine, why: Why): Machine {
    var m := m.(c := m.c.(conn := Disconnected, next := 0));
    match why
    case ByUser => m.(task := Prompt)
    case AfterFailure(k, code) => Return(m, k, code)
    case ScriptDone => m.(task := Prompt)
  }

  function Follow(m: Machine, pos: nat): Machine {
    if pos >= |SCRIPT| then Leave(m, ScriptDone)
    else match SCRIPT[pos]
      case Act(command) => Begin(m, Script(pos), command)
      case Pause => Look(m, pos, 0)
  }

  /** The head of the wait-until-idle loop. */
  function Look(m: Machine, pos: nat, i: nat): Machine {
    if i < SETTLES && m.c.backlog != 0 then m.(task := Settle(pos, i)) else m.(task := Ready(pos + 1))
  }

  /** The head of the loop that waits for the test handshake. */
  function Greeted(m: Machine, i: nat): Machine {
    if i < GREETINGS && m.c.conn != Connected then m.(task := Greeting(i))
    else if m.c.conn != Connected then m.(task := Prompt)
    else m.(task := Ready(0))
  }

  /** One atomic block of the command line task. */
  function Go(m: Machine): Machine {
    match m.task
    case Prompt => m
    case Greeting(i) => Greeted(m, i + 1)
    case Ready(pos) => Follow(m, pos)
    case Settle(pos, i) => Look(m, pos, i + 1)
    case Await(k, packet, attempt) =>
      if m.c.acks == [] then m.(task := Drain(k, packet, attempt, 0), drained := [])
      else m.(c := m.c.(acks := m.c.acks[1..]), task := Drain(k, packet, attempt, m.c.acks[0]), drained := [m.c.acks[0]])
    case Drain(k, packet, attempt, best) =>
      if m.c.acks == [] then Judge(m, k, packet, attempt, best)
      else
        var best: uint16 := if best >= m.c.acks[0] then best else m.c.acks[0];
        m.(c := m.c.(acks := m.c.acks[1..]), task := Drain(k, packet, attempt, best), drained := m.drained + [m.c.acks[0]])
    case Hangup(why) => Left(m, why)
  }

  /** What the history notes when the task goes on: the time, the delay that is over, the read that is complete. */
  function Noted(m: Machine, waited: nat): Machine {
    m.(clock := m.clock + waited,
       delays := if m.task.Greeting? || m.task.Settle? then m.delays + 1 else if m.task.Ready? then 0 else m.delays,
       readings := if m.task.Drain? && m.c.acks == [] then m.readings + [Read(m.task.best, m.c.next)] else m.readings)
  }

  function Step(m: Machine, e: Event): Machine {
    match e
    case Deliver(packet) =>
      var (c, answers) := Receive(m.c, packet);
      m.(c := c, wire := m.wire + answers)
    case Resume(waited) => Go(Noted(m, waited))
    case Open(id) => if m.c.conn != Disconnected then m else Greet(m, id, SYN)
    case Close => Leave(m, ByUser)
    case Test(id) => Greet(m, id, SYN + TEST).(task := Greeting(0), report := [], begun := m.clock, delays := 0)
    case Command(command) => Begin(m, Cli, command)
  }

  // ----- Runs -----

  /** The machine after the events of a run from the initial state. */
  ghost function Exec(run: seq<Event>): Machine {
    if run == [] then INITIAL else Step(Exec(run[..|run| - 1]), run[|run| - 1])
  }

  ghost predicate IsRun(run: seq<Event>) {
    run != [] ==> IsRun(run[..|run| - 1]) && Enabled(Exec(run[..|run| - 1]), run[|run| - 1])
  }

  ghost predicate Reachable(m: Machine) {
    exists run :: IsRun(run) && Exec(run) == m
  }

  lemma {:induction false} RunExtends(run: seq<Event>, e: Event)
    requires IsRun(run) && Enabled(Exec(run), e)
    ensures IsRun(run + [e]) && Exec(run + [e]) == Step(Exec(run), e)
  {
    assert (run + [e])[..|run|] == run;
  }
}
