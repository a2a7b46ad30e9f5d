/** ps2_keyboard.c: the command queue and the acknowledgement protocol, as a state machine. */
module Keyboard {
  import opened Words

  const QUEUE_SIZE: nat := 8
  /** Stub argument of a command that has none. */
  const NO_ARG: Byte := 0xFF
  const RESEND: Byte := 0xFE
  const SET_SCAN_SET: Byte := 0xF0

  datatype Command = Command(com: Byte, arg: Byte)

  datatype Phase = Ready | WaitCom | WaitArg

  /** A byte written to port 1; `again` if it repeats one the keyboard asked for again. */
  datatype Write = Write(byte: Byte, again: bool)

  /** All commands accepted so far, how many are finished, and what was written. */
  datatype Driver = Driver(accepted: seq<Command>, done: nat, phase: Phase, sent: seq<Write>, scanSet: nat)

  const INITIAL := Driver([], 0, Ready, [], 1)

  /** A caller's command, or a byte from the keyboard with what a further read would give. */
  datatype Event = Request(com: Byte, arg: Byte) | Input(data: Byte, reply: Byte)

  predicate HasArg(c: Command) {
    c.arg != NO_ARG
  }

  function Queue(d: Driver): seq<Command> {
    if d.done <= |d.accepted| then d.accepted[d.done..] else []
  }

  // ---------- The steps

  /** ps2_kbd_command_arg */
  function Submit(d: Driver, com: Byte, arg: Byte): Driver {
    if |Queue(d)| >= QUEUE_SIZE then d
    else
      var added := d.(accepted := d.accepted + [Command(com, arg)]);
      var started :=
        if |Queue(added)| == 1 then added.(phase := WaitCom, sent := added.sent + [Write(com, false)]) else added;
      if com == SET_SCAN_SET && arg != 0 && |Queue(started)| < QUEUE_SIZE
      then started.(accepted := started.accepted + [Command(SET_SCAN_SET, 0)])
      else started
  }

  /** handle_next_command */
  function Next(d: Driver): Driver {
    var rest := d.(done := d.done + 1);
    if Queue(rest) != []
    then rest.(phase := WaitCom, sent := rest.sent + [Write(Queue(rest)[0].com, false)])
    else rest.(phase := Ready)
  }

  /** The scan code set a keyboard's answer names, if any. */
  function NamedSet(scanSet: nat, reply: Byte): nat {
    if reply == 0x43 then 1 else if reply == 0x41 then 2 else if reply == 0x3f then 3 else scanSet
  }

  /** keyboard_handler while a command is under way; in Ready the byte belongs to the decoder. */
  function Receive(d: Driver, data: Byte, reply: Byte): Driver {
    if d.phase == Ready || Queue(d) == [] then d
    else
      var c := Queue(d)[0];
      match d.phase
      case Ready => d
      case WaitCom =>
        if data == RESEND then d.(sent := d.sent + [Write(c.com, true)])
        else if HasArg(c) then d.(phase := WaitArg, sent := d.sent + [Write(c.arg, false)])
        else Next(d)
      case WaitArg =>
        if data == RESEND then d.(sent := d.sent + [Write(c.arg, true)])
        else
          Next(if c.com == SET_SCAN_SET && c.arg == 0 then d.(scanSet := NamedSet(d.scanSet, reply)) else d)
  }

  function Step(d: Driver, e: Event): Driver {
    match e
    case Request(com, arg) => Submit(d, com, arg)
    case Input(data, reply) => Receive(d, data, reply)
  }

  function Run(d: Driver, events: seq<Event>): Driver
    decreases |events|
  {
    if events == [] then d else Run(Step(d, events[0]), events[1..])
  }

  // ---------- What every run keeps

  /** A command's bytes on the wire. */
  function WireBytes(c: Command): seq<Byte> {
    if HasArg(c) then [c.com, c.arg] else [c.com]
  }

  function Flatten(cs: seq<Command>): seq<Byte> {
    if cs == [] then [] else Flatten(cs[..|cs| - 1]) + WireBytes(cs[|cs| - 1])
  }

  /** The written bytes without retransmissions. */
  function FirstSent(ws: seq<Write>): seq<Byte> {
    if ws == [] then []
    else FirstSent(ws[..|ws| - 1]) + (if ws[|ws| - 1].again then [] else [ws[|ws| - 1].byte])
  }

  /** The current command's bytes written so far. */
  function Current(d: Driver): seq<Byte> {
    if Queue(d) == [] then []
    else match d.phase
      case Ready => []
      case WaitCom => [Queue(d)[0].com]
      case WaitArg => [Queue(d)[0].com, Queue(d)[0].arg]
  }

  /** Ready exactly when the queue is empty, an argument is awaited only of a command that has one,
      and what was written is the finished commands in order, then the current one's beginning. */
  ghost predicate Consistent(d: Driver) {
    && d.done <= |d.accepted| <= d.done + QUEUE_SIZE
    && (d.phase == Ready <==> Queue(d) == [])
    && (d.phase == WaitArg ==> HasArg(Queue(d)[0]))
    && FirstSent(d.sent) == Flatten(d.accepted[..d.done]) + Current(d)
  }

  lemma FirstSentGrows(ws: seq<Write>, w: Write)
    ensures FirstSent(ws + [w]) == FirstSent(ws) + if w.again then [] else [w.byte]
  {}

  lemma FlattenGrows(cs: seq<Command>, c: Command)
    ensures Flatten(cs + [c]) == Flatten(cs) + WireBytes(c)
  {}

  /** A longer tail of waiting commands changes nothing about the ones before it. */
  lemma AppendKeeps(d: Driver, c: Command)
    requires Consistent(d) && Queue(d) != [] && |d.accepted| < d.done + QUEUE_SIZE
    ensures Consistent(d.(accepted := d.accepted + [c]))
  {
    var d' := d.(accepted := d.accepted + [c]);
    assert d'.accepted[..d.done] == d.accepted[..d.done];
    assert Queue(d') == Queue(d) + [c];
  }

  lemma StartKeeps(d: Driver, c: Command)
    requires Consistent(d) && Queue(d) == []
    ensures var d' := d.(accepted := d.accepted + [c], phase := WaitCom, sent := d.sent + [Write(c.com, false)]);
      Consistent(d') && Queue(d') == [c]
  {
    var d' := d.(accepted := d.accepted + [c], phase := WaitCom, sent := d.sent + [Write(c.com, false)]);
    assert d'.accepted[..d.done] == d.accepted[..d.done];
    assert Queue(d') == [c];
    FirstSentGrows(d.sent, Write(c.com, false));
  }

  lemma SubmitKeeps(d: Driver, com: Byte, arg: Byte)
    requires Consistent(d)
    ensures Consistent(Submit(d, com, arg))
  {
    if |Queue(d)| < QUEUE_SIZE {
      var c := Command(com, arg);
      if Queue(d) == [] {
        StartKeeps(d, c);
        var d' := d.(accepted := d.accepted + [c], phase := WaitCom, sent := d.sent + [Write(com, false)]);
        AppendKeeps(d', Command(SET_SCAN_SET, 0));
      } else {
        AppendKeeps(d, c);
        var d' := d.(accepted := d.accepted + [c]);
        assert Queue(d') == Queue(d) + [c];
        if |Queue(d')| < QUEUE_SIZE {
          AppendKeeps(d', Command(SET_SCAN_SET, 0));
        }
      }
    }
  }

  /** A scan-set command is followed by the query for the new set exactly when two slots were free. */
  lemma QueryFollowsIff(d: Driver, arg: Byte)
    requires Consistent(d) && arg != 0
    ensures
      var pair := [Command(SET_SCAN_SET, arg), Command(SET_SCAN_SET, 0)];
      Submit(d, SET_SCAN_SET, arg).accepted == d.accepted + pair <==> |Queue(d)| + 2 <= QUEUE_SIZE
  {}

  /** Once the current command's bytes are out, the next one starts or the driver is ready. */
  lemma NextKeeps(d: Driver)
    requires Consistent(d) && d.phase != Ready && Current(d) == WireBytes(Queue(d)[0])
    ensures Consistent(Next(d))
  {
    var c, rest := Queue(d)[0], d.(done := d.done + 1);
    assert d.accepted[..d.done + 1] == d.accepted[..d.done] + [c];
    FlattenGrows(d.accepted[..d.done], c);
    assert Queue(rest) == Queue(d)[1..];
    if Queue(rest) != [] {
      FirstSentGrows(d.sent, Write(Queue(rest)[0].com, false));
    }
  }

  lemma ReceiveKeeps(d: Driver, data: Byte, reply: Byte)
    requires Consistent(d)
    ensures Consistent(Receive(d, data, reply))
  {
    hide Flatten, FirstSent, Next;
    if d.phase != Ready {
      var c := Queue(d)[0];
      if data == RESEND {
        FirstSentGrows(d.sent, Write(if d.phase == WaitCom then c.com else c.arg, true));
      } else if d.phase == WaitCom && HasArg(c) {
        FirstSentGrows(d.sent, Write(c.arg, false));
      } else if d.phase == WaitCom {
        NextKeeps(d);
      } else {
        NextKeeps(if c.com == SET_SCAN_SET && c.arg == 0 then d.(scanSet := NamedSet(d.scanSet, reply)) else d);
      }
    }
  }

  /** Whatever commands and bytes arrive, the driver stays consistent. */
  lemma {:induction false} RunKeeps(d: Driver, events: seq<Event>)
    requires Consistent(d)
    ensures Consistent(Run(d, events))
    decreases |events|
  {
    if events != [] {
      match events[0] {
        case Request(com, arg) => SubmitKeeps(d, com, arg);
        case Input(data, reply) => ReceiveKeeps(d, data, reply);
      }
      RunKeeps(Step(d, events[0]), events[1..]);
    }
  }

  /** From power-up, every run writes the accepted commands in order, retransmissions aside. */
  lemma RunWritesInOrder(events: seq<Event>)
    ensures var d := Run(INITIAL, events);
      && d.done <= |d.accepted|
      && FirstSent(d.sent) == Flatten(d.accepted[..d.done]) + Current(d)
      && (d.phase == Ready <==> d.done == |d.accepted|)
  {
    assert Consistent(INITIAL);
    RunKeeps(INITIAL, events);
  }

  // ---------- Back to Ready

  /** Bytes the keyboard has still to acknowledge. */
  function Outstanding(d: Driver): nat {
    |Flatten(Queue(d))| - if d.phase == WaitArg && Queue(d) != [] then 1 else 0
  }

  lemma {:induction false} FlattenHead(cs: seq<Command>)
    requires cs != []
    ensures Flatten(cs) == WireBytes(cs[0]) + Flatten(cs[1..])
    decreases |cs|
  {
    if |cs| > 1 {
      FlattenHead(cs[..|cs| - 1]);
      assert cs[..|cs| - 1][1..] == cs[1..][..|cs| - 2];
    }
  }

  lemma ReadyIffNoneOutstanding(d: Driver)
    requires Consistent(d)
    ensures d.phase == Ready <==> Outstanding(d) == 0
  {
    if Queue(d) != [] {
      FlattenHead(Queue(d));
    }
  }

  /** Every byte but RESEND acknowledges one outstanding byte; RESEND none. */
  lemma ReceiveCounts(d: Driver, data: Byte, reply: Byte)
    requires Consistent(d)
    ensures Outstanding(Receive(d, data, reply)) ==
      if data == RESEND || Outstanding(d) == 0 then Outstanding(d) else Outstanding(d) - 1
  {
    hide Flatten, FirstSent;
    ReadyIffNoneOutstanding(d);
    if d.phase != Ready {
      FlattenHead(Queue(d));
      assert Queue(d.(done := d.done + 1)) == Queue(d)[1..];
    }
  }

  function Acknowledging(events: seq<Event>): nat {
    if events == [] then 0
    else (if events[0].Input? && events[0].data != RESEND then 1 else 0) + Acknowledging(events[1..])
  }

  /** With no new commands the driver is ready again exactly from the moment as many bytes other
      than RESEND have come in as were outstanding. */
  lemma {:induction false} ReadyAfterExactly(d: Driver, events: seq<Event>)
    requires Consistent(d) && forall i :: 0 <= i < |events| ==> events[i].Input?
    ensures Run(d, events).phase == Ready <==> Acknowledging(events) >= Outstanding(d)
    decreases |events|
  {
    if events == [] {
      ReadyIffNoneOutstanding(d);
    } else {
      var e := events[0];
      ReceiveCounts(d, e.data, e.reply);
      ReceiveKeeps(d, e.data, e.reply);
      ReadyAfterExactly(Step(d, e), events[1..]);
    }
  }

  // ---------- Retransmissions

  /** The byte the keyboard is to acknowledge next. */
  function Awaited(d: Driver): Byte
    requires Queue(d) != []
  {
    if d.phase == WaitArg then Queue(d)[0].arg else Queue(d)[0].com
  }

  /** While a command is under way, the last byte written is the one awaited. */
  predicate LastIsAwaited(d: Driver) {
    d.phase != Ready && Queue(d) != [] ==> d.sent != [] && d.sent[|d.sent| - 1].byte == Awaited(d)
  }

  /** Every repeated byte is the byte written just before it. */
  predicate RepeatsLast(ws: seq<Write>) {
    forall i :: 0 <= i < |ws| && ws[i].again ==> i > 0 && ws[i].byte == ws[i - 1].byte
  }

  /** RESEND while a command is under way writes the last byte once more and changes nothing else. */
  lemma ResendRepeats(d: Driver, reply: Byte)
    requires Consistent(d) && d.phase != Ready && LastIsAwaited(d)
    ensures d.sent != []
    ensures Receive(d, RESEND, reply) == d.(sent := d.sent + [Write(d.sent[|d.sent| - 1].byte, true)])
  {
    hide Flatten, FirstSent;
  }

  lemma SubmitRepeats(d: Driver, com: Byte, arg: Byte)
    requires Consistent(d) && LastIsAwaited(d) && RepeatsLast(d.sent)
    ensures LastIsAwaited(Submit(d, com, arg)) && RepeatsLast(Submit(d, com, arg).sent)
  {
    hide Flatten, FirstSent;
    var d' := Submit(d, com, arg);
    assert Queue(d) != [] ==> Queue(d')[0] == Queue(d)[0];
  }

  lemma AppendRepeats(ws: seq<Write>, w: Write)
    requires RepeatsLast(ws) && (w.again ==> ws != [] && ws[|ws| - 1].byte == w.byte)
    ensures RepeatsLast(ws + [w])
  {}

  lemma NextRepeats(d: Driver)
    requires RepeatsLast(d.sent)
    ensures LastIsAwaited(Next(d)) && RepeatsLast(Next(d).sent)
  {
    hide RepeatsLast;
    var rest := d.(done := d.done + 1);
    if Queue(rest) != [] {
      AppendRepeats(d.sent, Write(Queue(rest)[0].com, false));
    }
  }

  lemma ReceiveRepeats(d: Driver, data: Byte, reply: Byte)
    requires Consistent(d) && LastIsAwaited(d) && RepeatsLast(d.sent)
    ensures LastIsAwaited(Receive(d, data, reply)) && RepeatsLast(Receive(d, data, reply).sent)
  {
    hide Consistent, RepeatsLast, Next;
    if d.phase != Ready && Queue(d) != [] {
      var c := Queue(d)[0];
      if data == RESEND {
        AppendRepeats(d.sent, Write(Awaited(d), true));
      } else if d.phase == WaitCom && HasArg(c) {
        AppendRepeats(d.sent, Write(c.arg, false));
      } else if d.phase == WaitCom {
        NextRepeats(d);
      } else {
        NextRepeats(if c.com == SET_SCAN_SET && c.arg == 0 then d.(scanSet := NamedSet(d.scanSet, reply)) else d);
      }
    }
  }

  lemma {:induction false} RunRepeats(d: Driver, events: seq<Event>)
    requires Consistent(d) && LastIsAwaited(d) && RepeatsLast(d.sent)
    ensures LastIsAwaited(Run(d, events)) && RepeatsLast(Run(d, events).sent)
    decreases |events|
  {
    hide Consistent, LastIsAwaited, RepeatsLast, Submit, Receive;
    if events != [] {
      match events[0] {
        case Request(com, arg) =>
          SubmitKeeps(d, com, arg);
          SubmitRepeats(d, com, arg);
        case Input(data, reply) =>
          ReceiveKeeps(d, data, reply);
          ReceiveRepeats(d, data, reply);
      }
      RunRepeats(Step(d, events[0]), events[1..]);
    }
  }

  /** From power-up, on every run each retransmission repeats the byte just before it, and while a
      command is under way the last byte written is the one RESEND would repeat. */
  lemma RunRepeatsLast(events: seq<Event>)
    ensures RepeatsLast(Run(INITIAL, events).sent) && LastIsAwaited(Run(INITIAL, events))
  {
    assert Consistent(INITIAL);
    RunRepeats(INITIAL, events);
  }

  // ---------- Which commands are accepted

  /** What a request adds to the accepted commands when n are pending: itself unless the queue is full,
      and the query for the new set behind a scan-set command while there is still room. */
  function Taken(n: nat, com: Byte, arg: Byte): seq<Command> {
    if n >= 8 then []
    else if com == 0xF0 && arg != 0 && n < 7 then [Command(com, arg), Command(0xF0, 0)]
    else [Command(com, arg)]
  }

  /** A request is accepted exactly as Taken says, the commands pending before it staying as they are. */
  lemma SubmitTakes(d: Driver, com: Byte, arg: Byte)
    requires Consistent(d)
    ensures var d' := Submit(d, com, arg);
      && d'.accepted == d.accepted + Taken(|Queue(d)|, com, arg) && d'.done == d.done && d'.scanSet == d.scanSet
      && (if |Queue(d)| >= QUEUE_SIZE then d' == d else d.accepted + [Command(com, arg)] <= d'.accepted)
      && d'.sent == d.sent + if Queue(d) == [] then [Write(com, false)] else []
  {
    hide Flatten, FirstSent;
  }

  /** Acknowledgements each pending command still needs, oldest first, from the events alone. */
  function Needs(pending: seq<nat>, e: Event): seq<nat> {
    match e
    case Request(com, arg) => pending + Lengths(Taken(|pending|, com, arg))
    case Input(data, _) =>
      if pending == [] || data == RESEND then pending
      else if pending[0] <= 1 then pending[1..]
      else [pending[0] - 1] + pending[1..]
  }

  function Lengths(cs: seq<Command>): seq<nat> {
    if cs == [] then [] else [|WireBytes(cs[0])|] + Lengths(cs[1..])
  }

  /** The commands a sequence of events gets accepted, counting the pending ones from the events alone. */
  function TakenBy(pending: seq<nat>, events: seq<Event>): seq<Command>
    decreases |events|
  {
    if events == [] then []
    else
      (if events[0].Request? then Taken(|pending|, events[0].com, events[0].arg) else [])
      + TakenBy(Needs(pending, events[0]), events[1..])
  }

  /** What the driver's queue still needs. */
  function Remaining(d: Driver): seq<nat> {
    var lengths := Lengths(Queue(d));
    if d.phase == WaitArg && lengths != [] && lengths[0] > 0 then [lengths[0] - 1] + lengths[1..] else lengths
  }

  lemma {:induction false} LengthsOf(cs: seq<Command>, more: seq<Command>)
    ensures |Lengths(cs)| == |cs| && Lengths(cs + more) == Lengths(cs) + Lengths(more)
  {
    if cs == [] {
      assert cs + more == more;
    } else {
      assert (cs + more)[1..] == cs[1..] + more;
      LengthsOf(cs[1..], more);
    }
  }

  /** What each phase leaves to be acknowledged of the oldest command. */
  lemma RemainingIs(d: Driver)
    requires Consistent(d)
    ensures |Remaining(d)| == |Queue(d)|
    ensures Queue(d) != [] ==>
      && Remaining(d)[0] == (if d.phase == WaitCom && HasArg(Queue(d)[0]) then 2 else 1)
      && Remaining(d)[1..] == Lengths(Queue(d)[1..])
  {
    hide Flatten, FirstSent;
    LengthsOf(Queue(d), []);
    assert Queue(d) + [] == Queue(d);
  }

  lemma RemainingDetermined(d: Driver, pending: seq<nat>)
    requires Consistent(d) && |pending| == |Queue(d)|
    requires pending != [] ==>
      && pending[0] == (if d.phase == WaitCom && HasArg(Queue(d)[0]) then 2 else 1)
      && pending[1..] == Lengths(Queue(d)[1..])
    ensures Remaining(d) == pending
  {
    hide Consistent, Remaining, Lengths;
    RemainingIs(d);
    if pending != [] {
      assert pending == [pending[0]] + pending[1..] && Remaining(d) == [Remaining(d)[0]] + Remaining(d)[1..];
    }
  }

  lemma RemainingAfterSubmit(d: Driver, com: Byte, arg: Byte)
    requires Consistent(d)
    ensures Remaining(Submit(d, com, arg)) == Needs(Remaining(d), Request(com, arg))
  {
    hide Consistent, Remaining, Lengths, Submit, Taken;
    var d', taken := Submit(d, com, arg), Taken(|Queue(d)|, com, arg);
    SubmitKeeps(d, com, arg);
    SubmitTakes(d, com, arg);
    SubmitPhase(d, com, arg);
    RemainingIs(d);
    RemainingIs(d');
    QueueGrows(d, d', taken);
    TakenLengths(|Queue(d)|, com, arg);
    if Queue(d) == [] {
      assert Remaining(d) == [] && Needs(Remaining(d), Request(com, arg)) == Lengths(taken);
      RemainingDetermined(d', Lengths(taken));
    } else {
      LengthsOf(Queue(d)[1..], taken);
      assert Queue(d')[1..] == Queue(d)[1..] + taken;
      RemainingDetermined(d', Remaining(d) + Lengths(taken));
    }
  }

  lemma QueueGrows(d: Driver, d': Driver, more: seq<Command>)
    requires Consistent(d) && d'.accepted == d.accepted + more && d'.done == d.done
    ensures Queue(d') == Queue(d) + more
  {}

  lemma TakenLengths(n: nat, com: Byte, arg: Byte)
    ensures var taken := Taken(n, com, arg);
      && |Lengths(taken)| == |taken|
      && (n == 0 ==> taken != [] && taken[0] == Command(com, arg))
      && (taken != [] ==>
        Lengths(taken)[0] == (if HasArg(taken[0]) then 2 else 1) && Lengths(taken)[1..] == Lengths(taken[1..]))
  {
    LengthsOf(Taken(n, com, arg), []);
  }

  lemma SubmitPhase(d: Driver, com: Byte, arg: Byte)
    requires Consistent(d)
    ensures Submit(d, com, arg).phase == if Queue(d) == [] then WaitCom else d.phase
  {
    hide Flatten, FirstSent;
  }

  lemma NextIs(d: Driver)
    requires d.done < |d.accepted|
    ensures Queue(Next(d)) == Queue(d)[1..] && Next(d).accepted == d.accepted && Next(d).phase != WaitArg
  {}

  lemma RemainingAfterReceive(d: Driver, data: Byte, reply: Byte)
    requires Consistent(d)
    ensures Remaining(Receive(d, data, reply)) == Needs(Remaining(d), Input(data, reply))
    ensures Receive(d, data, reply).accepted == d.accepted
  {
    hide Flatten, FirstSent, Lengths, Next, Remaining;
    var d' := Receive(d, data, reply);
    ReceiveKeeps(d, data, reply);
    RemainingIs(d);
    if d.phase == Ready || data == RESEND {
      RemainingDetermined(d', Remaining(d));
    } else if d.phase == WaitCom && HasArg(Queue(d)[0]) {
      RemainingDetermined(d', [1] + Remaining(d)[1..]);
    } else {
      var c := Queue(d)[0];
      var asked := if d.phase == WaitArg && c.com == SET_SCAN_SET && c.arg == 0
        then d.(scanSet := NamedSet(d.scanSet, reply)) else d;
      NextIs(asked);
      RemainingFresh(d');
      assert Queue(d') == Queue(d)[1..];
    }
  }

  lemma RemainingFresh(d: Driver)
    requires d.phase != WaitArg
    ensures Remaining(d) == Lengths(Queue(d))
  {}

  lemma {:induction false} RunTakes(d: Driver, events: seq<Event>)
    requires Consistent(d)
    ensures Run(d, events).accepted == d.accepted + TakenBy(Remaining(d), events)
    decreases |events|
  {
    hide Consistent, Remaining, Needs, Taken, Submit, Receive;
    if events != [] {
      match events[0] {
        case Request(com, arg) =>
          SubmitKeeps(d, com, arg);
          SubmitTakes(d, com, arg);
          RemainingAfterSubmit(d, com, arg);
          RemainingIs(d);
        case Input(data, reply) =>
          ReceiveKeeps(d, data, reply);
          RemainingAfterReceive(d, data, reply);
      }
      RunTakes(Step(d, events[0]), events[1..]);
    }
  }

  /** From power-up the accepted commands are the requests made while fewer than 8 were pending, in
      order and each with its query. */
  lemma RunAccepts(events: seq<Event>)
    ensures Run(INITIAL, events).accepted == TakenBy([], events)
  {
    assert Consistent(INITIAL) && Remaining(INITIAL) == [];
    RunTakes(INITIAL, events);
  }

  // ---------- The scan code set

  /** The keyboard's names for the scan code sets 1, 2 and 3. */
  const SET_NAMES: seq<Byte> := [0x43, 0x41, 0x3f]

  /** The known scan code set changes only when the argument of a query is acknowledged, to the set the
      next byte names, if it names one. */
  lemma ScanSetFollowsQuery(d: Driver, e: Event)
    requires Consistent(d)
    ensures var answered :=
        e.Input? && e.data != RESEND && d.phase == WaitArg && Queue(d)[0] == Command(SET_SCAN_SET, 0);
      && (answered ==> forall i :: 0 <= i < |SET_NAMES| && e.reply == SET_NAMES[i] ==> Step(d, e).scanSet == i + 1)
      && (!answered || e.reply !in SET_NAMES ==> Step(d, e).scanSet == d.scanSet)
  {
    hide Flatten, FirstSent;
    assert SET_NAMES[0] == 0x43 && SET_NAMES[1] == 0x41 && SET_NAMES[2] == 0x3f;
    if e.Request? {
      SubmitTakes(d, e.com, e.arg);
    }
  }

  // ---------- The commands kmain sends

  /** ECHO, then scan code set 2; the keyboard acknowledges each byte, but has the argument sent twice. */
  const KMAIN: seq<Event> := [Request(0xEE, 0xFF), Request(0xF0, 2), Input(0xEE, 0), Input(0xFA, 0), Input(0xFE, 0),
                              Input(0xFA, 0), Input(0xFA, 0), Input(0xFA, 0x41)]

  const KMAIN_COMMANDS: seq<Command> := [Command(0xEE, 0xFF), Command(0xF0, 2), Command(0xF0, 0)]

  const KMAIN_WRITES: seq<Write> := [Write(0xEE, false), Write(0xF0, false), Write(2, false), Write(2, true),
                                     Write(0xF0, false), Write(0, false)]

  /** The driver after the first n of these events. */
  function AtKmain(n: nat): Driver {
    match n
    case 0 => INITIAL
    case 1 => Driver(KMAIN_COMMANDS[..1], 0, WaitCom, KMAIN_WRITES[..1], 1)
    case 2 => Driver(KMAIN_COMMANDS, 0, WaitCom, KMAIN_WRITES[..1], 1)
    case 3 => Driver(KMAIN_COMMANDS, 1, WaitCom, KMAIN_WRITES[..2], 1)
    case 4 => Driver(KMAIN_COMMANDS, 1, WaitArg, KMAIN_WRITES[..3], 1)
    case 5 => Driver(KMAIN_COMMANDS, 1, WaitArg, KMAIN_WRITES[..4], 1)
    case 6 => Driver(KMAIN_COMMANDS, 2, WaitCom, KMAIN_WRITES[..5], 1)
    case 7 => Driver(KMAIN_COMMANDS, 2, WaitArg, KMAIN_WRITES, 1)
    case _ => Driver(KMAIN_COMMANDS, 3, Ready, KMAIN_WRITES, 2)
  }

  lemma KmainRequests(n: nat)
    requires n < 2
    ensures Step(AtKmain(n), KMAIN[n]) == AtKmain(n + 1)
  {}

  lemma KmainInputs(n: nat)
    requires 2 <= n < 8
    ensures Step(AtKmain(n), KMAIN[n]) == AtKmain(n + 1)
  {}

  lemma {:induction false} KmainFrom(n: nat)
    requires n <= 8
    ensures Run(AtKmain(n), KMAIN[n..]) == AtKmain(8)
    decreases 8 - n
  {
    hide Step, AtKmain;
    if n < 8 {
      if n < 2 {
        KmainRequests(n);
      } else {
        KmainInputs(n);
      }
      KmainFrom(n + 1);
    }
  }

  /** As arch/x86_64/kmain.c:35-36 starts the keyboard up: what is written, query and retransmission
      included, and the scan code set known at the end. */
  lemma KmainCommands()
    ensures var d := Run(INITIAL, KMAIN); d.sent == KMAIN_WRITES && d.phase == Ready && d.scanSet == 2
  {
    hide Run, Step;
    KmainFrom(0);
    assert KMAIN[0..] == KMAIN;
  }
}
