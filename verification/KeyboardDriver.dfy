/** ps2_keyboard.c over its static variables: the ring buffer refines the queue of the state machine. */
module KeyboardDriver {
  import opened Words
  import opened Keyboard

  const STATE_READY: nat := 0
  const STATE_WAITING_COM_ACK: nat := 1
  const STATE_WAITING_ARG_ACK: nat := 2

  /** Where the i-th pending command sits in the ring. */
  function Place(nextIdx: nat, pending: nat, i: nat): nat
    requires pending <= QUEUE_SIZE
  {
    (nextIdx + QUEUE_SIZE - pending + i) % QUEUE_SIZE
  }

  /** Adding a command moves no pending one and takes a slot none of them has. */
  lemma AddedPlaces(nextIdx: nat, pending: nat)
    requires nextIdx < QUEUE_SIZE && pending < QUEUE_SIZE
    ensures var nextIdx' := (nextIdx + 1) % QUEUE_SIZE;
      && Place(nextIdx', pending + 1, pending) == nextIdx
      && forall i: nat :: i < pending ==>
        Place(nextIdx', pending + 1, i) == Place(nextIdx, pending, i) != nextIdx
  {}

  lemma DiscardedPlaces(nextIdx: nat, pending: nat)
    requires nextIdx < QUEUE_SIZE && 0 < pending <= QUEUE_SIZE
    ensures forall i: nat {:trigger Place(nextIdx, pending - 1, i)} ::
      Place(nextIdx, pending - 1, i) == Place(nextIdx, pending, i + 1)
  {}

  class Driver {
    const ring: array<Command>
    var nextIdx: nat
    var pending: nat
    var state: nat
    var scanSet: nat
    /** Everything accepted and everything written to port 1, from power-up. */
    ghost var accepted: seq<Command>
    ghost var sent: seq<Write>

    /** The state-machine state these variables stand for. */
    ghost function Abstract(): Keyboard.Driver
      reads this
    {
      Keyboard.Driver(accepted, if pending <= |accepted| then |accepted| - pending else 0,
        if state == STATE_READY then Ready else if state == STATE_WAITING_COM_ACK then WaitCom else WaitArg,
        sent, scanSet)
    }

    /** The ring holds the pending commands, oldest first. */
    ghost predicate Holds()
      reads this, ring
    {
      && ring.Length == QUEUE_SIZE && nextIdx < QUEUE_SIZE && pending <= QUEUE_SIZE && pending <= |accepted|
      && forall i: nat :: i < pending ==> ring[Place(nextIdx, pending, i)] == accepted[|accepted| - pending + i]
    }

    ghost predicate Valid()
      reads this, ring
    {
      Holds() && state <= STATE_WAITING_ARG_ACK && Consistent(Abstract())
    }

    constructor ()
      ensures Valid() && Abstract() == INITIAL && fresh(ring)
    {
      ring := new Command[QUEUE_SIZE](_ => Command(0, 0));
      nextIdx, pending, state, scanSet := 0, 0, STATE_READY, 1;
      accepted, sent := [], [];
    }

    method PortWrite(data: Byte, ghost again: bool)
      modifies `sent
      ensures sent == old(sent) + [Write(data, again)]
    {
      sent := sent + [Write(data, again)];
    }

    /** queue_add: a full queue drops the command. */
    method QueueAdd(command: Byte, arg: Byte)
      requires Holds()
      modifies ring, `nextIdx, `pending, `accepted
      ensures Holds()
      ensures if old(pending) < QUEUE_SIZE
              then accepted == old(accepted) + [Command(command, arg)] && pending == old(pending) + 1
              else accepted == old(accepted) && pending == old(pending)
    {
      if pending < QUEUE_SIZE {
        AddedPlaces(nextIdx, pending);
        ring[nextIdx] := Command(command, arg);
        nextIdx := (nextIdx + 1) % QUEUE_SIZE;
        pending := pending + 1;
        accepted := accepted + [Command(command, arg)];
        forall i: nat | i < pending
          ensures ring[Place(nextIdx, pending, i)] == accepted[|accepted| - pending + i]
        {
          assert i < old(pending) ==>
            old(ring[Place(nextIdx, pending, i)]) == old(accepted)[|old(accepted)| - old(pending) + i];
        }
      }
    }

    method QueueDiscard()
      requires Holds()
      modifies `pending
      ensures Holds() && pending == if old(pending) > 0 then old(pending) - 1 else 0
    {
      if pending > 0 {
        DiscardedPlaces(nextIdx, pending);
        pending := pending - 1;
        forall i: nat | i < pending
          ensures ring[Place(nextIdx, pending, i)] == accepted[|accepted| - pending + i]
        {
          assert ring[Place(nextIdx, old(pending), i + 1)] == accepted[|accepted| - old(pending) + (i + 1)];
        }
      }
    }

    method CommandArg(command: Byte, arg: Byte)
      requires Valid()
      modifies this, ring
      ensures Valid() && Abstract() == Submit(old(Abstract()), command, arg)
    {
      hide Consistent;
      SubmitKeeps(Abstract(), command, arg);
      if pending < QUEUE_SIZE {
        QueueAdd(command, arg);
        if pending == 1 {
          state := STATE_WAITING_COM_ACK;
          PortWrite(command, false);
        }
        if command == SET_SCAN_SET && arg != 0 {
          QueueAdd(SET_SCAN_SET, 0x00);
        }
      }
    }

    /** current_command: the oldest pending one, zeros when there is none. */
    method CurrentCommand() returns (c: Command)
      requires Holds()
      ensures c == if pending > 0 then accepted[|accepted| - pending] else Command(0, 0)
    {
      if pending > 0 {
        var idx := (nextIdx + QUEUE_SIZE - pending) % QUEUE_SIZE;
        assert idx == Place(nextIdx, pending, 0);
        return ring[idx];
      }
      return Command(0, 0);
    }

    method HandleNextCommand()
      requires Holds() && pending > 0
      modifies `pending, `state, `sent
      ensures Holds() && state <= STATE_WAITING_ARG_ACK && Abstract() == Next(old(Abstract()))
    {
      hide Consistent, Flatten, FirstSent, Place;
      QueueDiscard();
      if pending > 0 {
        state := STATE_WAITING_COM_ACK;
        var c := CurrentCommand();
        PortWrite(c.com, false);
      } else {
        state := STATE_READY;
      }
    }

    /** keyboard_handler, `reply` being what ps2_data_read gives; tells whether the byte is scan data. */
    method KeyboardHandler(data: Byte, reply: Byte) returns (scanData: bool)
      requires Valid()
      modifies this
      ensures Valid() && Abstract() == Receive(old(Abstract()), data, reply)
      ensures scanData <==> old(Abstract()).phase == Ready
    {
      hide Consistent, Next;
      ReceiveKeeps(Abstract(), data, reply);
      PendingIffBusy(Abstract());
      if state == STATE_READY {
        return true;
      }
      scanData := false;
      var command := CurrentCommand();
      if state == STATE_WAITING_COM_ACK {
        if data == RESEND {
          PortWrite(command.com, true);
          return;
        }
        if command.arg != NO_ARG {
          state := STATE_WAITING_ARG_ACK;
          PortWrite(command.arg, false);
          return;
        }
      } else if state == STATE_WAITING_ARG_ACK {
        if data == RESEND {
          PortWrite(command.arg, true);
          return;
        }
        if command.com == SET_SCAN_SET {
          if command.arg == 0 {
            if reply == 0x43 {
              scanSet := 1;
            } else if reply == 0x41 {
              scanSet := 2;
            } else if reply == 0x3f {
              scanSet := 3;
            }
          }
        }
      } else {
        // The corrupted-state abort.
        assert false;
      }
      HandleNextCommand();
    }
  }

  lemma PendingIffBusy(d: Keyboard.Driver)
    requires Consistent(d)
    ensures d.phase == Ready <==> Queue(d) == []
  {}
}
