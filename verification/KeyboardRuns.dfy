/** The keyboard driver as a whole: commands and interrupts in any order, with the bytes that belong
    to no command going to the scan code decoder. */
module KeyboardRuns {
  import opened Words
  import Options
  import Keyboard
  import KeyboardDriver
  import Decoder

  /** The bytes of a run that reach the decoder: those received while the driver is ready. */
  function ScanBytes(d: Keyboard.Driver, events: seq<Keyboard.Event>): seq<Byte>
    decreases |events|
  {
    if events == [] then []
    else
      var rest := ScanBytes(Keyboard.Step(d, events[0]), events[1..]);
      if events[0].Input? && d.phase == Keyboard.Ready then [events[0].data] + rest else rest
  }

  /** One command or interrupt on the static variables; the key event it completes, if any. */
  method Handle(driver: KeyboardDriver.Driver, decoder: Decoder.ScanDecoder, e: Keyboard.Event)
    returns (key: Options.Option<Decoder.Event>)
    requires driver.Valid() && decoder.buf.Length == 8
    requires e.Input? && driver.Abstract().phase == Keyboard.Ready ==> decoder.ptr < 8
    modifies driver, driver.ring, decoder, decoder.buf
    ensures driver.Valid() && driver.Abstract() == Keyboard.Step(old(driver.Abstract()), e)
    ensures if e.Input? && old(driver.Abstract()).phase == Keyboard.Ready
            then (decoder.State(), key) == Decoder.Feed(old(decoder.State()), e.data)
            else decoder.State() == old(decoder.State()) && key.None?
  {
    hide Keyboard.Consistent, Keyboard.Submit, Keyboard.Receive, Decoder.Feed;
    key := Options.None;
    match e {
      case Request(com, arg) => driver.CommandArg(com, arg);
      case Input(data, reply) =>
        var scanData := driver.KeyboardHandler(data, reply);
        if scanData {
          key := decoder.HandleData(data);
        }
    }
  }

  /** Any run whose scan data fits the decoder's buffer: the statics end up where both state machines do,
      and the keys reported are the decoder's events for the bytes it was given. */
  method HandleAll(driver: KeyboardDriver.Driver, decoder: Decoder.ScanDecoder, events: seq<Keyboard.Event>)
    returns (keys: seq<Decoder.Event>)
    requires driver.Valid() && decoder.buf.Length == 8
    requires Decoder.StoresWithin(decoder.State(), ScanBytes(driver.Abstract(), events), 8)
    modifies driver, driver.ring, decoder, decoder.buf
    ensures driver.Valid() && driver.Abstract() == Keyboard.Run(old(driver.Abstract()), events)
    ensures var bytes := ScanBytes(old(driver.Abstract()), events);
      && decoder.State() == Decoder.After(old(decoder.State()), bytes)
      && keys == Decoder.Events(old(decoder.State()), bytes)
  {
    hide Keyboard.Consistent, Keyboard.Step, Decoder.Feed, Decoder.After, Decoder.Events, Decoder.StoresWithin;
    keys := [];
    ghost var bytes := ScanBytes(driver.Abstract(), events);
    for i := 0 to |events|
      invariant driver.Valid()
      invariant Keyboard.Run(driver.Abstract(), events[i..]) == Keyboard.Run(old(driver.Abstract()), events)
      invariant var rest := ScanBytes(driver.Abstract(), events[i..]);
        && Decoder.StoresWithin(decoder.State(), rest, 8)
        && Decoder.After(decoder.State(), rest) == Decoder.After(old(decoder.State()), bytes)
        && keys + Decoder.Events(decoder.State(), rest) == Decoder.Events(old(decoder.State()), bytes)
    {
      var e := events[i];
      assert events[i..][0] == e && events[i..][1..] == events[i + 1..];
      if e.Input? {
        Decoder.Cons(decoder.State(), e.data, ScanBytes(Keyboard.Step(driver.Abstract(), e), events[i + 1..]));
      }
      var key := Handle(driver, decoder, e);
      if key.Some? {
        keys := keys + [key.value];
      }
    }
    Decoder.NoBytes(decoder.State());
  }

  /** From power-up: if the bytes that belong to no command are a sequence of scan codes without Pause,
      each is reported once, in order, the commands accepted are the requests made while fewer than 8 were
      pending, and the bytes written are these in order, with each retransmission of the byte before it. */
  method HandleCodes(events: seq<Keyboard.Event>, codes: seq<Decoder.Code>)
    returns (driver: KeyboardDriver.Driver, keys: seq<Decoder.Event>)
    requires forall i :: 0 <= i < |codes| ==> Decoder.WellFormed(codes[i]) && !codes[i].Pause?
    requires ScanBytes(Keyboard.INITIAL, events) == Decoder.AllBytes(codes)
    ensures keys == Decoder.Each(Decoder.Reported, codes)
    ensures driver.Valid() && driver.Abstract() == Keyboard.Run(Keyboard.INITIAL, events)
    ensures var d := driver.Abstract();
      && d.done <= |d.accepted|
      && Keyboard.FirstSent(driver.sent) == Keyboard.Flatten(d.accepted[..d.done]) + Keyboard.Current(d)
      && driver.accepted == Keyboard.TakenBy([], events) && Keyboard.RepeatsLast(driver.sent)
  {
    hide Keyboard.Consistent, Keyboard.Run, ScanBytes, Keyboard.TakenBy, Keyboard.RepeatsLast;
    hide Decoder.Events, Decoder.After, Decoder.StoresWithin, Decoder.AllBytes;
    Keyboard.RunWritesInOrder(events);
    Keyboard.RunAccepts(events);
    Keyboard.RunRepeatsLast(events);
    Decoder.DecodesEach(codes);
    WithinMore(Decoder.IDLE, Decoder.AllBytes(codes), 6, 8);
    driver := new KeyboardDriver.Driver();
    var decoder := new Decoder.ScanDecoder();
    keys := HandleAll(driver, decoder, events);
  }

  lemma {:induction false} WithinMore(s: Decoder.Scan, bytes: seq<Byte>, n: nat, m: nat)
    requires Decoder.StoresWithin(s, bytes, n) && n <= m
    ensures Decoder.StoresWithin(s, bytes, m)
    decreases |bytes|
  {
    if bytes != [] {
      WithinMore(Decoder.Feed(s, bytes[0]).0, bytes[1..], n, m);
    }
  }
}
