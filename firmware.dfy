/**
  The whole firmware of the GPS bridge: the high-priority interrupt handler of main.c:172-226
  fed one event at a time. A UART event is one received byte (with its error status and the bus
  stop bit `SSPSTATbits.P` as it reads when the decoder finishes); a bus event is one SSP
  interrupt. Both sources are served by the one handler, so each event is an indivisible step.

  `Next` is the specification of one event on values; the class `Bridge` keeps the firmware's
  globals and statics in fields and arrays and its methods are proved to follow `Next`.
*/
module Firmware {
  import opened Bytes
  import opened FixRecord
  import opened FixStore
  import opened Decoder
  import opened LineFramer
  import opened BusServer

  datatype Event = Uart(b: Byte, ok: bool, stop: bool) | Bus(e: BusEvent)

  /** The framer statics and `input_message`, `gps_data` and `gps_buffer`, and the bus cursor. */
  datatype System = System(framer: Framer, store: Store, cursor: Byte)

  predicate Consistent(st: System) {
    LineFramer.Valid(st.framer) && FixStore.Valid(st.store)
  }

  /** After reset: zero buffers, zero statics, `save_input` false and `gps_data` cleared. */
  const Initial: System := System(Idle, Store(Cleared, Zeros(ImageSize)), 0)

  /** The initial state is consistent, its framer idle and clean, and its image that of the cleared record. */
  lemma InitialState()
    ensures Consistent(Initial) && Clean(Initial.framer) && !Initial.framer.capturing
    ensures Initial.store.published == Image(Cleared) && Initial.store.working == Cleared
  {
    IdleIsClean();
    ImageOfCleared();
  }

  /**
    What the handler does on a completed line: it decodes the built-in sentence into `gps_data`
    and publishes if the stop bit is set. The captured bytes are not used.
  */
  function Sentence(s: Store, stop: bool): (r: Store)
    requires FixStore.Valid(s)
    ensures FixStore.Valid(r)
    ensures var decoded := s.working.(hour := 124, minute := 240, second := 240);
      && (stop ==> r == Store(Cleared, Image(decoded)))
      && (!stop ==> r == Store(decoded, s.published))
  {
    DecodeRmc(s.working);
    Publish(Store(Decode(Rmc, s.working), s.published), stop)
  }

  /** The state after an event and what the event put on the bus. */
  datatype Reaction = Reaction(state: System, reply: Reply)

  function Next(st: System, ev: Event): (r: Reaction)
    requires Consistent(st)
    ensures Consistent(r.state)
    ensures ev.Bus? ==> r.state.framer == st.framer && r.state.store == st.store
    ensures ev.Uart? ==> r.reply == Silent && r.state.cursor == st.cursor
    ensures ev.Uart? && !ev.stop ==> r.state.store.published == st.store.published
    ensures ev.Uart? && !(ev.ok && ev.b == LineFeed && st.framer.capturing) ==> r.state.store == st.store
  {
    match ev
    case Uart(b, ok, stop) =>
      var o := Receive(st.framer, b, ok);
      var store := if o.decode then Sentence(st.store, stop) else st.store;
      Reaction(System(o.framer, store, st.cursor), Silent)
    case Bus(e) =>
      var s := Respond(st.store.published, st.cursor, e);
      Reaction(System(st.framer, st.store, s.cursor), s.reply)
  }

  /** What the handler does with the bytes of a line never depends on those bytes. */
  lemma CapturedBytesIgnored(st: System, message: seq<Byte>, ev: Event)
    requires Consistent(st) && |message| == MessageSize
    ensures var other := st.(framer := st.framer.(message := message));
      && Next(other, ev).state.store == Next(st, ev).state.store
      && Next(other, ev).state.cursor == Next(st, ev).state.cursor
      && Next(other, ev).reply == Next(st, ev).reply
  {
  }

  /**
    Every completed line that is published publishes the same time, 124:240:240, with the rest of
    the record as it was left by the previous sentence (all zero after an earlier publish).
  */
  lemma PublishedLine(st: System)
    requires Consistent(st) && st.framer.capturing
    ensures var r := Next(st, Uart(LineFeed, true, true)).state;
      && r.store.published == Image(st.store.working.(hour := 124, minute := 240, second := 240))
      && r.store.working == Cleared
      && !r.framer.capturing
  {
  }

  /** Between publishes, the framer keeps its buffer zero whenever it is idle. */
  lemma NextKeepsClean(st: System, ev: Event)
    requires Consistent(st) && Clean(st.framer)
    ensures Clean(Next(st, ev).state.framer)
  {
    if ev.Uart? {
      ReceiveKeepsClean(st.framer, ev.b, ev.ok);
    }
  }

  /** The only record the firmware ever decodes: the cleared one with the time 124:240:240. */
  const Timed: Fix := Cleared.(hour := 124, minute := 240, second := 240)

  /** `gps_data` is cleared or `Timed`, and `gps_buffer` is the image of one of them. */
  predicate Reachable(st: System) {
    && Consistent(st)
    && (st.store.working == Cleared || st.store.working == Timed)
    && (st.store.published == Image(Cleared) || st.store.published == Image(Timed))
  }

  lemma NextKeepsReachable(st: System, ev: Event)
    requires Reachable(st)
    ensures Reachable(Next(st, ev).state)
  {
  }

  /** The final state after a sequence of events, and the reply to each. */
  datatype Log = Log(state: System, replies: seq<Reply>)

  function Trace(st: System, evs: seq<Event>): (t: Log)
    requires Consistent(st)
    ensures Consistent(t.state) && |t.replies| == |evs|
    decreases |evs|
  {
    if evs == [] then Log(st, [])
    else
      var r := Next(st, evs[0]);
      var t := Trace(r.state, evs[1..]);
      Log(t.state, [r.reply] + t.replies)
  }

  /**
    Whatever arrives on the UART and the bus, from power-on on, `gps_buffer` only ever holds the
    image of the cleared record (fifteen zero bytes, `ImageOfCleared`) or that of the cleared
    record with the time 124:240:240, and `gps_data` only ever holds one of those two records.
  */
  lemma OnlyTwoImages(evs: seq<Event>)
    ensures var st := Trace(Initial, evs).state;
      && (st.store.published == Image(Cleared) || st.store.published == Image(Timed))
      && (st.store.working == Cleared || st.store.working == Timed)
  {
    assert Reachable(Initial) by {
      InitialState();
    }
    TraceKeepsReachable(Initial, evs);
  }

  lemma {:induction false} TraceKeepsReachable(st: System, evs: seq<Event>)
    requires Reachable(st)
    ensures Reachable(Trace(st, evs).state)
    decreases |evs|
  {
    if evs != [] {
      NextKeepsReachable(st, evs[0]);
      TraceKeepsReachable(Next(st, evs[0]).state, evs[1..]);
    }
  }

  /** The bus events among `evs`, in order. */
  function BusEvents(evs: seq<Event>): (es: seq<BusEvent>)
    ensures |es| <= |evs|
  {
    if evs == [] then [] else (if evs[0].Bus? then [evs[0].e] else []) + BusEvents(evs[1..])
  }

  /** No decoder run in `evs` sees the stop bit, so none of them publishes. */
  predicate Quiet(evs: seq<Event>) {
    forall i :: 0 <= i < |evs| ==> evs[i].Uart? ==> !evs[i].stop
  }

  /** No bus event in `evs` is a new address+read. */
  predicate NoReopen(evs: seq<Event>) {
    forall i :: 0 <= i < |evs| ==> evs[i].Bus? ==> !Opens(evs[i].e)
  }

  lemma {:induction false} NoReopenFiltered(evs: seq<Event>)
    requires NoReopen(evs)
    ensures forall j :: 0 <= j < |BusEvents(evs)| ==> !Opens(BusEvents(evs)[j])
    decreases |evs|
  {
    if evs != [] {
      NoReopenFiltered(evs[1..]);
      assert NoReopen(evs[1..]) by {
        forall i | 0 <= i < |evs[1..]| ensures evs[1..][i] == evs[i + 1] { }
      }
    }
  }

  /**
    While no decoder run publishes, the handler's bus replies are those of the bus server alone
    over the bus events, and the published image does not change.
  */
  lemma {:induction false} QuietTrace(st: System, evs: seq<Event>)
    requires Consistent(st) && Quiet(evs)
    ensures var t := Trace(st, evs);
      var r := Replay(false, st.store.published, st.cursor, BusEvents(evs));
      && t.state.store.published == st.store.published
      && t.state.cursor == r.cursor
      && Heard(t.replies) == Heard(r.replies)
    decreases |evs|
  {
    if evs != [] {
      var n := Next(st, evs[0]);
      var rest := evs[1..];
      assert Quiet(rest) by {
        forall i | 0 <= i < |rest| ensures rest[i] == evs[i + 1] { }
      }
      QuietTrace(n.state, rest);
      var t := Trace(n.state, rest);
      assert Trace(st, evs).replies == [n.reply] + t.replies;
      assert ([n.reply] + t.replies)[1..] == t.replies;
      if evs[0].Bus? {
        var r := Replay(false, st.store.published, n.state.cursor, BusEvents(rest));
        assert BusEvents(evs) == [evs[0].e] + BusEvents(rest);
        assert ([evs[0].e] + BusEvents(rest))[1..] == BusEvents(rest);
        assert Replay(false, st.store.published, st.cursor, BusEvents(evs)).replies == [n.reply] + r.replies;
        assert ([n.reply] + r.replies)[1..] == r.replies;
      } else {
        assert BusEvents(evs) == BusEvents(rest);
      }
    }
  }

  /**
    One read transaction sees one snapshot: when the stop bit stays clear from the address event
    on, the image does not change, whatever bytes arrive on the UART meanwhile, and the master
    receives `gps_buffer[0]`, `gps_buffer[1]`, ... in order.
  */
  lemma SnapshotPerTransaction(st: System, open: BusEvent, evs: seq<Event>)
    requires Consistent(st) && Opens(open) && Quiet(evs) && NoReopen(evs)
    ensures var t := Trace(st, [Bus(open)] + evs);
      var h := Heard(t.replies);
      && t.state.store.published == st.store.published
      && |h| >= 1
      && forall i :: 0 <= i < |h| && i < ImageSize ==> h[i] == Send(st.store.published[i])
  {
    var all := [Bus(open)] + evs;
    assert all[0] == Bus(open) && all[1..] == evs;
    assert Quiet(all);
    QuietTrace(st, all);
    assert BusEvents(all) == [open] + BusEvents(evs);
    NoReopenFiltered(evs);
    Transaction(st.store.published, st.cursor, open, BusEvents(evs));
  }

  /**
    The firmware's globals and statics: `input_message` with the UART statics `n` and
    `save_input`, `gps_data`, `gps_buffer`, and the SSP static `n`.
  */
  class Bridge {
    var inputMessage: array<Byte>
    var rxIndex: Byte
    var saveInput: bool
    var gpsData: Fix
    var gpsBuffer: array<Byte>
    var txIndex: Byte

    ghost predicate Valid()
      reads this
    {
      inputMessage.Length == MessageSize && gpsBuffer.Length == ImageSize
    }

    ghost function Abs(): (st: System)
      reads this, inputMessage, gpsBuffer
      requires Valid()
      ensures Consistent(st)
    {
      System(Framer(inputMessage[..], rxIndex, saveInput), Store(gpsData, gpsBuffer[..]), txIndex)
    }

    /** Power-on: zero-initialised globals and statics, and `gps_data` cleared by `main`. */
    constructor ()
      ensures Valid() && Abs() == Initial
      ensures fresh(inputMessage) && fresh(gpsBuffer)
    {
      inputMessage := new Byte[MessageSize](_ => 0);
      gpsBuffer := new Byte[ImageSize](_ => 0);
      rxIndex := 0;
      saveInput := false;
      gpsData := Cleared;
      txIndex := 0;
      new;
      assert inputMessage[..] == Zeros(MessageSize);
      assert gpsBuffer[..] == Zeros(ImageSize);
    }

    /** `tens = str[i] - 48; ones = str[i+1] - 48;` and the field value `tens*10 + ones`. */
    static method ReadTwoDigits(str: seq<Byte>, i: nat) returns (v: Byte)
      ensures v == TwoDigits(At(str, i), At(str, i + 1))
    {
      var tens := UChar(At(str, i) - DigitZero);
      var ones := UChar(At(str, i + 1) - DigitZero);
      v := UChar(tens as int * 10 + ones);
    }

    /** The longitude degrees, `hundreds*100 + tens*10 + ones`. */
    static method ReadThreeDigits(str: seq<Byte>, i: nat) returns (v: Byte)
      ensures v == ThreeDigits(At(str, i), At(str, i + 1), At(str, i + 2))
    {
      var hundreds := UChar(At(str, i) - DigitZero);
      var tens := UChar(At(str, i + 1) - DigitZero);
      var ones := UChar(At(str, i + 2) - DigitZero);
      v := UChar(hundreds as int * 100 + tens as int * 10 + ones);
    }

    /** Decimal minutes: the first digit pair times 100, then `+=` the second pair, in 16 bits. */
    static method ReadDecimalMinutes(str: seq<Byte>, i: nat) returns (v: Word)
      ensures v == DecimalMinutes(At(str, i), At(str, i + 1), At(str, i + 2), At(str, i + 3))
    {
      var tens := UChar(At(str, i) - DigitZero);
      var ones := UChar(At(str, i + 1) - DigitZero);
      v := UInt((tens as int * 10 + ones) * 100);
      tens := UChar(At(str, i + 2) - DigitZero);
      ones := UChar(At(str, i + 3) - DigitZero);
      v := UInt(v + (tens as int * 10 + ones));
    }

    /**
      The `switch` of `parseData` for group `group`, reading from index `n`: it assigns the
      group's fields of `gps_data` and returns the index past what it read.
    */
    method DecodeGroup(str: seq<Byte>, n: nat, group: nat) returns (next: nat)
      modifies this`gpsData
      ensures gpsData == Fields(str, n, group, old(gpsData))
      ensures next == n + FieldWidth(group)
    {
      next := n;
      if group == 1 {
        var v := ReadTwoDigits(str, next);
        gpsData := gpsData.(hour := v);
        v := ReadTwoDigits(str, next + 2);
        gpsData := gpsData.(minute := v);
        v := ReadTwoDigits(str, next + 4);
        gpsData := gpsData.(second := v);
        next := next + 6;
      } else if group == 2 {
        gpsData := gpsData.(status := At(str, next) == LetterA);
        next := next + 1;
      } else if group == 3 {
        var v := ReadTwoDigits(str, next);
        gpsData := gpsData.(latDeg := v);
        v := ReadTwoDigits(str, next + 2);
        gpsData := gpsData.(latMinutes := v);
        var w := ReadDecimalMinutes(str, next + 5);
        gpsData := gpsData.(latDecMinutes := w);
        next := next + 9;
      } else if group == 4 {
        gpsData := gpsData.(northNotSouth := At(str, next) == LetterN);
        next := next + 1;
      } else if group == 5 {
        var v := ReadThreeDigits(str, next);
        gpsData := gpsData.(lonDeg := v);
        v := ReadTwoDigits(str, next + 3);
        gpsData := gpsData.(lonMinutes := v);
        var w := ReadDecimalMinutes(str, next + 6);
        gpsData := gpsData.(lonDecMinutes := w);
        next := next + 10;
      } else if group == 6 {
        gpsData := gpsData.(eastNotWest := At(str, next) == LetterE);
        next := next + 1;
      } else if group == 9 {
        var v := ReadTwoDigits(str, next);
        gpsData := gpsData.(day := v);
        v := ReadTwoDigits(str, next + 2);
        gpsData := gpsData.(month := v);
        v := ReadTwoDigits(str, next + 4);
        gpsData := gpsData.(year := v);
        next := next + 6;
      }
    }

    /**
      `parseData`: the comma-counting loop over the NUL-terminated `str`, in place on `gps_data`,
      then the publish step, which copies `gps_data` into `gps_buffer` and clears it when the stop
      bit is set.
    */
    method ParseData(str: seq<Byte>, stop: bool)
      requires Valid()
      modifies this`gpsData, gpsBuffer
      ensures Valid()
      ensures Store(gpsData, gpsBuffer[..]) == Publish(Store(Decode(str, old(gpsData)), old(gpsBuffer[..])), stop)
    {
      var n: nat := 0;
      var group: nat := 0;
      while At(str, n) != Nul
        invariant Run(str, Cursor(n, group, gpsData)) == Run(str, Cursor(0, 0, old(gpsData)))
        invariant gpsBuffer[..] == old(gpsBuffer[..])
        decreases |str| - n
      {
        ghost var before := Cursor(n, group, gpsData);
        var tested := At(str, n);
        n := n + 1;
        if tested == Comma {
          group := group + 1;
        }
        n := DecodeGroup(str, n, group);
        assert Step(str, before) == Cursor(n, group, gpsData);
      }
      if stop {
        var image := Image(gpsData);
        forall i | 0 <= i < ImageSize {
          gpsBuffer[i] := image[i];
        }
        gpsData := Cleared;
      }
    }

    /** The UART branch of the handler for one received byte. */
    method OnUartByte(b: Byte, ok: bool, stop: bool)
      requires Valid()
      modifies this, inputMessage, gpsBuffer
      ensures Valid() && inputMessage == old(inputMessage) && gpsBuffer == old(gpsBuffer)
      ensures Abs() == Next(old(Abs()), Uart(b, ok, stop)).state
    {
      if ok {
        if b == Dollar {
          if !saveInput {
            saveInput := true;
            rxIndex := 0;
            inputMessage[rxIndex] := b;
            rxIndex := UChar(rxIndex + 1);
          }
        } else if b == LineFeed {
          if saveInput {
            inputMessage[rxIndex] := b;
            rxIndex := UChar(rxIndex + 1);
            ParseData(Rmc, stop);
            forall i | 0 <= i < inputMessage.Length {
              inputMessage[i] := 0;
            }
            saveInput := false;
            assert inputMessage[..] == Zeros(MessageSize);
          }
        } else if saveInput {
          inputMessage[rxIndex] := b;
          rxIndex := UChar(rxIndex + 1);
        }
      }
    }

    /** `I2CSend(gps_buffer[n++])`: the byte at the cursor, or a read past the array. */
    method SendNext() returns (reply: Reply)
      requires Valid()
      modifies this`txIndex
      ensures reply == Load(gpsBuffer[..], old(txIndex)) && txIndex == (old(txIndex) + 1) % 256
    {
      if txIndex < gpsBuffer.Length {
        reply := Send(gpsBuffer[txIndex]);
      } else {
        reply := OutOfBounds(txIndex);
      }
      txIndex := UChar(txIndex + 1);
    }

    /** The SSP branch of the handler for one bus interrupt. */
    method OnBusEvent(e: BusEvent) returns (reply: Reply)
      requires Valid()
      modifies this`txIndex
      ensures Valid()
      ensures Abs() == Next(old(Abs()), Bus(e)).state && reply == Next(old(Abs()), Bus(e)).reply
    {
      if !e.dataNotAddress && e.readNotWrite {
        txIndex := 0;
        reply := SendNext();
      } else if e.dataNotAddress && e.readNotWrite && e.start {
        reply := SendNext();
      } else {
        reply := Silent;
      }
    }
  }
}
