/**
  The UART branch of the high-priority interrupt (main.c:174-210): a line framer that captures
  bytes from '$' up to '\n' into the 256-byte `input_message`, keeping its write index `n` and
  its flag `save_input` in static variables.

  `uartReceive` (uart_layer.c:55-68) is reduced to its result: the byte and `ok`, which holds
  exactly when neither a framing nor an overrun error was pending. A byte received with an
  error is not looked at.
*/
module LineFramer {
  import opened Bytes

  /** `sizeof(input_message)`. */
  const MessageSize: nat := 256

  /** `input_message`, the static index `n` of the UART branch, and `save_input`. */
  datatype Framer = Framer(message: seq<Byte>, index: Byte, capturing: bool)

  predicate Valid(f: Framer) {
    |f.message| == MessageSize
  }

  /** The framer at reset: a zero-filled buffer, index 0, not capturing. */
  const Idle: Framer := Framer(Zeros(MessageSize), 0, false)

  /** The framer after one byte, and whether that byte made the handler run the decoder. */
  datatype Outcome = Outcome(framer: Framer, decode: bool)

  /**
    One received byte. A '$' starts a capture only when none is running; a '\n' ends a running
    capture, runs the decoder and wipes the buffer; any other byte is stored while capturing.
    The index is an `unsigned char`, so every store is inside the 256-byte buffer.
  */
  function Receive(f: Framer, b: Byte, ok: bool): (r: Outcome)
    requires Valid(f)
    ensures Valid(r.framer)
    ensures r.decode <==> ok && b == LineFeed && f.capturing
    ensures !ok ==> r.framer == f
  {
    if !ok then Outcome(f, false)
    else if b == Dollar then
      if f.capturing then Outcome(f, false)
      else Outcome(Framer(f.message[0 := Dollar], 1, true), false)
    else if b == LineFeed then
      if f.capturing then Outcome(Framer(Zeros(MessageSize), UChar(f.index + 1), false), true)
      else Outcome(f, false)
    else if f.capturing then Outcome(Framer(f.message[f.index := b], UChar(f.index + 1), true), false)
    else Outcome(f, false)
  }

  /** A '$' while idle opens a capture with '$' at index 0 and the index at 1. */
  lemma StartCapture(f: Framer)
    requires Valid(f) && !f.capturing
    ensures var r := Receive(f, Dollar, true).framer;
      r.capturing && r.index == 1 && r.message[0] == Dollar && r.message[1..] == f.message[1..]
  {
  }

  /** A '$' during a capture, and any byte other than '$' while idle, change nothing. */
  lemma IgnoredBytes(f: Framer, b: Byte)
    requires Valid(f)
    requires (f.capturing && b == Dollar) || (!f.capturing && b != Dollar)
    ensures Receive(f, b, true) == Outcome(f, false)
  {
  }

  /** During a capture an ordinary byte lands at the index, which then moves on by one modulo 256. */
  lemma AppendByte(f: Framer, b: Byte)
    requires Valid(f) && f.capturing && b != Dollar && b != LineFeed
    ensures var r := Receive(f, b, true).framer;
      && r.capturing
      && r.index == (f.index + 1) % 256
      && r.message[f.index] == b
      && forall i :: 0 <= i < MessageSize && i != f.index ==> r.message[i] == f.message[i]
  {
  }

  /** The terminator of a capture runs the decoder and leaves an idle framer with a zero buffer. */
  lemma EndCapture(f: Framer)
    requires Valid(f) && f.capturing
    ensures var r := Receive(f, LineFeed, true);
      r.decode && !r.framer.capturing && r.framer.message == Zeros(MessageSize)
  {
  }

  /** Between captures the buffer is all zeros. */
  predicate Clean(f: Framer) {
    Valid(f) && (!f.capturing ==> f.message == Zeros(MessageSize))
  }

  lemma IdleIsClean()
    ensures Clean(Idle)
  {
  }

  lemma ReceiveKeepsClean(f: Framer, b: Byte, ok: bool)
    requires Clean(f)
    ensures Clean(Receive(f, b, ok).framer)
  {
  }

  /** The framer after the error-free bytes `bs`, one call of the handler per byte. */
  function Feed(f: Framer, bs: seq<Byte>): (r: Framer)
    requires Valid(f)
    ensures Valid(r)
    decreases |bs|
  {
    if bs == [] then f else Receive(Feed(f, bs[..|bs| - 1]), bs[|bs| - 1], true).framer
  }

  /** How many of the error-free bytes `bs` made the handler run the decoder. */
  function Triggers(f: Framer, bs: seq<Byte>): (k: nat)
    requires Valid(f)
    ensures k <= |bs|
    decreases |bs|
  {
    if bs == [] then 0
    else Triggers(f, bs[..|bs| - 1]) + (if Receive(Feed(f, bs[..|bs| - 1]), bs[|bs| - 1], true).decode then 1 else 0)
  }

  /** A payload that neither restarts nor ends a capture and fits behind the '$'. */
  predicate Payload(p: seq<Byte>) {
    |p| < MessageSize - 1 && forall i :: 0 <= i < |p| ==> p[i] != Dollar && p[i] != LineFeed
  }

  /**
    From a clean idle framer, '$' followed by a payload leaves exactly '$', the payload and
    zeros in the buffer, with the index just past the payload, and runs the decoder never.
  */
  lemma {:induction false} CaptureLine(f: Framer, p: seq<Byte>)
    requires Clean(f) && !f.capturing && Payload(p)
    ensures Feed(f, [Dollar] + p) == Framer([Dollar] + p + Zeros(MessageSize - 1 - |p|), 1 + |p|, true)
    ensures Triggers(f, [Dollar] + p) == 0
    decreases |p|
  {
    if p == [] {
      assert [Dollar] + p == [] + [Dollar];
      assert Feed(f, []) == f;
      assert f.message[0 := Dollar] == [Dollar] + Zeros(MessageSize - 1);
    } else {
      var q := p[..|p| - 1];
      var b := p[|p| - 1];
      assert ([Dollar] + p)[..|p|] == [Dollar] + q;
      assert Payload(q) by {
        assert forall i :: 0 <= i < |q| ==> q[i] == p[i];
      }
      CaptureLine(f, q);
      var g := Feed(f, [Dollar] + q);
      assert b != Dollar && b != LineFeed;
      assert Feed(f, [Dollar] + p) == Receive(g, b, true).framer;
      assert g.message[|p| := b] == [Dollar] + p + Zeros(MessageSize - 1 - |p|);
    }
  }

  /** A whole line '$' payload '\n' runs the decoder exactly once, on its last byte, and ends clean. */
  lemma {:induction false} WholeLine(f: Framer, p: seq<Byte>)
    requires Clean(f) && !f.capturing && Payload(p)
    ensures Triggers(f, [Dollar] + p + [LineFeed]) == 1
    ensures var r := Feed(f, [Dollar] + p + [LineFeed]);
      Clean(r) && !r.capturing && r.index == (2 + |p|) % 256
  {
    var line := [Dollar] + p + [LineFeed];
    assert line[..|line| - 1] == [Dollar] + p;
    CaptureLine(f, p);
  }
}
