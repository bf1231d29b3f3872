/**
  The SSP (I2C slave) branch of the high-priority interrupt (main.c:212-225): it serves
  `gps_buffer` to the bus master one byte per interrupt, through a static `unsigned char`
  cursor `n`.

  `I2CSend` (I2CCom.c:36-42) is reduced to the byte it hands to the bus; `I2CCheckError`
  (I2CCom.c:48-58) only empties the receive buffer and clears the overflow and collision flags,
  and is not part of this model. The three status
  bits the handler tests are the fields of `BusEvent`.
*/
module BusServer {
  import opened Bytes

  /** `SSPSTATbits.D_NOT_A`, `SSPSTATbits.R_NOT_W` and `SSPSTATbits.S` at the interrupt. */
  datatype BusEvent = BusEvent(dataNotAddress: bool, readNotWrite: bool, start: bool)

  /**
    What one interrupt hands to the bus: nothing, a byte, or a read of `gps_buffer[index]` with
    `index` past the end of the array, whose value C leaves undefined.
  */
  datatype Reply = Silent | Send(value: Byte) | OutOfBounds(index: Byte)

  /** The cursor after an interrupt, and its reply. */
  datatype Served = Served(cursor: Byte, reply: Reply)

  /** The master addressed this device for a read: a transaction begins. */
  predicate Opens(e: BusEvent) {
    !e.dataNotAddress && e.readNotWrite
  }

  /** The master acknowledged a data byte and wants the next one. */
  predicate Continues(e: BusEvent) {
    e.dataNotAddress && e.readNotWrite && e.start
  }

  /** `gps_buffer[cursor]`: the byte there, or a read past the end of the array. */
  function Load(buffer: seq<Byte>, cursor: Byte): (r: Reply)
    ensures r.Send? <==> cursor < |buffer|
    ensures r.Send? ==> r.value == buffer[cursor]
    ensures r.OutOfBounds? ==> r.index == cursor
  {
    if cursor < |buffer| then Send(buffer[cursor]) else OutOfBounds(cursor)
  }

  /**
    One interrupt, as written: an address+read event resets the cursor and sends byte 0; a
    data+read event with the start bit sends the byte at the cursor; both move the cursor on by
    one with `unsigned char` wrap-around and without any bound check. Other events do nothing.
  */
  function Respond(buffer: seq<Byte>, cursor: Byte, e: BusEvent): (r: Served)
    ensures Opens(e) ==> r.cursor == 1 && r.reply == Load(buffer, 0)
    ensures Continues(e) ==> r.cursor == (cursor + 1) % 256 && r.reply == Load(buffer, cursor)
    ensures !Opens(e) && !Continues(e) ==> r == Served(cursor, Silent)
  {
    if Opens(e) then Served(UChar(0 + 1), Load(buffer, 0))
    else if Continues(e) then Served(UChar(cursor + 1), Load(buffer, cursor))
    else Served(cursor, Silent)
  }

  /**
    The evidently intended server: a read past the end of the buffer sends 0 instead of
    reading outside it, and the cursor stops at 255 instead of wrapping.
  */
  function RespondPadded(buffer: seq<Byte>, cursor: Byte, e: BusEvent): (r: Served)
    ensures r.reply.Silent? || r.reply.Send?
    ensures Opens(e) ==> r.cursor == 1 && r.reply == Send(At(buffer, 0))
    ensures Continues(e) ==> r.cursor == (if cursor < 255 then cursor + 1 else 255) && r.reply == Send(At(buffer, cursor))
    ensures !Opens(e) && !Continues(e) ==> r == Served(cursor, Silent)
  {
    if Opens(e) then Served(1, Send(At(buffer, 0)))
    else if Continues(e) then Served(if cursor < 255 then cursor + 1 else 255, Send(At(buffer, cursor)))
    else Served(cursor, Silent)
  }

  /** One interrupt of either server. */
  function Server(padded: bool, buffer: seq<Byte>, cursor: Byte, e: BusEvent): Served {
    if padded then RespondPadded(buffer, cursor, e) else Respond(buffer, cursor, e)
  }

  /** The cursor after a sequence of interrupts, and their replies in order. */
  datatype Transcript = Transcript(cursor: Byte, replies: seq<Reply>)

  function Replay(padded: bool, buffer: seq<Byte>, cursor: Byte, es: seq<BusEvent>): (t: Transcript)
    ensures |t.replies| == |es|
    decreases |es|
  {
    if es == [] then Transcript(cursor, [])
    else
      var s := Server(padded, buffer, cursor, es[0]);
      var t := Replay(padded, buffer, s.cursor, es[1..]);
      Transcript(t.cursor, [s.reply] + t.replies)
  }

  /** The replies that put something on the bus, in order. */
  function Heard(rs: seq<Reply>): (h: seq<Reply>)
    ensures |h| <= |rs|
    ensures forall i :: 0 <= i < |h| ==> !h[i].Silent?
  {
    if rs == [] then []
    else (if rs[0].Silent? then [] else [rs[0]]) + Heard(rs[1..])
  }

  /** `k` reads of `buffer` from `cursor` on, the cursor wrapping at 256 like an `unsigned char`. */
  function Reads(buffer: seq<Byte>, cursor: Byte, k: nat): (r: seq<Reply>)
    ensures |r| == k
    decreases k
  {
    if k == 0 then [] else [Load(buffer, cursor)] + Reads(buffer, UChar(cursor + 1), k - 1)
  }

  /** `k` reads of the padded server from `cursor` on. */
  function PaddedReads(buffer: seq<Byte>, cursor: Byte, k: nat): (r: seq<Reply>)
    ensures |r| == k
    ensures forall i :: 0 <= i < k ==> r[i].Send?
    decreases k
  {
    if k == 0 then [] else [Send(At(buffer, cursor))] + PaddedReads(buffer, if cursor < 255 then cursor + 1 else 255, k - 1)
  }

  /** Which reads the cursor visits: `Reads` is byte `cursor + i` modulo 256. */
  lemma {:induction false} ReadsAt(buffer: seq<Byte>, cursor: Byte, k: nat, i: nat)
    requires i < k
    ensures Reads(buffer, cursor, k)[i] == Load(buffer, (cursor + i) % 256)
    decreases k
  {
    if i > 0 {
      ReadsAt(buffer, UChar(cursor + 1), k - 1, i - 1);
      UCharShift(cursor + i, 0);
      assert (UChar(cursor + 1) + (i - 1)) % 256 == (cursor + i) % 256;
    }
  }

  /** Within the first 256 bytes, the padded server reads byte `cursor + i`, and 0 past the buffer. */
  lemma {:induction false} PaddedReadsAt(buffer: seq<Byte>, cursor: Byte, k: nat, i: nat)
    requires i < k && cursor + i < 256
    ensures PaddedReads(buffer, cursor, k)[i] == Send(At(buffer, cursor + i))
    decreases k
  {
    if i > 0 {
      PaddedReadsAt(buffer, cursor + 1, k - 1, i - 1);
    }
  }

  /**
    With no new address event, the as-written server's replies are the successive reads from the
    cursor, silent events in between; the cursor ends as many places on, modulo 256.
  */
  lemma {:induction false} ContinuingReplies(buffer: seq<Byte>, cursor: Byte, es: seq<BusEvent>)
    requires forall i :: 0 <= i < |es| ==> !Opens(es[i])
    ensures var t := Replay(false, buffer, cursor, es);
      && Heard(t.replies) == Reads(buffer, cursor, |Heard(t.replies)|)
      && t.cursor == (cursor + |Heard(t.replies)|) % 256
    decreases |es|
  {
    if es != [] {
      var s := Respond(buffer, cursor, es[0]);
      ContinuingReplies(buffer, s.cursor, es[1..]);
      var t := Replay(false, buffer, s.cursor, es[1..]);
      var m := |Heard(t.replies)|;
      assert Replay(false, buffer, cursor, es).replies == [s.reply] + t.replies;
      assert ([s.reply] + t.replies)[1..] == t.replies;
      if Continues(es[0]) {
        assert (s.cursor + m) % 256 == (cursor + 1 + m) % 256 by {
          UCharShift(cursor + 1 + m, -((cursor + 1) / 256));
        }
      }
    }
  }

  /** The padded server's counterpart of `ContinuingReplies`. */
  lemma {:induction false} ContinuingPaddedReplies(buffer: seq<Byte>, cursor: Byte, es: seq<BusEvent>)
    requires forall i :: 0 <= i < |es| ==> !Opens(es[i])
    ensures var t := Replay(true, buffer, cursor, es);
      Heard(t.replies) == PaddedReads(buffer, cursor, |Heard(t.replies)|)
    decreases |es|
  {
    if es != [] {
      var s := RespondPadded(buffer, cursor, es[0]);
      ContinuingPaddedReplies(buffer, s.cursor, es[1..]);
      var t := Replay(true, buffer, s.cursor, es[1..]);
      assert Replay(true, buffer, cursor, es).replies == [s.reply] + t.replies;
      assert ([s.reply] + t.replies)[1..] == t.replies;
    }
  }

  /**
    A read transaction: an address+read event and then any events but another address+read.
    The as-written server puts `buffer[0]`, `buffer[1]`, ... on the bus in order, one per serving
    event, as long as the count stays within the buffer.
  */
  lemma Transaction(buffer: seq<Byte>, cursor: Byte, open: BusEvent, es: seq<BusEvent>)
    requires Opens(open)
    requires forall i :: 0 <= i < |es| ==> !Opens(es[i])
    ensures var h := Heard(Replay(false, buffer, cursor, [open] + es).replies);
      && |h| >= 1
      && (forall i :: 0 <= i < |h| ==> h[i] == Load(buffer, i % 256))
      && (forall i :: 0 <= i < |h| && i < |buffer| && i < 256 ==> h[i] == Send(buffer[i]))
  {
    var h := Heard(Replay(false, buffer, cursor, [open] + es).replies);
    OpenedReplies(false, buffer, cursor, open, es);
    ContinuingReplies(buffer, 1, es);
    assert h == Reads(buffer, 0, |h|);
    forall i | 0 <= i < |h|
      ensures h[i] == Load(buffer, i % 256)
      ensures i < |buffer| && i < 256 ==> h[i] == Send(buffer[i])
    {
      ReadsAt(buffer, 0, |h|, i);
    }
  }

  /** A transaction's replies: the reply to the address event, then those of a fresh cursor at 1. */
  lemma OpenedReplies(padded: bool, buffer: seq<Byte>, cursor: Byte, open: BusEvent, es: seq<BusEvent>)
    requires Opens(open)
    ensures Heard(Replay(padded, buffer, cursor, [open] + es).replies)
         == [Server(padded, buffer, cursor, open).reply] + Heard(Replay(padded, buffer, 1, es).replies)
  {
    var all := [open] + es;
    assert all[0] == open && all[1..] == es;
    var s := Server(padded, buffer, cursor, open);
    var t := Replay(padded, buffer, 1, es);
    assert Replay(padded, buffer, cursor, all).replies == [s.reply] + t.replies;
    assert ([s.reply] + t.replies)[1..] == t.replies;
  }

  /**
    The as-written server overruns: in a transaction of sixteen reads of the 15-byte buffer the
    sixteenth reads `gps_buffer[15]`, one past the end.
  */
  lemma OverrunOnSixteenthRead(buffer: seq<Byte>, cursor: Byte, open: BusEvent, es: seq<BusEvent>)
    requires |buffer| == 15 && Opens(open)
    requires forall i :: 0 <= i < |es| ==> !Opens(es[i])
    requires |Heard(Replay(false, buffer, cursor, [open] + es).replies)| >= 16
    ensures Heard(Replay(false, buffer, cursor, [open] + es).replies)[15] == OutOfBounds(15)
  {
    Transaction(buffer, cursor, open, es);
  }

  /** Such a transaction exists: an address event and fifteen data events. */
  lemma SixteenReadsExist(buffer: seq<Byte>)
    requires |buffer| == 15
    ensures var es := seq(15, _ => BusEvent(true, true, true));
      |Heard(Replay(false, buffer, 0, [BusEvent(false, true, false)] + es).replies)| == 16
  {
    var es := seq(15, _ => BusEvent(true, true, true));
    var all := [BusEvent(false, true, false)] + es;
    forall i | 0 <= i < |all|
      ensures Opens(all[i]) || Continues(all[i])
    {
    }
    AllServe(false, buffer, 0, all);
  }

  /** When every event serves, every reply is heard. */
  lemma {:induction false} AllServe(padded: bool, buffer: seq<Byte>, cursor: Byte, es: seq<BusEvent>)
    requires forall i :: 0 <= i < |es| ==> Opens(es[i]) || Continues(es[i])
    ensures |Heard(Replay(padded, buffer, cursor, es).replies)| == |es|
    decreases |es|
  {
    if es != [] {
      var s := Server(padded, buffer, cursor, es[0]);
      AllServe(padded, buffer, s.cursor, es[1..]);
      var t := Replay(padded, buffer, s.cursor, es[1..]);
      assert Replay(padded, buffer, cursor, es).replies == [s.reply] + t.replies;
      assert ([s.reply] + t.replies)[1..] == t.replies;
    }
  }

  /**
    The padded server in a transaction sends the buffer and then zeros, never reading past the
    end, for at least the first 256 bytes.
  */
  lemma PaddedTransaction(buffer: seq<Byte>, cursor: Byte, open: BusEvent, es: seq<BusEvent>)
    requires Opens(open)
    requires forall i :: 0 <= i < |es| ==> !Opens(es[i])
    ensures var h := Heard(Replay(true, buffer, cursor, [open] + es).replies);
      && (forall i :: 0 <= i < |h| ==> h[i].Send?)
      && (forall i :: 0 <= i < |h| && i < 256 ==> h[i] == Send(At(buffer, i)))
  {
    var h := Heard(Replay(true, buffer, cursor, [open] + es).replies);
    OpenedReplies(true, buffer, cursor, open, es);
    ContinuingPaddedReplies(buffer, 1, es);
    assert h == PaddedReads(buffer, 0, |h|);
    forall i | 0 <= i < |h| && i < 256
      ensures h[i] == Send(At(buffer, i))
    {
      PaddedReadsAt(buffer, 0, |h|, i);
    }
  }

  /** While a transaction stays within the buffer, the padded server sends what the original sends. */
  lemma PaddedAgreesWithinBuffer(buffer: seq<Byte>, cursor: Byte, open: BusEvent, es: seq<BusEvent>)
    requires |buffer| < 256 && Opens(open)
    requires forall i :: 0 <= i < |es| ==> !Opens(es[i])
    requires |Heard(Replay(false, buffer, cursor, [open] + es).replies)| <= |buffer|
    ensures Heard(Replay(true, buffer, cursor, [open] + es).replies)
         == Heard(Replay(false, buffer, cursor, [open] + es).replies)
  {
    Transaction(buffer, cursor, open, es);
    PaddedTransaction(buffer, cursor, open, es);
    SameCountFrom(buffer, cursor, cursor, [open] + es);
  }

  /** Both servers answer the same events, whatever their cursors. */
  lemma {:induction false} SameCountFrom(buffer: seq<Byte>, c1: Byte, c2: Byte, es: seq<BusEvent>)
    ensures |Heard(Replay(true, buffer, c1, es).replies)| == |Heard(Replay(false, buffer, c2, es).replies)|
    decreases |es|
  {
    if es != [] {
      var p := RespondPadded(buffer, c1, es[0]);
      var w := Respond(buffer, c2, es[0]);
      SameCountFrom(buffer, p.cursor, w.cursor, es[1..]);
      var tp := Replay(true, buffer, p.cursor, es[1..]);
      var tw := Replay(false, buffer, w.cursor, es[1..]);
      assert Replay(true, buffer, c1, es).replies == [p.reply] + tp.replies;
      assert ([p.reply] + tp.replies)[1..] == tp.replies;
      assert Replay(false, buffer, c2, es).replies == [w.reply] + tw.replies;
      assert ([w.reply] + tw.replies)[1..] == tw.replies;
    }
  }
}
