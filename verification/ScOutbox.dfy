/** The transmit queue of one connection and how the connection is closed (sc_transport/ScTransport.cpp: EnqueueFrame,
    RequestClose, ApplyRequestedClose, FlushOneQueuedFrame and the WRITEABLE callback). */
module ScOutbox {
  import opened Octets

  const MAX_TX_QUEUE_FRAMES := 64
  const CLOSE_STATUS_NORMAL := 1000
  const CLOSE_STATUS_POLICY_VIOLATION := 1008

  datatype CloseRequest = CloseRequest(requested: bool, code: nat, reason: Text)

  /** `armed`: a WRITEABLE callback has been asked for since the last one. */
  datatype Outbox = Outbox(queue: seq<Bytes>, close: CloseRequest, armed: bool)

  const EMPTY_OUTBOX := Outbox([], CloseRequest(false, 0, ""), false)

  function RequestClose(o: Outbox, code: nat, reason: Text): Outbox {
    if o.close.requested then o else Outbox(o.queue, CloseRequest(true, code, reason), true)
  }

  predicate Overflows(o: Outbox) {
    !o.close.requested && |o.queue| >= MAX_TX_QUEUE_FRAMES
  }

  /** The new outbox, and whether the frame was accepted. */
  function Enqueue(o: Outbox, data: Bytes): (Outbox, bool) {
    if o.close.requested then (o, false)
    else if Overflows(o) then
      (RequestClose(o.(queue := []), CLOSE_STATUS_POLICY_VIOLATION, "transmit queue full"), false)
    else (o.(queue := o.queue + [data], armed := true), true)
  }

  /** A WRITEABLE callback closes the connection as asked, breaks it off after a short write, writes one frame, or has
      nothing to do. */
  datatype Turn = Closes(code: nat, reason: Text) | Breaks | Writes(frame: Bytes) | Idles {
    predicate Ends() {
      Closes? || Breaks?
    }
  }

  predicate ClosesNow(o: Outbox) {
    o.close.requested && (o.close.code == CLOSE_STATUS_POLICY_VIOLATION || o.queue == [])
  }

  /** `written` is what lws_write returns, if it is called. */
  function Writeable(o: Outbox, written: int): (Outbox, Turn) {
    if ClosesNow(o) then (o.(armed := false), Closes(o.close.code, o.close.reason))
    else if o.queue == [] then (o.(armed := false), Idles)
    else if written < |o.queue[0]| then (o.(queue := o.queue[1..], armed := false), Breaks)
    else (o.(queue := o.queue[1..], armed := o.close.requested || |o.queue| > 1), Writes(o.queue[0]))
  }

  // ---- What every operation keeps -----------------------------------------

  /** The frames accepted and written so far, whether the queue was ever full, whether a write was short, and whether a
      callback has ended the connection (for that or another reason), so that lws gives it no further callback but
      CLOSED. */
  datatype Sent = Sent(accepted: seq<Bytes>, written: seq<Bytes>, overflowed: bool, broken: bool, ended: bool)

  const NOTHING_SENT := Sent([], [], false, false, false)

  predicate LostFrames(o: Outbox) {
    o.close.requested && o.close.code == CLOSE_STATUS_POLICY_VIOLATION
  }

  /** Accepted = written + queued, until frames are lost; from then on what was written is still the first part of
      what was accepted. A frame or a close that is due has a callback coming. */
  predicate InOrder(o: Outbox, h: Sent) {
    |o.queue| <= MAX_TX_QUEUE_FRAMES && h.written <= h.accepted &&
    (o.close.requested ==> o.close.code in [CLOSE_STATUS_NORMAL, CLOSE_STATUS_POLICY_VIOLATION]) &&
    (LostFrames(o) ==> o.queue == []) && (h.overflowed <==> LostFrames(o)) &&
    (!h.broken && !h.overflowed ==> h.accepted == h.written + o.queue) &&
    (!h.ended && (o.queue != [] || o.close.requested) ==> o.armed) && (h.broken ==> h.ended)
  }

  function AfterSend(h: Sent, data: Bytes, accepted: bool, overflows: bool): Sent {
    if accepted then h.(accepted := h.accepted + [data])
    else if overflows then h.(overflowed := true)
    else h
  }

  function AfterTurn(h: Sent, turn: Turn): Sent {
    match turn
    case Writes(frame) => h.(written := h.written + [frame])
    case Breaks => h.(broken := true, ended := true)
    case Closes(_, _) => h.(ended := true)
    case Idles => h
  }

  lemma EnqueueKeepsOrder(o: Outbox, h: Sent, data: Bytes)
    requires InOrder(o, h)
    ensures InOrder(Enqueue(o, data).0, AfterSend(h, data, Enqueue(o, data).1, Overflows(o)))
    ensures Enqueue(o, data).1 ==> !o.close.requested
  {
    assert h.accepted + [data] == h.written + (o.queue + [data]) <== h.accepted == h.written + o.queue;
  }

  /** A frame is accepted exactly while no close is asked for and fewer than 64 wait; it then waits behind them and a
      callback is coming. */
  lemma EnqueueIff(o: Outbox, data: Bytes)
    ensures var (p, accepted) := Enqueue(o, data);
            (accepted <==> !o.close.requested && |o.queue| < 64) &&
            (accepted ==> p.queue == o.queue + [data] && p.armed && p.close == o.close) &&
            (!accepted && o.close.requested ==> p == o)
  {
  }

  lemma RequestKeepsOrder(o: Outbox, h: Sent)
    requires InOrder(o, h)
    ensures InOrder(RequestClose(o, CLOSE_STATUS_NORMAL, ""), h)
  {
  }

  lemma TurnKeepsOrder(o: Outbox, h: Sent, written: int)
    requires InOrder(o, h) && !h.ended
    ensures InOrder(Writeable(o, written).0, AfterTurn(h, Writeable(o, written).1))
  {
    if o.queue != [] {
      assert o.queue == [o.queue[0]] + o.queue[1..];
      assert h.written + o.queue == (h.written + [o.queue[0]]) + o.queue[1..];
    }
  }

  /** What a turn does whose frame is written whole: it writes the first frame that waits, unless the connection is to be
      closed at once, closes when a close is asked for and nothing waits, and else has nothing to do. */
  lemma WholeTurnIs(o: Outbox, written: int)
    requires o.queue != [] ==> written >= |o.queue[0]|
    ensures var (p, turn) := Writeable(o, written);
            (turn.Closes? <==> o.close.requested && (o.close.code == 1008 || o.queue == [])) &&
            (turn.Writes? <==> o.queue != [] && !(o.close.requested && o.close.code == 1008)) &&
            (turn.Writes? ==> o.queue == [turn.frame] + p.queue && p.close == o.close) &&
            (turn.Closes? ==> turn == Closes(o.close.code, o.close.reason)) && !turn.Breaks?
  {
    if o.queue != [] {
      assert o.queue == [o.queue[0]] + o.queue[1..];
    }
  }

  /** The frames written in so many turns, each writing its frame whole. */
  function WrittenIn(o: Outbox, turns: nat): seq<Bytes>
    decreases turns
  {
    if turns == 0 then []
    else
      var (p, turn) := Writeable(o, if o.queue == [] then 0 else |o.queue[0]|);
      (if turn.Writes? then [turn.frame] else []) + WrittenIn(p, turns - 1)
  }

  /** Unless the connection is closed at once, what waits is written in order, one frame a turn. */
  lemma {:induction false} QueueIsWritten(o: Outbox, turns: nat)
    requires !(o.close.requested && o.close.code == 1008) && turns <= |o.queue|
    ensures WrittenIn(o, turns) == o.queue[..turns]
    decreases turns
  {
    if turns > 0 {
      WholeTurnIs(o, |o.queue[0]|);
      var p := Writeable(o, |o.queue[0]|).0;
      QueueIsWritten(p, turns - 1);
      assert o.queue[..turns] == [o.queue[0]] + p.queue[..turns - 1];
    }
  }

  /** A normal close comes only when every accepted frame has been written. */
  lemma NormalCloseComesLast(o: Outbox, h: Sent, written: int)
    requires InOrder(o, h) && !h.ended && Writeable(o, written).1.Closes?
    ensures var code := Writeable(o, written).1.code;
            code == CLOSE_STATUS_NORMAL || code == CLOSE_STATUS_POLICY_VIOLATION
    ensures Writeable(o, written).1.code == CLOSE_STATUS_NORMAL ==> h.accepted == h.written
  {
  }

  // ---- When the close comes -----------------------------------------------

  /** What can happen to a connection between two turns, and a turn in which the whole frame is written. */
  datatype Deed = Sends(data: Bytes) | AsksToClose | Turns

  function Do(o: Outbox, d: Deed): Outbox {
    match d
    case Sends(data) => Enqueue(o, data).0
    case AsksToClose => RequestClose(o, CLOSE_STATUS_NORMAL, "")
    case Turns => if o.queue == [] then Writeable(o, 0).0 else Writeable(o, |o.queue[0]|).0
  }

  function DoAll(o: Outbox, deeds: seq<Deed>): Outbox {
    if deeds == [] then o else Do(DoAll(o, deeds[..|deeds| - 1]), deeds[|deeds| - 1])
  }

  function TurnsIn(deeds: seq<Deed>): nat {
    if deeds == [] then 0
    else TurnsIn(deeds[..|deeds| - 1]) + if deeds[|deeds| - 1].Turns? then 1 else 0
  }

  /** Once a normal close is asked for, each turn writes the next queued frame, whatever else is asked for between. */
  lemma {:induction false} QueueRunsOut(o: Outbox, deeds: seq<Deed>)
    requires o.close.requested && o.close.code == CLOSE_STATUS_NORMAL && TurnsIn(deeds) <= |o.queue|
    ensures DoAll(o, deeds).close == o.close && DoAll(o, deeds).queue == o.queue[TurnsIn(deeds)..]
    decreases |deeds|
  {
    if deeds != [] {
      QueueRunsOut(o, deeds[..|deeds| - 1]);
    }
  }

  /** So it comes in turn |queue| + 1 and not before. */
  lemma NormalCloseInTime(o: Outbox, deeds: seq<Deed>, written: int)
    requires o.close.requested && o.close.code == CLOSE_STATUS_NORMAL && TurnsIn(deeds) <= |o.queue|
    ensures Writeable(DoAll(o, deeds), written).1.Closes? <==> TurnsIn(deeds) == |o.queue|
  {
    QueueRunsOut(o, deeds);
  }

  /** A full queue: the frame is refused, nothing more is accepted, and the next turn closes with 1008. */
  lemma OverflowClosesAtOnce(o: Outbox, data: Bytes, more: Bytes, written: int)
    requires Overflows(o)
    ensures var (full, accepted) := Enqueue(o, data);
            !accepted && full.armed && Enqueue(full, more) == (full, false) &&
            RequestClose(full, CLOSE_STATUS_NORMAL, "") == full &&
            Writeable(full, written).1 == Closes(CLOSE_STATUS_POLICY_VIOLATION, "transmit queue full")
  {
  }
}
