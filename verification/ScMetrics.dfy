/** What the transmit counters count: the frames written, their octets, and the connections whose queue was full, over
    all connections there ever were. */
module ScMetrics {
  import opened Octets
  import opened ScAssembly
  import opened ScOutbox
  import opened ScState
  import opened ScRun
  import opened ScRunAll

  // ---- Sums over all connections ------------------------------------------

  type Measure = Record -> nat

  ghost function Total(ledger: map<Text, Record>, f: Measure): nat
    decreases |ledger|
  {
    if ledger == map[] then 0
    else
      var name :| name in ledger;
      f(ledger[name]) + Total(ledger - {name}, f)
  }

  /** Any connection can be counted first. */
  lemma {:induction false} TotalWithout(ledger: map<Text, Record>, f: Measure, name: Text)
    requires name in ledger
    ensures Total(ledger, f) == f(ledger[name]) + Total(ledger - {name}, f)
    decreases |ledger|
  {
    var first :| first in ledger && Total(ledger, f) == f(ledger[first]) + Total(ledger - {first}, f);
    if first != name {
      TotalWithout(ledger - {first}, f, name);
      TotalWithout(ledger - {name}, f, first);
      assert ledger - {first} - {name} == ledger - {name} - {first};
    }
  }

  lemma TotalUpdated(ledger: map<Text, Record>, f: Measure, name: Text, r: Record)
    requires name in ledger
    ensures Total(ledger[name := r], f) + f(ledger[name]) == Total(ledger, f) + f(r)
  {
    TotalWithout(ledger, f, name);
    TotalWithout(ledger[name := r], f, name);
    assert ledger[name := r] - {name} == ledger - {name};
  }

  lemma TotalAdded(ledger: map<Text, Record>, f: Measure, name: Text, r: Record)
    requires name !in ledger
    ensures Total(ledger[name := r], f) == Total(ledger, f) + f(r)
  {
    TotalWithout(ledger[name := r], f, name);
    assert ledger[name := r] - {name} == ledger;
  }

  function LengthOf(frames: seq<Bytes>): nat {
    if frames == [] then 0 else LengthOf(frames[..|frames| - 1]) + |frames[|frames| - 1]|
  }

  lemma LengthWith(frames: seq<Bytes>, frame: Bytes)
    ensures LengthOf(frames + [frame]) == LengthOf(frames) + |frame|
  {
    assert (frames + [frame])[..|frames|] == frames;
  }

  function FramesWritten(r: Record): nat {
    |r.sent.written|
  }

  function OctetsWritten(r: Record): nat {
    LengthOf(r.sent.written)
  }

  function QueueWasFull(r: Record): nat {
    if r.sent.overflowed then 1 else 0
  }

  // ---- The counters -------------------------------------------------------

  ghost predicate Counted(m: Metrics, ledger: map<Text, Record>) {
    m.txMessages == Total(ledger, FramesWritten) && m.txBytes == Total(ledger, OctetsWritten) &&
    m.txQueueOverflows == Total(ledger, QueueWasFull)
  }

  /** One record changes, and the counters by as much. */
  lemma OneRecordCounted(m: Metrics, m': Metrics, ledger: map<Text, Record>, name: Text, r: Record)
    requires Counted(m, ledger) && name in ledger
    requires m'.txMessages + FramesWritten(ledger[name]) == m.txMessages + FramesWritten(r)
    requires m'.txBytes + OctetsWritten(ledger[name]) == m.txBytes + OctetsWritten(r)
    requires m'.txQueueOverflows + QueueWasFull(ledger[name]) == m.txQueueOverflows + QueueWasFull(r)
    ensures Counted(m', ledger[name := r])
  {
    TotalUpdated(ledger, FramesWritten, name, r);
    TotalUpdated(ledger, OctetsWritten, name, r);
    TotalUpdated(ledger, QueueWasFull, name, r);
  }

  lemma CallbackCounted(w: World, cb: Callback)
    requires Inv(w) && LwsMay(w, cb) && Counted(w.s.metrics, w.ledger)
    ensures Counted(AfterCallback(w, cb).s.metrics, AfterCallback(w, cb).ledger)
  {
    hide Holds, FramesOk, EventsOk, Mirrored, Take, Total, Inv;
    if cb.Established? && cb.ours {
      EstablishedCounted(w, cb.wsi);
    } else if !cb.Established? && cb.wsi in w.s.peers {
      PeerIsOk(w, cb.wsi);
      var name := NameOn(w, cb.wsi);
      var r := AfterCallback(w, cb).ledger[name];
      if cb.ServerWriteable? {
        TurnCounted(w, cb.wsi, cb.written);
      } else {
        assert r.sent.written == w.ledger[name].sent.written && r.sent.overflowed == w.ledger[name].sent.overflowed;
        OneRecordCounted(w.s.metrics, AfterCallback(w, cb).s.metrics, w.ledger, name, r);
        assert AfterCallback(w, cb).ledger == w.ledger[name := r];
      }
    }
  }

  lemma EstablishedCounted(w: World, wsi: Wsi)
    requires Inv(w) && Counted(w.s.metrics, w.ledger)
    ensures var v := AfterCallback(w, Established(wsi, true)); Counted(v.s.metrics, v.ledger)
  {
    hide FramesOk, EventsOk, Mirrored, Total, ConnectionString;
    NextNameIsNew(w, w.s.listenUri);
    var name, r := NextName(w), Record(w.s.listenUri, w.s.nextClientId, [], NOTHING_SENT, 0);
    TotalAdded(w.ledger, FramesWritten, name, r);
    TotalAdded(w.ledger, OctetsWritten, name, r);
    TotalAdded(w.ledger, QueueWasFull, name, r);
  }

  lemma TurnCounted(w: World, wsi: Wsi, written: int)
    requires Counted(w.s.metrics, w.ledger) && wsi in w.s.peers && NameOn(w, wsi) in w.ledger
    ensures var v := AfterCallback(w, ServerWriteable(wsi, written)); Counted(v.s.metrics, v.ledger)
  {
    hide Total, Writeable;
    var v := AfterCallback(w, ServerWriteable(wsi, written));
    var name, turn := NameOn(w, wsi), Writeable(w.s.peers[wsi].tx, written).1;
    if turn.Writes? {
      LengthWith(w.ledger[name].sent.written, turn.frame);
    }
    OneRecordCounted(w.s.metrics, v.s.metrics, w.ledger, name, v.ledger[name]);
    assert v.ledger == w.ledger[name := v.ledger[name]];
  }

  lemma {:induction false} CallbacksCounted(w: World, cbs: seq<Callback>)
    requires Inv(w) && LwsMayAll(w, cbs) && Counted(w.s.metrics, w.ledger)
    ensures Counted(AfterCallbacks(w, cbs).s.metrics, AfterCallbacks(w, cbs).ledger)
    decreases |cbs|
  {
    hide Inv, LwsMay, AfterCallback, Counted;
    if cbs != [] {
      CallbackKeepsInv(w, cbs[0]);
      CallbackCounted(w, cbs[0]);
      CallbacksCounted(AfterCallback(w, cbs[0]), cbs[1..]);
    }
  }

  lemma SendCounted(w: World, name: Text, data: Bytes)
    requires Inv(w) && Counted(w.s.metrics, w.ledger)
    ensures var v := Next(w, SendsTo(name, data)); Counted(v.s.metrics, v.ledger)
  {
    hide Inv, Total, Holds;
    var v := Next(w, SendsTo(name, data));
    if name in w.s.connStringToWsi && w.s.connStringToWsi[name] in w.s.peers {
      var wsi := w.s.connStringToWsi[name];
      NameOnIs(w, name);
      PeerIsOk(w, wsi);
      FullOnce(w.s.peers[wsi].tx, w.ledger[name].sent);
      OneRecordCounted(w.s.metrics, v.s.metrics, w.ledger, name, v.ledger[name]);
      assert v.ledger == w.ledger[name := v.ledger[name]];
    } else {
      NothingSent(w, name, data);
    }
  }

  /** A queue that is full now was never full before: its connection would be closing. */
  lemma FullOnce(o: Outbox, h: Sent)
    requires InOrder(o, h)
    ensures Overflows(o) ==> !h.overflowed
  {
  }

  lemma ListenerCounted(w: World, e: Event)
    requires Inv(w) && Allowed(w, e) && Counted(w.s.metrics, w.ledger)
    requires e.StartsListening? || e.StopsListening? || e.ReloadsCredentials? || e.Serves?
    ensures Counted(Next(w, e).s.metrics, Next(w, e).ledger)
  {
    hide Inv, OnCallbacks, LwsMayAll, NextState, AfterCallbacks, Counted;
    if Destroys(w.s, e) {
      CallbacksCounted(w, During(e));
      CallbacksState(w, During(e));
      DestroyedState(w.s, e);
    } else {
      OnlySettings(w.s, e);
    }
  }

  lemma NextCounted(w: World, e: Event)
    requires Inv(w) && Allowed(w, e) && Counted(w.s.metrics, w.ledger)
    ensures Counted(Next(w, e).s.metrics, Next(w, e).ledger)
  {
    hide Inv, Noted, OnCallback, Send, StartListening, StopListening, ReloadCredentials, Service, WithSent,
      LwsMayDestroy, Counted, Destroys;
    match e
    case Lws(cb) => CallbackCounted(w, cb);
    case SendsTo(name, data) => SendCounted(w, name, data);
    case Disconnects(_) =>
    case PopsReceived =>
    case PopsStatusEvent =>
    case _ => ListenerCounted(w, e);
  }

  lemma NothingCounted(configured: bool)
    ensures Counted(Open(configured).s.metrics, Open(configured).ledger)
  {
  }

  lemma {:induction false} RunCounted(configured: bool, es: seq<Event>)
    requires AllAllowed(Open(configured), es)
    ensures var w := Run(Open(configured), es); Counted(w.s.metrics, w.ledger)
    decreases |es|
  {
    hide Inv, Next, Allowed, Counted;
    if es == [] {
      NothingCounted(configured);
    } else {
      var before := es[..|es| - 1];
      RunKeepsInv(configured, before);
      RunCounted(configured, before);
      NextCounted(Run(Open(configured), before), es[|es| - 1]);
    }
  }

  /** In every run txMessages and txBytes are the number and the total length of the frames written, over all connections
      there ever were, and txQueueOverflows is the number of connections whose queue was ever full. */
  lemma MetricsCountWrites(configured: bool, es: seq<Event>)
    requires AllAllowed(Open(configured), es)
    ensures var w := Run(Open(configured), es);
            w.s.metrics.txMessages == Total(w.ledger, FramesWritten) &&
            w.s.metrics.txBytes == Total(w.ledger, OctetsWritten) &&
            w.s.metrics.txQueueOverflows == Total(w.ledger, QueueWasFull)
  {
    hide Run, AllAllowed;
    RunCounted(configured, es);
  }
}
