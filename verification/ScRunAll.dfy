/** The invariant of ScRun through whole runs, and what it means for each connection. */
module ScRunAll {
  import opened Octets
  import opened ScAssembly
  import opened ScOutbox
  import opened ScState
  import opened ScRun

  // ---- Calls --------------------------------------------------------------

  lemma SendKeepsInv(w: World, name: Text, data: Bytes)
    requires Inv(w)
    ensures Inv(Next(w, SendsTo(name, data)))
  {
    hide Inv, Holds, InOrder, Enqueue, AfterSend, Overflows;
    var v := Next(w, SendsTo(name, data));
    if name in w.s.connStringToWsi && w.s.connStringToWsi[name] in w.s.peers {
      var wsi := w.s.connStringToWsi[name];
      NameOnIs(w, name);
      PeerIsOk(w, wsi);
      EnqueueKeepsOrder(w.s.peers[wsi].tx, w.ledger[name].sent, data);
      OnePeerKeepsInv(w, v, wsi);
    } else {
      NothingSent(w, name, data);
    }
  }

  lemma NameOnIs(w: World, name: Text)
    requires Inv(w) && name in w.s.connStringToWsi && w.s.connStringToWsi[name] in w.s.peers
    ensures NameOn(w, w.s.connStringToWsi[name]) == name
  {
    hide PeersOk, FramesOk, EventsOk;
  }

  lemma NothingSent(w: World, name: Text, data: Bytes)
    requires name !in w.s.connStringToWsi || w.s.connStringToWsi[name] !in w.s.peers
    ensures Next(w, SendsTo(name, data)).s == w.s && Next(w, SendsTo(name, data)).ledger == w.ledger
    ensures Next(w, SendsTo(name, data)) == w
  {
    assert name in w.ledger ==> w.ledger[name := w.ledger[name]] == w.ledger;
  }

  lemma DisconnectKeepsInv(w: World, name: Text)
    requires Inv(w)
    ensures Inv(Next(w, Disconnects(name)))
  {
    hide Inv, Holds, InOrder, RequestClose;
    var v := Next(w, Disconnects(name));
    if name in w.s.connStringToWsi && w.s.connStringToWsi[name] in w.s.peers {
      var wsi := w.s.connStringToWsi[name];
      NameOnIs(w, name);
      PeerIsOk(w, wsi);
      RequestKeepsOrder(w.s.peers[wsi].tx, w.ledger[name].sent);
      assert v.ledger == w.ledger[name := w.ledger[name]];
      OnePeerKeepsInv(w, v, wsi);
    } else {
      assert v == w;
    }
  }

  /** A pop hands out the oldest frame and leaves the others, and nothing exactly when none waits. */
  lemma PopReceivedIs(s: State)
    ensures var (t, popped) := PopReceived(s);
            s.rxQueue == Found(popped) + t.rxQueue && (popped.None? <==> s.rxQueue == []) &&
            t == s.(rxQueue := t.rxQueue)
  {
    if s.rxQueue != [] {
      assert s.rxQueue == [s.rxQueue[0]] + s.rxQueue[1..];
    }
  }

  lemma PopStatusEventIs(s: State)
    ensures var (t, popped) := PopStatusEvent(s);
            s.statusQueue == Found(popped) + t.statusQueue && (popped.None? <==> s.statusQueue == []) &&
            t == s.(statusQueue := t.statusQueue)
  {
    if s.statusQueue != [] {
      assert s.statusQueue == [s.statusQueue[0]] + s.statusQueue[1..];
    }
  }

  lemma PopsKeepInv(w: World)
    requires Inv(w)
    ensures Inv(Next(w, PopsReceived)) && Inv(Next(w, PopsStatusEvent))
  {
    hide Mirrored, PeersOk, FramesFrom, EventsFor, Messages, Fitting, TotalBytes;
    PopReceivedIs(w.s);
    PopStatusEventIs(w.s);
    var r, e := Found(PopReceived(w.s).1), Found(PopStatusEvent(w.s).1);
    assert w.frames + r + PopReceived(w.s).0.rxQueue == w.frames + w.s.rxQueue;
    assert w.events + e + PopStatusEvent(w.s).0.statusQueue == w.events + w.s.statusQueue;
    hide PopReceived, PopStatusEvent;
    SameTables(w.s, Next(w, PopsReceived).s, w.ledger);
    SameTables(w.s, Next(w, PopsStatusEvent).s, w.ledger);
  }

  /** The tables are as they were, whatever else changed. */
  lemma SameTables(s: State, after: State, ledger: map<Text, Record>)
    requires Mirrored(s) && PeersOk(s, ledger)
    requires after.peers == s.peers && after.connStringToWsi == s.connStringToWsi && after.nextClientId == s.nextClientId
    requires after.metrics == s.metrics
    ensures Mirrored(after) && PeersOk(after, ledger)
  {
    hide ConnectionString, PeerOk;
    forall n | n in ledger
      ensures Named(after, n, ledger[n])
    {
      assert Named(s, n, ledger[n]);
    }
  }

  // ---- Listener stops, restarts and reloads -------------------------------

  /** The fields that say whether and where the listener listens. */
  function Settings(s: State, listening: bool, uri: Text, wanted: Text): State {
    s.(listening := listening, listenUri := uri, wantedListenUri := wanted)
  }

  lemma SettingsKeepInv(w: World, listening: bool, uri: Text, wanted: Text)
    requires Inv(w)
    ensures Inv(w.(s := Settings(w.s, listening, uri, wanted)))
  {
    hide FramesFrom, EventsFor, Messages, Fitting, TotalBytes, Mirrored, PeersOk;
    SameTables(w.s, Settings(w.s, listening, uri, wanted), w.ledger);
  }

  lemma CallbackSettings(s: State, cb: Callback, wanted: Text)
    ensures var (after, c) := OnCallback(s, cb);
            OnCallback(s.(wantedListenUri := wanted), cb) == (after.(wantedListenUri := wanted), c) &&
            after.listening == s.listening && after.listenUri == s.listenUri && after.configured == s.configured
  {
    hide ConnectionString, Take, Writeable;
  }

  lemma {:induction false} CallbacksSettings(s: State, cbs: seq<Callback>, wanted: Text)
    ensures OnCallbacks(s.(wantedListenUri := wanted), cbs) == OnCallbacks(s, cbs).(wantedListenUri := wanted)
    ensures OnCallbacks(s, cbs).listening == s.listening && OnCallbacks(s, cbs).listenUri == s.listenUri
    decreases |cbs|
  {
    hide OnCallback;
    if cbs != [] {
      CallbackSettings(s, cbs[0], wanted);
      CallbacksSettings(OnCallback(s, cbs[0]).0, cbs[1..], wanted);
    }
  }

  lemma {:induction false} CallbacksState(w: World, cbs: seq<Callback>)
    ensures AfterCallbacks(w, cbs).s == OnCallbacks(w.s, cbs)
    decreases |cbs|
  {
    hide OnCallback, Noted;
    if cbs != [] {
      CallbacksState(AfterCallback(w, cbs[0]), cbs[1..]);
    }
  }

  lemma {:induction false} CallbacksKeepInv(w: World, cbs: seq<Callback>)
    requires Inv(w) && LwsMayAll(w, cbs)
    ensures Inv(AfterCallbacks(w, cbs))
    decreases |cbs|
  {
    hide Inv, LwsMay, AfterCallback;
    if cbs != [] {
      CallbackKeepsInv(w, cbs[0]);
      CallbacksKeepInv(AfterCallback(w, cbs[0]), cbs[1..]);
    }
  }

  /** With no connection left, clearing the tables loses nothing. */
  lemma ClearedKeepsInv(w: World)
    requires Inv(w) && w.s.peers == map[]
    ensures Inv(w.(s := Cleared(w.s)))
  {
    hide FramesFrom, EventsFor, Messages, Fitting, TotalBytes, ConnectionString, PeerOk;
    assert w.s.connStringToWsi == map[];
    var after := Cleared(w.s);
    forall n | n in w.ledger
      ensures Named(after, n, w.ledger[n])
    {
      assert Named(w.s, n, w.ledger[n]);
    }
  }

  /** What a call that does not destroy the context does: at most other settings. */
  lemma OnlySettings(s: State, e: Event)
    requires (e.StartsListening? || e.StopsListening? || e.ReloadsCredentials? || e.Serves?) && !Destroys(s, e)
    ensures var after := NextState(s, e);
            after == Settings(s, after.listening, after.listenUri, after.wantedListenUri)
  {
  }

  /** What one that does destroy it does. */
  lemma DestroyedState(s: State, e: Event)
    requires Destroys(s, e)
    ensures var after := NextState(s, e);
            after == Settings(Cleared(OnCallbacks(s, During(e))), after.listening, after.listenUri, after.wantedListenUri)
  {
    hide OnCallbacks;
    if e.StartsListening? {
      CallbacksSettings(s, During(e), e.uri);
    } else if e.StopsListening? {
      CallbacksSettings(s, During(e), "");
    } else {
      CallbacksSettings(s, During(e), s.wantedListenUri);
    }
  }

  lemma ListenerKeepsInv(w: World, e: Event)
    requires Inv(w) && Allowed(w, e)
    requires e.StartsListening? || e.StopsListening? || e.ReloadsCredentials? || e.Serves?
    ensures Inv(Next(w, e))
  {
    hide Inv, OnCallbacks, LwsMayAll, NextState, AfterCallbacks, Cleared;
    var v := Next(w, e);
    if Destroys(w.s, e) {
      CallbacksKeepInv(w, During(e));
      CallbacksState(w, During(e));
      DestroyedState(w.s, e);
      var u := AfterCallbacks(w, During(e));
      ClearedKeepsInv(u);
      SettingsKeepInv(u.(s := Cleared(u.s)), v.s.listening, v.s.listenUri, v.s.wantedListenUri);
    } else {
      OnlySettings(w.s, e);
      SettingsKeepInv(w, v.s.listening, v.s.listenUri, v.s.wantedListenUri);
    }
  }

  // ---- Whole runs ---------------------------------------------------------

  lemma NextKeepsInv(w: World, e: Event)
    requires Inv(w) && Allowed(w, e)
    ensures Inv(Next(w, e))
  {
    hide Inv, Noted, OnCallback, Send, Disconnect, PopReceived, PopStatusEvent, StartListening, StopListening,
      ReloadCredentials, Service, WithSent, LwsMayDestroy;
    match e
    case Lws(cb) => CallbackKeepsInv(w, cb);
    case SendsTo(name, data) => SendKeepsInv(w, name, data);
    case Disconnects(name) => DisconnectKeepsInv(w, name);
    case PopsReceived => PopsKeepInv(w);
    case PopsStatusEvent => PopsKeepInv(w);
    case _ => ListenerKeepsInv(w, e);
  }

  lemma OpenHasInv(configured: bool)
    ensures Inv(Open(configured))
  {
  }

  /** The invariant holds after every run. */
  lemma {:induction false} RunKeepsInv(configured: bool, es: seq<Event>)
    requires AllAllowed(Open(configured), es)
    ensures Inv(Run(Open(configured), es))
    decreases |es|
  {
    hide Inv, Next, Allowed, Open;
    if es == [] {
      OpenHasInv(configured);
    } else {
      RunKeepsInv(configured, es[..|es| - 1]);
      NextKeepsInv(Run(Open(configured), es[..|es| - 1]), es[|es| - 1]);
    }
  }

  /** CLOSED for each of these connections. */
  function Closings(wsis: seq<Wsi>): seq<Callback> {
    if wsis == [] then [] else [Closed(wsis[0])] + Closings(wsis[1..])
  }

  /** CLOSED for every open connection, in any order, is what lws is taken to do when a context is destroyed. */
  lemma {:induction false} ClosingAllMayDestroy(w: World, wsis: seq<Wsi>)
    requires forall wsi :: wsi in w.s.peers ==> wsi in wsis
    ensures LwsMayDestroy(w, Closings(wsis))
    decreases |wsis|
  {
    hide ConnectionString;
    if wsis == [] {
      assert w.s.peers == map[];
    } else {
      var v := AfterCallback(w, Closed(wsis[0]));
      assert forall wsi :: wsi in wsis ==> wsi == wsis[0] || wsi in wsis[1..];
      assert Closings(wsis)[1..] == Closings(wsis[1..]);
      ClosingAllMayDestroy(v, wsis[1..]);
    }
  }

  // ---- What it means ------------------------------------------------------

  /** After every run the two tables are inverse to each other, every connection there ever was is counted as a connect,
      and connects less disconnects are the open peers. */
  lemma TablesMirrorEachOther(configured: bool, es: seq<Event>)
    requires AllAllowed(Open(configured), es)
    ensures var s := Run(Open(configured), es).s;
            Mirrored(s) && s.metrics.totalConnects - s.metrics.totalDisconnects == |s.peers| &&
            s.metrics.totalConnects == |Run(Open(configured), es).ledger|
  {
    hide Run, AllAllowed, FramesOk, EventsOk, Mirrored;
    RunKeepsInv(configured, es);
  }

  /** A callback returns -1 for an open connection exactly when its record says it has ended. */
  lemma EndedIffMinusOne(w: World, cb: Callback)
    requires Inv(w) && LwsMay(w, cb) && !cb.Established? && !cb.Closed? && cb.wsi in w.s.peers
    ensures NameOn(w, cb.wsi) in w.ledger &&
            (OnCallback(w.s, cb).1 <==> AfterCallback(w, cb).ledger[NameOn(w, cb.wsi)].sent.ended)
  {
    hide Inv, Holds, InOrder;
    PeerIsOk(w, cb.wsi);
  }

  lemma NotedGrows(w: World, cb: Callback)
    ensures w.ledger.Keys <= AfterCallback(w, cb).ledger.Keys
  {
    hide OnCallback, AfterTurn, Writeable, ConnectionString;
  }

  lemma {:induction false} CallbacksGrow(w: World, cbs: seq<Callback>)
    ensures w.ledger.Keys <= AfterCallbacks(w, cbs).ledger.Keys
    decreases |cbs|
  {
    hide AfterCallback;
    if cbs != [] {
      NotedGrows(w, cbs[0]);
      CallbacksGrow(AfterCallback(w, cbs[0]), cbs[1..]);
    }
  }

  /** A string that was made once stays in the ledger. */
  lemma LedgerGrows(w: World, e: Event)
    ensures w.ledger.Keys <= Next(w, e).ledger.Keys
  {
    hide NextState, OnCallback, AfterSend, Send, Destroys, ConnectionString, Noted, AfterCallbacks;
    if e.Lws? {
      NotedGrows(w, e.cb);
    }
    CallbacksGrow(w, During(e));
  }

  /** So no later event of a run takes a string out of the ledger. */
  lemma {:induction false} RunGrows(w: World, es: seq<Event>, k: nat)
    requires k <= |es|
    ensures Run(w, es[..k]).ledger.Keys <= Run(w, es).ledger.Keys
    decreases |es|
  {
    hide Next;
    if k == |es| {
      assert es[..k] == es;
    } else {
      var n := |es| - 1;
      assert es[..n][..k] == es[..k];
      RunGrows(w, es[..n], k);
      LedgerGrows(Run(w, es[..n]), es[n]);
    }
  }

  lemma {:induction false} AllowedAt(w: World, es: seq<Event>, k: nat)
    requires AllAllowed(w, es) && k <= |es|
    ensures AllAllowed(w, es[..k]) && (k < |es| ==> Allowed(Run(w, es[..k]), es[k]))
    decreases |es|
  {
    hide Run, Allowed;
    if k == |es| {
      assert es[..k] == es;
    } else if k < |es| - 1 {
      var n := |es| - 1;
      assert es[..n][..k] == es[..k];
      AllowedAt(w, es[..n], k);
    }
  }

  /** After any run, and any further callbacks while the listener is being destroyed, the string that is made next is
      not one that was made before. */
  lemma StringIsNew(configured: bool, es: seq<Event>, cbs: seq<Callback>, wsi: Wsi)
    requires AllAllowed(Open(configured), es) && LwsMayAll(Run(Open(configured), es), cbs)
    ensures var w := AfterCallbacks(Run(Open(configured), es), cbs);
            NextName(w) !in w.ledger && NextName(w) in AfterCallback(w, Established(wsi, true)).ledger &&
            Run(Open(configured), es).ledger.Keys <= w.ledger.Keys
  {
    hide Run, AllAllowed, Mirrored, PeersOk, FramesOk, EventsOk, ConnectionString, OnCallback, AfterCallbacks, LwsMayAll;
    RunKeepsInv(configured, es);
    var w0 := Run(Open(configured), es);
    CallbacksKeepInv(w0, cbs);
    CallbacksGrow(w0, cbs);
    var w := AfterCallbacks(w0, cbs);
    NextNameIsNew(w, w.s.listenUri);
  }

  /** The string a connection gets that is established now. */
  function NextName(w: World): Text {
    ConnectionString(w.s.listenUri, w.s.nextClientId)
  }

  /** The callbacks an event makes: its own, or those while the context is destroyed. */
  function CallbacksOf(s: State, e: Event): seq<Callback> {
    if e.Lws? then [e.cb] else if Destroys(s, e) then During(e) else []
  }

  /** The `m`-th callback of the `k`-th event of a run establishes a connection of this hub. */
  predicate MadeAt(w: World, es: seq<Event>, k: nat, m: nat) {
    k < |es| &&
    var cbs := CallbacksOf(Run(w, es[..k]).s, es[k]);
    m < |cbs| && cbs[m].Established? && cbs[m].ours
  }

  /** The string it gets. */
  function NameAt(w: World, es: seq<Event>, k: nat, m: nat): Text
    requires MadeAt(w, es, k, m)
  {
    NextName(AfterCallbacks(Run(w, es[..k]), CallbacksOf(Run(w, es[..k]).s, es[k])[..m]))
  }

  lemma {:induction false} CallbacksPrefix(w: World, cbs: seq<Callback>, m: nat)
    requires m <= |cbs|
    ensures LwsMayAll(w, cbs) ==> LwsMayAll(w, cbs[..m])
    ensures AfterCallbacks(w, cbs[..m]).ledger.Keys <= AfterCallbacks(w, cbs).ledger.Keys
    ensures m < |cbs| && cbs[m].Established? && cbs[m].ours ==>
              NextName(AfterCallbacks(w, cbs[..m])) in AfterCallbacks(w, cbs).ledger
    decreases |cbs|
  {
    hide LwsMay, OnCallback, ConnectionString;
    if m == 0 {
      assert cbs[..0] == [];
      CallbacksGrow(w, cbs);
      if cbs != [] {
        CallbacksGrow(AfterCallback(w, cbs[0]), cbs[1..]);
      }
    } else {
      assert cbs[..m][1..] == cbs[1..][..m - 1];
      CallbacksPrefix(AfterCallback(w, cbs[0]), cbs[1..], m - 1);
    }
  }

  lemma EventMakes(w: World, e: Event)
    ensures AfterCallbacks(w, CallbacksOf(w.s, e)).ledger.Keys <= Next(w, e).ledger.Keys
  {
    hide NextState, Noted, OnCallback, Send, Destroys;
    if e.Lws? {
      assert [e.cb][1..] == [];
      assert AfterCallbacks(w, [e.cb]) == AfterCallback(w, e.cb);
    } else {
      LedgerGrows(w, e);
    }
  }

  /** A string that was made is in the ledger of the run from then on. */
  lemma MadeIsRecorded(w: World, es: seq<Event>, k: nat, m: nat)
    requires MadeAt(w, es, k, m)
    ensures NameAt(w, es, k, m) in Run(w, es[..k + 1]).ledger && NameAt(w, es, k, m) in Run(w, es).ledger
  {
    hide Next, NextName, AfterCallbacks, CallbacksOf;
    var u := Run(w, es[..k]);
    CallbacksPrefix(u, CallbacksOf(u.s, es[k]), m);
    EventMakes(u, es[k]);
    assert es[..k + 1][..k] == es[..k];
    RunGrows(w, es, k + 1);
  }

  /** What lws is taken to do with the callbacks of an allowed event. */
  lemma EventIsMay(w: World, e: Event)
    requires Allowed(w, e)
    ensures LwsMayAll(w, CallbacksOf(w.s, e))
  {
    hide LwsMay, Destroys;
    if e.Lws? {
      assert [e.cb][1..] == [];
    }
  }

  /** In every run any two connections get different strings, whatever happens in between and wherever they are
      established: across restarts, other URIs, and while a listener is being destroyed. */
  lemma StringsDiffer(configured: bool, es: seq<Event>, k: nat, m: nat, k': nat, m': nat)
    requires AllAllowed(Open(configured), es)
    requires MadeAt(Open(configured), es, k, m) && MadeAt(Open(configured), es, k', m')
    requires k < k' || (k == k' && m < m')
    ensures NameAt(Open(configured), es, k, m) != NameAt(Open(configured), es, k', m')
    ensures NameAt(Open(configured), es, k, m) in Run(Open(configured), es).ledger
    ensures NameAt(Open(configured), es, k', m') in Run(Open(configured), es).ledger
  {
    hide Run, AllAllowed, Allowed, LwsMayAll, AfterCallbacks, CallbacksOf, Open, NextName;
    var w := Open(configured);
    MadeIsRecorded(w, es, k, m);
    MadeIsRecorded(w, es, k', m');
    AllowedAt(w, es, k');
    var u := Run(w, es[..k']);
    var cbs := CallbacksOf(u.s, es[k']);
    EventIsMay(u, es[k']);
    CallbacksPrefix(u, cbs, m');
    NextStringIsNew(configured, es[..k'], cbs[..m']);
    if k < k' {
      assert es[..k'][..k + 1] == es[..k + 1];
      RunGrows(w, es[..k'], k + 1);
    } else {
      assert cbs[..m'][..m] == cbs[..m];
      CallbacksPrefix(u, cbs[..m'], m);
    }
  }

  lemma NextStringIsNew(configured: bool, es: seq<Event>, cbs: seq<Callback>)
    requires AllAllowed(Open(configured), es) && LwsMayAll(Run(Open(configured), es), cbs)
    ensures var w := AfterCallbacks(Run(Open(configured), es), cbs);
            NextName(w) !in w.ledger && Run(Open(configured), es).ledger.Keys <= w.ledger.Keys
  {
    hide *;
    StringIsNew(configured, es, cbs, 0);
  }

  /** Each string that was made gets exactly one closing event, when its connection is over: Disconnected if the peer
      closed with 1000 or 0 or without a code, else Error, with that code. */
  lemma EachStringEndsOnce(configured: bool, es: seq<Event>, name: Text)
    requires AllAllowed(Open(configured), es) && name in Run(Open(configured), es).ledger
    ensures var w := Run(Open(configured), es);
            var all, code := w.events + w.s.statusQueue, w.ledger[name].closeCode;
            EventsFor(all, name) == (if name in w.s.connStringToWsi then 0 else 1) &&
            (forall k :: 0 <= k < |all| && all[k].uri == name ==>
               all[k].closeCode == code && all[k].status == if code in {0, 1000} then 3 else 4) &&
            w.s.metrics.totalDisconnects == |all|
  {
    hide Run, AllAllowed, FramesOk, PeersOk, Mirrored, EventsFor;
    RunKeepsInv(configured, es);
  }

  /** The frames of a connection are its whole messages of at most 1600 octets in order, however they were cut into
      fragments and mixed with those of other connections, and however much of the next message is there. */
  lemma FramesAreWholeMessages(configured: bool, es: seq<Event>, name: Text, parts: seq<seq<Fragment>>,
                               messages: seq<Bytes>, unfinished: seq<Fragment>)
    requires AllAllowed(Open(configured), es) && name in Run(Open(configured), es).ledger
    requires Run(Open(configured), es).ledger[name].fragments == AllFragments(parts) + unfinished
    requires forall k :: 0 <= k < |unfinished| ==> !unfinished[k].last
    requires |parts| == |messages| && forall k :: 0 <= k < |parts| ==> Carries(parts[k], messages[k])
    ensures var w := Run(Open(configured), es);
            FramesFrom(w.frames + w.s.rxQueue, name) == Fitting(messages) &&
            FramesFrom(w.frames, name) <= Fitting(messages)
  {
    hide Run, AllAllowed, EventsOk, PeersOk, Mirrored, FramesFrom, Fitting, Messages, AllFragments, TotalBytes;
    RunKeepsInv(configured, es);
    AnyFragmentation(parts, messages);
    OneMessage(AllFragments(parts), unfinished);
    var w := Run(Open(configured), es);
    FramesFromPrefix(w.frames, w.s.rxQueue, name);
  }

  lemma {:induction false} FramesFromPrefix(frames: seq<ReceivedFrame>, more: seq<ReceivedFrame>, name: Text)
    ensures FramesFrom(frames, name) <= FramesFrom(frames + more, name)
    decreases |more|
  {
    if more == [] {
      assert frames + more == frames;
    } else {
      var n := |more| - 1;
      FramesFromPrefix(frames, more[..n], name);
      FramesFromWith(frames + more[..n], more[n], name);
      assert frames + more[..n] + [more[n]] == frames + more;
    }
  }

  /** rxMessages and rxBytes count what was delivered or waits. */
  lemma MetricsCountFrames(configured: bool, es: seq<Event>)
    requires AllAllowed(Open(configured), es)
    ensures var w := Run(Open(configured), es);
            w.s.metrics.rxMessages == |w.frames + w.s.rxQueue| &&
            w.s.metrics.rxBytes == TotalBytes(w.frames + w.s.rxQueue)
  {
    hide Run, AllAllowed, EventsOk, PeersOk, Mirrored, FramesFrom, Fitting, Messages, TotalBytes;
    RunKeepsInv(configured, es);
  }

  /** On every open connection, what Send accepted is what was written and then what is queued, until frames are lost;
      and a frame or close that is due has a callback coming. */
  lemma OpenConnectionsInOrder(configured: bool, es: seq<Event>, wsi: Wsi)
    requires AllAllowed(Open(configured), es) && wsi in Run(Open(configured), es).s.peers
    ensures var w := Run(Open(configured), es);
            NameOn(w, wsi) in w.ledger && InOrder(w.s.peers[wsi].tx, w.ledger[NameOn(w, wsi)].sent)
  {
    hide Run, AllAllowed, Inv, Holds;
    RunKeepsInv(configured, es);
    PeerIsOk(Run(Open(configured), es), wsi);
  }

  /** A callback that closes a connection normally has written every frame that was accepted for it. */
  lemma NormalCloseLosesNothing(configured: bool, es: seq<Event>, wsi: Wsi, written: int)
    requires AllAllowed(Open(configured), es) && wsi in Run(Open(configured), es).s.peers
    requires LwsMay(Run(Open(configured), es), ServerWriteable(wsi, written))
    requires Writeable(Run(Open(configured), es).s.peers[wsi].tx, written).1.Closes?
    ensures var w := Run(Open(configured), es);
            NameOn(w, wsi) in w.ledger && var sent := w.ledger[NameOn(w, wsi)].sent;
            Writeable(w.s.peers[wsi].tx, written).1.code == CLOSE_STATUS_NORMAL ==> sent.accepted == sent.written
  {
    hide Run, AllAllowed, Inv, Holds, InOrder, Writeable;
    RunKeepsInv(configured, es);
    var w := Run(Open(configured), es);
    PeerIsOk(w, wsi);
    NormalCloseComesLast(w.s.peers[wsi].tx, w.ledger[NameOn(w, wsi)].sent, written);
  }

  /** Even of a connection that is over, what was written is the first part of what was accepted. */
  lemma WrittenInOrder(configured: bool, es: seq<Event>, name: Text)
    requires AllAllowed(Open(configured), es) && name in Run(Open(configured), es).ledger
    ensures var sent := Run(Open(configured), es).ledger[name].sent;
            sent.written <= sent.accepted
  {
    hide Run, AllAllowed, Inv;
    RunKeepsInv(configured, es);
    NamedRecord(Run(Open(configured), es), name);
  }
}
