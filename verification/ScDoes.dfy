/** What each call and callback of the transport achieves, in every run: frames that are accepted, written and delivered,
    connections that are closed, and a listener that listens where it is wanted. */
module ScDoes {
  import opened Octets
  import opened ScAssembly
  import opened ScOutbox
  import opened ScState
  import opened ScRun
  import opened ScRunAll

  // ---- Frames -------------------------------------------------------------

  /** The string is that of an open connection. */
  predicate IsOpen(w: World, name: Text) {
    name in w.s.connStringToWsi && w.s.connStringToWsi[name] in w.s.peers && name in w.ledger
  }

  function TxOf(w: World, name: Text): Outbox
    requires IsOpen(w, name)
  {
    w.s.peers[w.s.connStringToWsi[name]].tx
  }

  /** The other connections are as they were. */
  ghost predicate OthersStay(w: World, s: State, name: Text) {
    s.peers.Keys == w.s.peers.Keys && s.connStringToWsi == w.s.connStringToWsi && s.rxQueue == w.s.rxQueue &&
    forall wsi :: wsi in w.s.peers && NameOn(w, wsi) != name ==> s.peers[wsi] == w.s.peers[wsi]
  }

  lemma InTableIsOpen(w: World, name: Text)
    requires Inv(w) && name in w.s.connStringToWsi
    ensures IsOpen(w, name) && NameOn(w, w.s.connStringToWsi[name]) == name
    ensures InOrder(TxOf(w, name), w.ledger[name].sent)
  {
    hide PeersOk, FramesOk, EventsOk, InOrder;
    PeerIsOk(w, w.s.connStringToWsi[name]);
  }

  /** In every run a frame is accepted exactly if its string is that of an open connection that is not being closed and
      on which fewer than 64 frames wait; it is then the last of those accepted there. */
  lemma SendIff(configured: bool, es: seq<Event>, name: Text, data: Bytes)
    requires AllAllowed(Open(configured), es)
    ensures var w := Run(Open(configured), es);
            var accepted := Send(w.s, name, data).1;
            var v := Next(w, SendsTo(name, data));
            (name in w.s.connStringToWsi ==> IsOpen(w, name)) &&
            (accepted <==> IsOpen(w, name) && !TxOf(w, name).close.requested && |TxOf(w, name).queue| < 64) &&
            (accepted ==> v.ledger[name].sent.accepted == w.ledger[name].sent.accepted + [data]) &&
            (!accepted ==>
               v.ledger.Keys == w.ledger.Keys &&
               forall n :: n in w.ledger ==> v.ledger[n].sent.accepted == w.ledger[n].sent.accepted) &&
            OthersStay(w, v.s, name)
  {
    hide Run, AllAllowed, Inv;
    RunKeepsInv(configured, es);
    SendIs(Run(Open(configured), es), name, data);
  }

  lemma SendIs(w: World, name: Text, data: Bytes)
    requires Inv(w)
    ensures var accepted := Send(w.s, name, data).1;
            var v := Next(w, SendsTo(name, data));
            (name in w.s.connStringToWsi ==> IsOpen(w, name)) &&
            (accepted <==> IsOpen(w, name) && !TxOf(w, name).close.requested && |TxOf(w, name).queue| < 64) &&
            (accepted ==> v.ledger[name].sent.accepted == w.ledger[name].sent.accepted + [data]) &&
            (!accepted ==>
               v.ledger.Keys == w.ledger.Keys &&
               forall n :: n in w.ledger ==> v.ledger[n].sent.accepted == w.ledger[n].sent.accepted) &&
            OthersStay(w, v.s, name)
  {
    hide Inv, Enqueue, Overflows;
    if name in w.s.connStringToWsi {
      InTableIsOpen(w, name);
      EnqueueIff(TxOf(w, name), data);
      forall wsi | wsi in w.s.peers && NameOn(w, wsi) != name
        ensures wsi != w.s.connStringToWsi[name]
      {
      }
    }
  }

  /** lws may call back for the open connection on `wsi`, and writes a frame that is given to it whole. */
  predicate WholeWrite(w: World, wsi: Wsi, written: int) {
    wsi in w.s.peers && LwsMay(w, ServerWriteable(wsi, written)) &&
    (w.s.peers[wsi].tx.queue != [] ==> written >= |w.s.peers[wsi].tx.queue[0]|)
  }

  /** The first accepted frame that has not been written is written, if one is left and the queue was never full; with
      none left the connection ends if that was asked for, and a full queue ends it at once. */
  predicate WritesFirst(was: Sent, now: Sent, asked: bool, ends: bool) {
    now.accepted == was.accepted &&
    if was.overflowed then ends
    else if was.written == was.accepted then now.written == was.written && ends == asked
    else |was.written| < |was.accepted| && now.written == was.accepted[..|was.written| + 1] && !ends
  }

  /** So does every WRITEABLE callback of every run. */
  lemma WriteableWritesNext(configured: bool, es: seq<Event>, wsi: Wsi, written: int)
    requires AllAllowed(Open(configured), es) && WholeWrite(Run(Open(configured), es), wsi, written)
    ensures var w := Run(Open(configured), es);
            var name, v := NameOn(w, wsi), AfterCallback(w, ServerWriteable(wsi, written));
            name in w.ledger && name in v.ledger &&
            WritesFirst(w.ledger[name].sent, v.ledger[name].sent, w.s.peers[wsi].tx.close.requested,
                       OnCallback(w.s, ServerWriteable(wsi, written)).1)
  {
    hide Run, AllAllowed, Inv, InOrder, Writeable;
    RunKeepsInv(configured, es);
    var w := Run(Open(configured), es);
    PeerIsOk(w, wsi);
    WholeTurnIs(w.s.peers[wsi].tx, written);
    NextIsFirst(w.s.peers[wsi].tx, w.ledger[NameOn(w, wsi)].sent);
  }

  /** What waits on a connection that has not ended. */
  lemma NextIsFirst(o: Outbox, h: Sent)
    requires InOrder(o, h) && !h.ended
    ensures h.overflowed <==> o.close.requested && o.close.code == 1008
    ensures !h.overflowed ==>
              (o.queue == [] <==> h.written == h.accepted) &&
              (o.queue != [] ==> |h.written| < |h.accepted| && h.written + [o.queue[0]] == h.accepted[..|h.written| + 1])
  {
    if !h.overflowed {
      assert h.accepted == h.written + o.queue;
      assert |h.accepted| == |h.written| + |o.queue|;
    }
  }

  /** What one fragment of an open connection adds to the queue: the message it completes, if it is the last one and the
      message fits, under the connection's string and the URI of the listener. */
  lemma FragmentAdds(w: World, wsi: Wsi, f: Fragment)
    requires Inv(w) && wsi in w.s.peers
    ensures NameOn(w, wsi) in w.ledger
    ensures var v, fragments := AfterCallback(w, Receive(wsi, true, f)), w.ledger[NameOn(w, wsi)].fragments;
            var message := Data(Unfinished(fragments)) + f.data;
            v.s.rxQueue == w.s.rxQueue + (if f.last && |message| <= 1600
                                          then [ReceivedFrame(NameOn(w, wsi), w.s.listenUri, message)] else []) &&
            !OnCallback(w.s, Receive(wsi, true, f)).1
  {
    hide Inv, Data, Unfinished, InOrder;
    PeerIsOk(w, wsi);
  }

  /** A client that asks for this hub's subprotocol gets a connection of its own, with nothing received, queued or asked
      for; any other is refused and changes nothing. */
  lemma EstablishedOpens(configured: bool, es: seq<Event>, wsi: Wsi, ours: bool)
    requires AllAllowed(Open(configured), es) && LwsMay(Run(Open(configured), es), Established(wsi, ours))
    ensures var w := Run(Open(configured), es);
            var (s, ends) := OnCallback(w.s, Established(wsi, ours));
            (ends <==> !ours) && (!ours ==> s == w.s) &&
            (ours ==>
               NextName(w) !in w.ledger && s.peers.Keys == w.s.peers.Keys + {wsi} && wsi !in w.s.peers &&
               s.peers[wsi].connectionString == NextName(w) && s.connStringToWsi == w.s.connStringToWsi[NextName(w) := wsi] &&
               s.peers[wsi].rx == EMPTY_ASSEMBLY && s.peers[wsi].tx == EMPTY_OUTBOX)
  {
    hide Run, AllAllowed, FramesOk, EventsOk, ConnectionString;
    RunKeepsInv(configured, es);
    NextNameIsNew(Run(Open(configured), es), Run(Open(configured), es).s.listenUri);
  }

  // ---- Closing ------------------------------------------------------------

  /** Disconnect asks for a normal close of that one connection, unless a close was asked for already; a callback is
      coming, and nothing more is accepted. */
  lemma DisconnectIs(configured: bool, es: seq<Event>, name: Text, data: Bytes)
    requires AllAllowed(Open(configured), es)
    ensures var w := Run(Open(configured), es);
            var v := Next(w, Disconnects(name));
            OthersStay(w, v.s, name) && (name !in w.s.connStringToWsi ==> v.s == w.s) &&
            (name in w.s.connStringToWsi ==>
               IsOpen(w, name) && IsOpen(v, name) &&
               var was, now := TxOf(w, name), TxOf(v, name);
               now.close.requested && now.queue == was.queue && !Send(v.s, name, data).1 &&
               (was.close.requested ==> now.close == was.close) &&
               (!was.close.requested ==> now.close.code == 1000 && now.armed))
  {
    hide Run, AllAllowed, Inv, InOrder;
    RunKeepsInv(configured, es);
    var w := Run(Open(configured), es);
    if name in w.s.connStringToWsi {
      InTableIsOpen(w, name);
    }
  }

  // ---- Listening ----------------------------------------------------------

  /** StartListening succeeds exactly on a configured transport that listens there already or whose listener can be
      made, and then listens there; otherwise it listens nowhere else than before, and the URI stays wanted. */
  lemma StartListens(s: State, uri: Text, bound: bool, during: seq<Callback>)
    ensures var (t, ok) := StartListening(s, uri, bound, during);
            (ok <==> s.configured && ((s.listening && s.listenUri == uri) || bound)) &&
            t.wantedListenUri == uri && (ok ==> t.listening && t.listenUri == uri) &&
            (!ok && s.configured ==> !t.listening) && (!ok && !s.configured ==> t == s.(wantedListenUri := uri)) &&
            (s.listening && s.listenUri == uri ==> t == s.(wantedListenUri := uri))
  {
    if s.configured && s.listening && s.listenUri != uri {
      CallbacksSettings(s.(wantedListenUri := uri), during, uri);
    }
  }

  /** StopListening ends a listener on that URI and no other, and its being wanted. */
  lemma StopStops(s: State, uri: Text, during: seq<Callback>)
    ensures var t := StopListening(s, uri, during);
            (t.listening <==> s.listening && s.listenUri != uri) &&
            (s.wantedListenUri == uri ==> t.wantedListenUri == "") &&
            (s.wantedListenUri != uri ==> t.wantedListenUri == s.wantedListenUri) &&
            (t.listening ==> t.listenUri == s.listenUri && t.peers == s.peers) &&
            (!t.listening && s.listening ==> t.peers == map[])
  {
    CallbacksSettings(s, during, s.wantedListenUri);
    CallbacksSettings(s, during, "");
    assert s.(wantedListenUri := s.wantedListenUri) == s;
  }

  /** Where a listener is, it is wanted. */
  predicate ListensWhereWanted(s: State, configured: bool) {
    s.configured == configured && (s.listening ==> s.listenUri == s.wantedListenUri) && (s.listening ==> configured)
  }

  lemma {:induction false} CallbacksKeepSettings(s: State, cbs: seq<Callback>)
    ensures var t := OnCallbacks(s, cbs);
            t.listening == s.listening && t.listenUri == s.listenUri && t.wantedListenUri == s.wantedListenUri &&
            t.configured == s.configured
    decreases |cbs|
  {
    hide OnCallback;
    if cbs != [] {
      CallbackKeepsSettings(s, cbs[0]);
      CallbacksKeepSettings(OnCallback(s, cbs[0]).0, cbs[1..]);
    }
  }

  lemma CallbackKeepsSettings(s: State, cb: Callback)
    ensures var t := OnCallback(s, cb).0;
            t.listening == s.listening && t.listenUri == s.listenUri && t.wantedListenUri == s.wantedListenUri &&
            t.configured == s.configured
  {
    hide ConnectionString, Take, Writeable;
  }

  lemma NextListensWhereWanted(s: State, e: Event, configured: bool)
    requires ListensWhereWanted(s, configured)
    ensures ListensWhereWanted(NextState(s, e), configured)
  {
    hide OnCallback, OnCallbacks, Enqueue, RequestClose;
    match e
    case Lws(cb) => CallbackKeepsSettings(s, cb);
    case StartsListening(uri, bound, during) =>
      CallbacksKeepSettings(s.(wantedListenUri := ""), during);
      CallbacksKeepSettings(s.(wantedListenUri := uri), during);
    case StopsListening(uri, during) => CallbacksKeepSettings(s.(wantedListenUri := ""), during);
    case ReloadsCredentials(bound, during) => CallbacksKeepSettings(s, during);
    case _ =>
  }

  lemma {:induction false} RunListensWhereWanted(configured: bool, es: seq<Event>)
    ensures ListensWhereWanted(Run(Open(configured), es).s, configured)
    decreases |es|
  {
    hide NextState, ListensWhereWanted;
    if es == [] {
      OpenListensNowhere(configured);
    } else {
      RunListensWhereWanted(configured, es[..|es| - 1]);
      NextListensWhereWanted(Run(Open(configured), es[..|es| - 1]).s, es[|es| - 1], configured);
    }
  }

  lemma OpenListensNowhere(configured: bool)
    ensures ListensWhereWanted(Open(configured).s, configured)
  {
  }

  /** In every run the listener is where it is wanted, and a retry or a certificate reload that can make it brings it
      back there, with the string counter where it was. */
  lemma WantedListenerComesBack(configured: bool, es: seq<Event>, during: seq<Callback>)
    ensures var s := Run(Open(configured), es).s;
            (s.listening ==> configured && s.listenUri == s.wantedListenUri) &&
            (configured && s.wantedListenUri != "" ==>
               var t, u := Service(s, true), ReloadCredentials(s, true, during);
               t.listening && t.listenUri == s.wantedListenUri && u.listening && u.listenUri == s.wantedListenUri &&
               t.nextClientId == s.nextClientId && (s.listening ==> t == s))
  {
    hide Run, OnCallbacks;
    RunListensWhereWanted(configured, es);
    CallbacksKeepSettings(Run(Open(configured), es).s, during);
  }
}
