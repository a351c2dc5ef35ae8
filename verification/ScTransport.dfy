/** The listener half of the WebSocket transport as the object it is (sc_transport/ScTransport.cpp, ScTransport.h).
    Each method is proved to do what its function in ScState says, which ScRunAll follows through whole runs. lws is the
    caller of HandleServerCallback; what it makes of a request for a WRITEABLE callback or a close is its own. */
module ScTransport {
  import opened Octets
  import opened Decimal
  import opened ScAssembly
  import opened ScOutbox
  import ScState

  type Wsi = ScState.Wsi
  type PeerConnection = ScState.PeerConnection

  class Transport {
    var configured: bool
    var listening: bool
    var listenUri: Text
    var wantedListenUri: Text
    var nextClientId: nat
    var peers: map<Wsi, PeerConnection>
    var connStringToWsi: map<Text, Wsi>
    var rxQueue: seq<ScState.ReceivedFrame>
    var statusQueue: seq<ScState.StatusEvent>
    var totalConnects: nat
    var totalDisconnects: nat
    var rxMessages: nat
    var rxBytes: nat
    var txMessages: nat
    var txBytes: nat
    var txQueueOverflows: nat

    function Value(): ScState.State
      reads this
    {
      ScState.State(configured, listening, listenUri, wantedListenUri, nextClientId, peers, connStringToWsi, rxQueue,
                    statusQueue, ScState.Metrics(totalConnects, totalDisconnects, rxMessages, rxBytes, txMessages, txBytes,
                                                 txQueueOverflows))
    }

    constructor ()
      ensures Value() == ScState.START
    {
      configured, listening, listenUri, wantedListenUri, nextClientId := false, false, "", "", 1;
      peers, connStringToWsi, rxQueue, statusQueue := map[], map[], [], [];
      totalConnects, totalDisconnects, rxMessages, rxBytes := 0, 0, 0, 0;
      txMessages, txBytes, txQueueOverflows := 0, 0, 0;
    }

    method Configure()
      modifies this`configured
      ensures Value() == old(Value()).(configured := true)
    {
      configured := true;
    }

    // ---- Sending and closing ----------------------------------------------

    method AskToClose(wsi: Wsi, code: nat, reason: Text)
      requires wsi in peers
      modifies this`peers
      ensures peers == old(peers)[wsi := old(peers)[wsi].(tx := RequestClose(old(peers)[wsi].tx, code, reason))]
    {
      var p := peers[wsi];
      if p.tx.close.requested {
        return;
      }
      peers := peers[wsi := p.(tx := p.tx.(close := CloseRequest(true, code, reason), armed := true))];
    }

    method EnqueueFrame(wsi: Wsi, data: Bytes) returns (accepted: bool)
      requires wsi in peers
      modifies this
      ensures (Value(), accepted) == ScState.Enqueued(old(Value()), wsi, data)
    {
      var p := peers[wsi];
      if p.tx.close.requested {
        assert peers[wsi := p] == peers;
        return false;
      }
      if |p.tx.queue| >= MAX_TX_QUEUE_FRAMES {
        txQueueOverflows := txQueueOverflows + 1;
        peers := peers[wsi := p.(tx := p.tx.(queue := []))];
        AskToClose(wsi, CLOSE_STATUS_POLICY_VIOLATION, "transmit queue full");
        assert peers == old(peers)[wsi := peers[wsi]];
        return false;
      }
      peers := peers[wsi := p.(tx := p.tx.(queue := p.tx.queue + [data], armed := true))];
      return true;
    }

    method Send(name: Text, data: Bytes) returns (accepted: bool)
      modifies this
      ensures (Value(), accepted) == ScState.Send(old(Value()), name, data)
    {
      if name in connStringToWsi && connStringToWsi[name] in peers {
        accepted := EnqueueFrame(connStringToWsi[name], data);
      } else {
        accepted := false;
      }
    }

    method Disconnect(name: Text)
      modifies this
      ensures Value() == ScState.Disconnect(old(Value()), name)
    {
      if name in connStringToWsi && connStringToWsi[name] in peers {
        AskToClose(connStringToWsi[name], CLOSE_STATUS_NORMAL, "");
      }
    }

    method ApplyRequestedClose(wsi: Wsi) returns (close: bool)
      requires wsi in peers
      ensures close <==> ClosesNow(peers[wsi].tx)
    {
      var tx := peers[wsi].tx;
      if !tx.close.requested {
        return false;
      }
      if tx.close.code != CLOSE_STATUS_POLICY_VIOLATION && tx.queue != [] {
        return false;
      }
      return true;
    }

    /** `written` is what lws_write returns. True after a short or failed write. */
    method FlushOneQueuedFrame(wsi: Wsi, written: int) returns (failed: bool)
      requires wsi in peers && !ClosesNow(peers[wsi].tx)
      modifies this`peers, this`txMessages, this`txBytes
      ensures var tx := old(peers)[wsi].tx;
              failed == (tx.queue != [] && written < |tx.queue[0]|) &&
              peers == old(peers)[wsi := old(peers)[wsi].(tx := tx.(
                queue := if tx.queue == [] then [] else tx.queue[1..],
                armed := tx.armed || (|tx.queue| > 1 && !failed)))] &&
              txMessages == old(txMessages) + (if tx.queue != [] && !failed then 1 else 0) &&
              txBytes == old(txBytes) + (if tx.queue != [] && !failed then |tx.queue[0]| else 0)
    {
      var p := peers[wsi];
      if p.tx.queue == [] {
        return false;
      }
      var frame := p.tx.queue[0];
      var rest := p.tx.queue[1..];
      peers := peers[wsi := p.(tx := p.tx.(queue := rest))];
      if written < |frame| {
        return true;
      }
      txMessages := txMessages + 1;
      txBytes := txBytes + |frame|;
      if rest != [] {
        peers := peers[wsi := p.(tx := p.tx.(queue := rest, armed := true))];
      }
      return false;
    }

    /** The SERVER_WRITEABLE callback: the request for it is used up. */
    method OnWriteable(wsi: Wsi, written: int) returns (close: bool)
      requires wsi in peers
      modifies this
      ensures Value() == ScState.OnWriteable(old(Value()), wsi, written)
      ensures close == Writeable(old(peers)[wsi].tx, written).1.Ends()
    {
      ghost var was := peers;
      var p := peers[wsi];
      peers := peers[wsi := p.(tx := p.tx.(armed := false))];
      var closing := ApplyRequestedClose(wsi);
      if closing {
        return true;
      }
      var failed := FlushOneQueuedFrame(wsi, written);
      assert peers == was[wsi := peers[wsi]];
      if failed {
        return true;
      }
      if peers[wsi].tx.close.requested {
        peers := peers[wsi := peers[wsi].(tx := peers[wsi].tx.(armed := true))];
        assert peers == was[wsi := peers[wsi]];
      }
      return false;
    }

    // ---- Receiving --------------------------------------------------------

    /** True if the connection must be closed (1003): BACnet/SC frames are binary. */
    method HandleIncomingFragment(wsi: Wsi, binary: bool, f: Fragment) returns (close: bool)
      requires wsi in peers
      modifies this`peers, this`rxQueue, this`rxMessages, this`rxBytes
      ensures close == !binary
      ensures Value() == if binary then ScState.OnFragment(old(Value()), wsi, f) else old(Value())
    {
      if !binary {
        return true;
      }
      var p := peers[wsi];
      var rx := p.rx;
      if !rx.overflow {
        if |rx.buffer| + |f.data| > MAX_INGRESS_BYTES {
          rx := Assembly([], true);
        } else if |f.data| > 0 {
          rx := rx.(buffer := rx.buffer + f.data);
        } else {
          assert rx.buffer == rx.buffer + f.data;
        }
      }
      if f.last {
        if !rx.overflow {
          rxMessages := rxMessages + 1;
          rxBytes := rxBytes + |rx.buffer|;
          rxQueue := rxQueue + [ScState.ReceivedFrame(p.connectionString, listenUri, rx.buffer)];
        }
        rx := EMPTY_ASSEMBLY;
      }
      peers := peers[wsi := p.(rx := rx)];
      return false;
    }

    method PopReceived() returns (frame: Option<ScState.ReceivedFrame>)
      modifies this`rxQueue
      ensures (Value(), frame) == ScState.PopReceived(old(Value()))
    {
      if rxQueue == [] {
        return None;
      }
      frame := Some(rxQueue[0]);
      rxQueue := rxQueue[1..];
    }

    method PopStatusEvent() returns (event: Option<ScState.StatusEvent>)
      modifies this`statusQueue
      ensures (Value(), event) == ScState.PopStatusEvent(old(Value()))
    {
      if statusQueue == [] {
        return None;
      }
      event := Some(statusQueue[0]);
      statusQueue := statusQueue[1..];
    }

    // ---- Connections come and go ------------------------------------------

    method OnEstablished(wsi: Wsi)
      modifies this
      ensures Value() == ScState.OnEstablished(old(Value()), wsi)
    {
      var clientId := nextClientId;
      nextClientId := nextClientId + 1;
      var name := listenUri + "|client=" + ToString(clientId);
      var peer :=
        if wsi in peers then peers[wsi] else ScState.PeerConnection([], 0, EMPTY_ASSEMBLY, EMPTY_OUTBOX, 0);
      peers := peers[wsi := peer.(clientId := clientId, connectionString := name)];
      connStringToWsi := connStringToWsi[name := wsi];
      totalConnects := totalConnects + 1;
    }

    method OnClosed(wsi: Wsi)
      requires wsi in peers
      modifies this
      ensures Value() == ScState.OnClosed(old(Value()), wsi)
    {
      var p := peers[wsi];
      var status :=
        if p.lastCloseCode == 0 || p.lastCloseCode == 1000 then ScState.STATUS_DISCONNECTED else ScState.STATUS_ERROR;
      statusQueue := statusQueue + [ScState.StatusEvent(p.connectionString, status, p.lastCloseCode)];
      totalDisconnects := totalDisconnects + 1;
      connStringToWsi := connStringToWsi - {p.connectionString};
      peers := peers - {wsi};
    }

    method HandleServerCallback(cb: ScState.Callback) returns (close: bool)
      modifies this
      ensures (Value(), close) == ScState.OnCallback(old(Value()), cb)
    {
      close := false;
      match cb {
        case Established(wsi, ours) =>
          if !ours {
            return true;
          }
          OnEstablished(wsi);
        case Receive(wsi, binary, fragment) =>
          if wsi in peers {
            close := HandleIncomingFragment(wsi, binary, fragment);
          }
        case ServerWriteable(wsi, written) =>
          if wsi in peers {
            close := OnWriteable(wsi, written);
          }
        case PeerInitiatedClose(wsi, payload) =>
          if wsi in peers && |payload| >= 2 {
            peers := peers[wsi := peers[wsi].(lastCloseCode := U16(payload, 0))];
          }
        case Closed(wsi) =>
          if wsi in peers {
            OnClosed(wsi);
          }
      }
    }

    // ---- The listener -----------------------------------------------------

    /** `during`: the callbacks lws makes while queued frames are flushed and the context is destroyed. */
    method DestroyListenerContext(during: seq<ScState.Callback>)
      modifies this
      ensures Value() == ScState.DestroyListenerContext(old(Value()), during)
    {
      if !listening {
        return;
      }
      assert during[0..] == during;
      for k := 0 to |during|
        invariant ScState.OnCallbacks(old(Value()), during) == ScState.OnCallbacks(Value(), during[k..])
      {
        assert during[k..][1..] == during[k + 1..];
        var _ := HandleServerCallback(during[k]);
      }
      listening, listenUri, peers, connStringToWsi := false, "", map[], map[];
    }

    method StopListening(uri: Text, during: seq<ScState.Callback>)
      modifies this
      ensures Value() == ScState.StopListening(old(Value()), uri, during)
    {
      if wantedListenUri == uri {
        wantedListenUri := "";
      }
      if !listening || listenUri != uri {
        return;
      }
      DestroyListenerContext(during);
    }

    method StartListening(uri: Text, bound: bool, during: seq<ScState.Callback>) returns (ok: bool)
      modifies this
      ensures (Value(), ok) == ScState.StartListening(old(Value()), uri, bound, during)
    {
      wantedListenUri := uri;
      if !configured {
        return false;
      }
      if listening {
        if listenUri == uri {
          return true;
        }
        StopListening(listenUri, during);
      }
      if !bound {
        return false;
      }
      listening, listenUri := true, uri;
      return true;
    }

    method ReloadCredentials(bound: bool, during: seq<ScState.Callback>)
      modifies this
      ensures Value() == ScState.ReloadCredentials(old(Value()), bound, during)
    {
      if wantedListenUri != "" {
        var uri := wantedListenUri;
        DestroyListenerContext(during);
        var _ := StartListening(uri, bound, []);
      }
    }

    /** Before lws is given its turn. */
    method Service(bound: bool)
      modifies this
      ensures Value() == ScState.Service(old(Value()), bound)
    {
      if !listening && wantedListenUri != "" {
        var _ := StartListening(wantedListenUri, bound, []);
      }
    }
  }
}
