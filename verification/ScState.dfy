/** The listener half of the WebSocket transport as values: what its fields hold and what each call and each lws
    callback does to them (sc_transport/ScTransport.cpp). */
module ScState {
  import opened Octets
  import opened Decimal
  import opened ScAssembly
  import opened ScOutbox

  type Wsi = nat

  datatype PeerConnection = PeerConnection(connectionString: Text, clientId: nat, rx: Assembly, tx: Outbox,
                                           lastCloseCode: nat)

  datatype ReceivedFrame = ReceivedFrame(source: Text, destination: Text, data: Bytes)

  datatype StatusEvent = StatusEvent(uri: Text, status: nat, closeCode: nat)

  const STATUS_DISCONNECTED := 3
  const STATUS_ERROR := 4

  datatype Metrics = Metrics(totalConnects: nat, totalDisconnects: nat, rxMessages: nat, rxBytes: nat,
                             txMessages: nat, txBytes: nat, txQueueOverflows: nat)

  datatype State = State(configured: bool, listening: bool, listenUri: Text, wantedListenUri: Text, nextClientId: nat,
                         peers: map<Wsi, PeerConnection>, connStringToWsi: map<Text, Wsi>,
                         rxQueue: seq<ReceivedFrame>, statusQueue: seq<StatusEvent>, metrics: Metrics)

  const START := State(false, false, "", "", 1, map[], map[], [], [], Metrics(0, 0, 0, 0, 0, 0, 0))

  function ConnectionString(uri: Text, clientId: nat): Text {
    uri + "|client=" + ToString(clientId)
  }

  // ---- lws callbacks ------------------------------------------------------

  /** `ours`: the client asked for this hub's subprotocol. */
  datatype Callback =
    | Established(wsi: Wsi, ours: bool)
    | Receive(wsi: Wsi, binary: bool, fragment: Fragment)
    | ServerWriteable(wsi: Wsi, written: int)
    | PeerInitiatedClose(wsi: Wsi, payload: Bytes)
    | Closed(wsi: Wsi)

  function OnEstablished(s: State, wsi: Wsi): State {
    var name := ConnectionString(s.listenUri, s.nextClientId);
    var peer :=
      if wsi in s.peers then s.peers[wsi].(connectionString := name, clientId := s.nextClientId)
      else PeerConnection(name, s.nextClientId, EMPTY_ASSEMBLY, EMPTY_OUTBOX, 0);
    s.(nextClientId := s.nextClientId + 1, peers := s.peers[wsi := peer],
       connStringToWsi := s.connStringToWsi[name := wsi],
       metrics := s.metrics.(totalConnects := s.metrics.totalConnects + 1))
  }

  function OnFragment(s: State, wsi: Wsi, f: Fragment): State
    requires wsi in s.peers
  {
    var p := s.peers[wsi];
    var (rx, message) := Take(p.rx, f);
    var s1 := s.(peers := s.peers[wsi := p.(rx := rx)]);
    if message.None? then s1
    else s1.(rxQueue := s.rxQueue + [ReceivedFrame(p.connectionString, s.listenUri, message.value)],
             metrics := s.metrics.(rxMessages := s.metrics.rxMessages + 1,
                                   rxBytes := s.metrics.rxBytes + |message.value|))
  }

  function OnWriteable(s: State, wsi: Wsi, written: int): State
    requires wsi in s.peers
  {
    var p := s.peers[wsi];
    var (tx, turn) := Writeable(p.tx, written);
    var s1 := s.(peers := s.peers[wsi := p.(tx := tx)]);
    if !turn.Writes? then s1
    else s1.(metrics := s.metrics.(txMessages := s.metrics.txMessages + 1,
                                   txBytes := s.metrics.txBytes + |turn.frame|))
  }

  /** A clean close, or none at all, is a disconnect; any other code is an error. */
  function ClosingEvent(p: PeerConnection): StatusEvent {
    StatusEvent(p.connectionString, if p.lastCloseCode == 0 || p.lastCloseCode == 1000 then STATUS_DISCONNECTED else STATUS_ERROR,
                p.lastCloseCode)
  }

  function OnClosed(s: State, wsi: Wsi): State
    requires wsi in s.peers
  {
    var p := s.peers[wsi];
    s.(peers := s.peers - {wsi}, connStringToWsi := s.connStringToWsi - {p.connectionString},
       statusQueue := s.statusQueue + [ClosingEvent(p)],
       metrics := s.metrics.(totalDisconnects := s.metrics.totalDisconnects + 1))
  }

  /** The new state, and whether the callback returns -1, so that lws closes the connection. */
  function OnCallback(s: State, cb: Callback): (State, bool) {
    if cb.Established? then if cb.ours then (OnEstablished(s, cb.wsi), false) else (s, true)
    else if cb.wsi !in s.peers then (s, false)
    else
      match cb
      case Receive(wsi, binary, fragment) => if binary then (OnFragment(s, wsi, fragment), false) else (s, true)
      case ServerWriteable(wsi, written) => (OnWriteable(s, wsi, written), Writeable(s.peers[wsi].tx, written).1.Ends())
      case PeerInitiatedClose(wsi, payload) =>
        if |payload| < 2 then (s, false)
        else (s.(peers := s.peers[wsi := s.peers[wsi].(lastCloseCode := U16(payload, 0))]), false)
      case Closed(wsi) => (OnClosed(s, wsi), false)
  }

  function OnCallbacks(s: State, cbs: seq<Callback>): State
    decreases |cbs|
  {
    if cbs == [] then s else OnCallbacks(OnCallback(s, cbs[0]).0, cbs[1..])
  }

  // ---- Calls --------------------------------------------------------------

  function Enqueued(s: State, wsi: Wsi, data: Bytes): (State, bool)
    requires wsi in s.peers
  {
    var p := s.peers[wsi];
    var (tx, accepted) := Enqueue(p.tx, data);
    (s.(peers := s.peers[wsi := p.(tx := tx)],
        metrics := if Overflows(p.tx) then s.metrics.(txQueueOverflows := s.metrics.txQueueOverflows + 1) else s.metrics),
     accepted)
  }

  /** Whether a frame for this peer finds the queue full. */
  predicate OverflowsOn(s: State, name: Text) {
    name in s.connStringToWsi && s.connStringToWsi[name] in s.peers && Overflows(s.peers[s.connStringToWsi[name]].tx)
  }

  /** Whether the frame was queued. */
  function Send(s: State, name: Text, data: Bytes): (State, bool) {
    if name !in s.connStringToWsi || s.connStringToWsi[name] !in s.peers then (s, false)
    else Enqueued(s, s.connStringToWsi[name], data)
  }

  function Disconnect(s: State, name: Text): State {
    if name !in s.connStringToWsi || s.connStringToWsi[name] !in s.peers then s
    else
      var wsi := s.connStringToWsi[name];
      var p := s.peers[wsi];
      s.(peers := s.peers[wsi := p.(tx := RequestClose(p.tx, CLOSE_STATUS_NORMAL, ""))])
  }

  function PopReceived(s: State): (State, Option<ReceivedFrame>) {
    if s.rxQueue == [] then (s, None) else (s.(rxQueue := s.rxQueue[1..]), Some(s.rxQueue[0]))
  }

  function PopStatusEvent(s: State): (State, Option<StatusEvent>) {
    if s.statusQueue == [] then (s, None) else (s.(statusQueue := s.statusQueue[1..]), Some(s.statusQueue[0]))
  }

  function Cleared(s: State): State {
    s.(listening := false, listenUri := "", peers := map[], connStringToWsi := map[])
  }

  /** `during`: the callbacks lws makes while queued frames are flushed and the context is destroyed. */
  function DestroyListenerContext(s: State, during: seq<Callback>): State {
    if !s.listening then s else Cleared(OnCallbacks(s, during))
  }

  function StopListening(s: State, uri: Text, during: seq<Callback>): State {
    var s1 := if s.wantedListenUri == uri then s.(wantedListenUri := "") else s;
    if !s.listening || s.listenUri != uri then s1 else DestroyListenerContext(s1, during)
  }

  /** `bound`: the URI can be parsed, the certificate files are right, and lws makes the context. */
  function StartListening(s: State, uri: Text, bound: bool, during: seq<Callback>): (State, bool) {
    var s1 := s.(wantedListenUri := uri);
    if !s.configured then (s1, false)
    else if s.listening && s.listenUri == uri then (s1, true)
    else
      var s2 := if s.listening then StopListening(s1, s.listenUri, during) else s1;
      if bound then (s2.(listening := true, listenUri := uri), true) else (s2, false)
  }

  function ReloadCredentials(s: State, bound: bool, during: seq<Callback>): State {
    if s.wantedListenUri == "" then s
    else StartListening(DestroyListenerContext(s, during), s.wantedListenUri, bound, []).0
  }

  /** A listener that is wanted but down is tried again. */
  function Service(s: State, bound: bool): State {
    if s.listening || s.wantedListenUri == "" then s else StartListening(s, s.wantedListenUri, bound, []).0
  }
}
