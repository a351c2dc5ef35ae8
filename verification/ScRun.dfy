/** Every run of the listener: what its peer tables, frames, queues and status events are, whatever the order of calls,
    callbacks, listener stops and certificate reloads. */
module ScRun {
  import opened Octets
  import opened Decimal
  import opened ScAssembly
  import opened ScOutbox
  import opened ScState

  // ---- Runs, and what is remembered of them -------------------------------

  /** All that ever happened on the connection with one connection string; `closeCode` is that of the peer's last close
      frame that has one. */
  datatype Record = Record(uri: Text, clientId: nat, fragments: seq<Fragment>, sent: Sent, closeCode: nat)

  /** The state; a record for each connection string ever made; and the frames and events that were handed out. */
  datatype World = World(s: State, ledger: map<Text, Record>, frames: seq<ReceivedFrame>, events: seq<StatusEvent>)

  function Open(configured: bool): World {
    World(START.(configured := configured), map[], [], [])
  }

  /** The record of the connection on `wsi`, if there is one. */
  function NameOn(w: World, wsi: Wsi): Text
    requires wsi in w.s.peers
  {
    w.s.peers[wsi].connectionString
  }

  function Recorded(w: World, name: Text, r: Record): World {
    w.(ledger := w.ledger[name := r])
  }

  function WithSent(w: World, name: Text, sent: Sent): World {
    if name in w.ledger then Recorded(w, name, w.ledger[name].(sent := sent)) else w
  }

  /** What a callback adds to the records. */
  function Noted(w: World, cb: Callback): World {
    if cb.Established? && cb.ours then
      Recorded(w, ConnectionString(w.s.listenUri, w.s.nextClientId),
               Record(w.s.listenUri, w.s.nextClientId, [], NOTHING_SENT, 0))
    else if cb.wsi !in w.s.peers || NameOn(w, cb.wsi) !in w.ledger then w
    else
      var name := NameOn(w, cb.wsi);
      var r := w.ledger[name];
      match cb
      case Receive(_, binary, fragment) =>
        Recorded(w, name, if binary then r.(fragments := r.fragments + [fragment])
                          else r.(sent := r.sent.(ended := true)))
      case ServerWriteable(wsi, written) =>
        WithSent(w, name, AfterTurn(r.sent, Writeable(w.s.peers[wsi].tx, written).1))
      case PeerInitiatedClose(_, payload) =>
        if |payload| < 2 then w else Recorded(w, name, r.(closeCode := 0x100 * payload[0] as int + payload[1] as int))
      case _ => w
  }

  function AfterCallback(w: World, cb: Callback): World {
    Noted(w, cb).(s := OnCallback(w.s, cb).0)
  }

  function AfterCallbacks(w: World, cbs: seq<Callback>): World
    decreases |cbs|
  {
    if cbs == [] then w else AfterCallbacks(AfterCallback(w, cbs[0]), cbs[1..])
  }

  /** What lws is taken to do: a connection that a callback has ended gets no callback but CLOSED, and a connection is
      not established while it is open. */
  predicate LwsMay(w: World, cb: Callback) {
    match cb
    case Established(wsi, ours) => ours ==> wsi !in w.s.peers
    case Closed(_) => true
    case _ => cb.wsi in w.s.peers && NameOn(w, cb.wsi) in w.ledger ==> !w.ledger[NameOn(w, cb.wsi)].sent.ended
  }

  predicate LwsMayAll(w: World, cbs: seq<Callback>)
    decreases |cbs|
  {
    cbs == [] || (LwsMay(w, cbs[0]) && LwsMayAll(AfterCallback(w, cbs[0]), cbs[1..]))
  }

  /** And when a context is destroyed, every open connection has been given CLOSED. */
  predicate LwsMayDestroy(w: World, during: seq<Callback>) {
    LwsMayAll(w, during) && AfterCallbacks(w, during).s.peers == map[]
  }

  datatype Event =
    | Lws(cb: Callback)
    | SendsTo(name: Text, data: Bytes)
    | Disconnects(name: Text)
    | PopsReceived
    | PopsStatusEvent
    | StartsListening(uri: Text, bound: bool, during: seq<Callback>)
    | StopsListening(uri: Text, during: seq<Callback>)
    | ReloadsCredentials(bound: bool, during: seq<Callback>)
    | Serves(bound: bool)

  /** Whether the call destroys the listener context. */
  predicate Destroys(s: State, e: Event) {
    s.listening &&
    match e
    case StartsListening(uri, _, _) => s.configured && s.listenUri != uri
    case StopsListening(uri, _) => s.listenUri == uri
    case ReloadsCredentials(_, _) => s.wantedListenUri != ""
    case _ => false
  }

  function During(e: Event): seq<Callback> {
    if e.StartsListening? || e.StopsListening? || e.ReloadsCredentials? then e.during else []
  }

  predicate Allowed(w: World, e: Event) {
    match e
    case Lws(cb) => LwsMay(w, cb)
    case _ => Destroys(w.s, e) ==> LwsMayDestroy(w, During(e))
  }

  function NextState(s: State, e: Event): State {
    match e
    case Lws(cb) => OnCallback(s, cb).0
    case SendsTo(name, data) => Send(s, name, data).0
    case Disconnects(name) => Disconnect(s, name)
    case PopsReceived => PopReceived(s).0
    case PopsStatusEvent => PopStatusEvent(s).0
    case StartsListening(uri, bound, during) => StartListening(s, uri, bound, during).0
    case StopsListening(uri, during) => StopListening(s, uri, during)
    case ReloadsCredentials(bound, during) => ReloadCredentials(s, bound, during)
    case Serves(bound) => Service(s, bound)
  }

  /** What a pop handed out, if anything. */
  function Found<T>(popped: Option<T>): seq<T> {
    if popped.None? then [] else [popped.value]
  }

  function Next(w: World, e: Event): World {
    var noted :=
      match e
      case Lws(cb) => Noted(w, cb)
      case SendsTo(name, data) =>
        if name !in w.ledger then w
        else WithSent(w, name, AfterSend(w.ledger[name].sent, data, Send(w.s, name, data).1, OverflowsOn(w.s, name)))
      case PopsReceived => w.(frames := w.frames + Found(PopReceived(w.s).1))
      case PopsStatusEvent => w.(events := w.events + Found(PopStatusEvent(w.s).1))
      case _ => if Destroys(w.s, e) then AfterCallbacks(w, During(e)) else w;
    noted.(s := NextState(w.s, e))
  }

  function Run(w: World, es: seq<Event>): World {
    if es == [] then w else Next(Run(w, es[..|es| - 1]), es[|es| - 1])
  }

  predicate AllAllowed(w: World, es: seq<Event>) {
    es == [] || (AllAllowed(w, es[..|es| - 1]) && Allowed(Run(w, es[..|es| - 1]), es[|es| - 1]))
  }

  // ---- What holds in all of them ------------------------------------------

  /** All frames of one connection, in order. */
  function FramesFrom(frames: seq<ReceivedFrame>, name: Text): seq<Bytes> {
    if frames == [] then []
    else
      var n := |frames| - 1;
      FramesFrom(frames[..n], name) + if frames[n].source == name then [frames[n].data] else []
  }

  function EventsFor(events: seq<StatusEvent>, name: Text): nat {
    if events == [] then 0
    else EventsFor(events[..|events| - 1], name) + if events[|events| - 1].uri == name then 1 else 0
  }

  function TotalBytes(frames: seq<ReceivedFrame>): nat {
    if frames == [] then 0 else TotalBytes(frames[..|frames| - 1]) + |frames[|frames| - 1].data|
  }

  /** m_peers and m_connStringToWsi are inverse to each other. */
  predicate Mirrored(s: State) {
    (forall wsi :: wsi in s.peers ==>
       s.peers[wsi].connectionString in s.connStringToWsi && s.connStringToWsi[s.peers[wsi].connectionString] == wsi) &&
    (forall name :: name in s.connStringToWsi ==>
       s.connStringToWsi[name] in s.peers && s.peers[s.connStringToWsi[name]].connectionString == name)
  }

  /** A record is that of the connection it names. */
  predicate Named(s: State, name: Text, r: Record) {
    name == ConnectionString(r.uri, r.clientId) && r.clientId < s.nextClientId && r.sent.written <= r.sent.accepted
  }

  /** An open connection is as its record says. */
  predicate PeerOk(p: PeerConnection, ledger: map<Text, Record>) {
    p.connectionString in ledger && Holds(p.rx, ledger[p.connectionString].fragments) &&
    InOrder(p.tx, ledger[p.connectionString].sent) && p.lastCloseCode == ledger[p.connectionString].closeCode
  }

  predicate PeersOk(s: State, ledger: map<Text, Record>) {
    (forall name :: name in ledger ==> Named(s, name, ledger[name])) &&
    (forall wsi :: wsi in s.peers ==> PeerOk(s.peers[wsi], ledger)) &&
    s.metrics.totalConnects == s.metrics.totalDisconnects + |s.peers| && s.metrics.totalConnects == |ledger|
  }

  /** The frames of each connection are its whole messages that fit, in order. */
  predicate FramesOk(s: State, ledger: map<Text, Record>, all: seq<ReceivedFrame>) {
    (forall name :: name in ledger ==> FramesFrom(all, name) == Fitting(Messages(ledger[name].fragments))) &&
    (forall k :: 0 <= k < |all| ==> all[k].source in ledger) &&
    s.metrics.rxMessages == |all| && s.metrics.rxBytes == TotalBytes(all)
  }

  /** A clean close, or none at all, is reported as a disconnect (3), any other code as an error (4). */
  predicate Reports(e: StatusEvent, closeCode: nat) {
    e.closeCode == closeCode && e.status == if closeCode == 0 || closeCode == 1000 then 3 else 4
  }

  /** A connection that is over has been reported once, as its last close code says, and an open one not at all. */
  predicate EventsOk(s: State, ledger: map<Text, Record>, all: seq<StatusEvent>) {
    (forall name :: name in ledger ==> EventsFor(all, name) == if name in s.connStringToWsi then 0 else 1) &&
    (forall k :: 0 <= k < |all| ==> all[k].uri in ledger && Reports(all[k], ledger[all[k].uri].closeCode)) &&
    s.metrics.totalDisconnects == |all|
  }

  predicate Inv(w: World) {
    Mirrored(w.s) && PeersOk(w.s, w.ledger) && FramesOk(w.s, w.ledger, w.frames + w.s.rxQueue) &&
    EventsOk(w.s, w.ledger, w.events + w.s.statusQueue)
  }

  // ---- Connection strings -------------------------------------------------

  lemma NamesDiffer(uri: Text, m: nat, other: Text, n: nat)
    requires ConnectionString(uri, m) == ConnectionString(other, n)
    ensures m == n
  {
    var a, b := ToString(m), ToString(n);
    var name := ConnectionString(uri, m);
    assert name[|name| - |a| - 1] == '=' && name[|name| - |b| - 1] == '=';
    assert forall k :: 0 <= k < |a| ==> name[|name| - |a| + k] == a[k];
    assert forall k :: 0 <= k < |b| ==> name[|name| - |b| + k] == b[k];
    SameDigits(name, |a|, |b|, a, b);
    ValueOfToString(m);
    ValueOfToString(n);
  }

  /** The digits after the last '='. */
  lemma SameDigits(name: Text, i: nat, j: nat, a: Text, b: Text)
    requires IsDigits(a) && IsDigits(b) && |a| == i < |name| && |b| == j < |name|
    requires name[|name| - i - 1] == '=' && name[|name| - j - 1] == '='
    requires forall k :: 0 <= k < i ==> name[|name| - i + k] == a[k]
    requires forall k :: 0 <= k < j ==> name[|name| - j + k] == b[k]
    ensures a == b
  {
    forall p | |name| - i <= p < |name|
      ensures name[p] != '='
    {
      assert name[p] == name[|name| - i + (p - (|name| - i))] == a[p - (|name| - i)];
    }
    forall p | |name| - j <= p < |name|
      ensures name[p] != '='
    {
      assert name[p] == name[|name| - j + (p - (|name| - j))] == b[p - (|name| - j)];
    }
    assert i == j;
    assert forall k :: 0 <= k < i ==> a[k] == name[|name| - i + k];
  }

  /** The string the next connection gets is new. */
  lemma NextNameIsNew(w: World, uri: Text)
    requires PeersOk(w.s, w.ledger)
    ensures ConnectionString(uri, w.s.nextClientId) !in w.ledger
  {
    hide ConnectionString, PeerOk;
    var name := ConnectionString(uri, w.s.nextClientId);
    if name in w.ledger {
      assert Named(w.s, name, w.ledger[name]);
      NamesDiffer(uri, w.s.nextClientId, w.ledger[name].uri, w.ledger[name].clientId);
      assert false;
    }
  }

  // ---- Logs grow at the end -----------------------------------------------

  lemma FramesFromWith(frames: seq<ReceivedFrame>, f: ReceivedFrame, name: Text)
    ensures FramesFrom(frames + [f], name) == FramesFrom(frames, name) + if f.source == name then [f.data] else []
  {
    assert (frames + [f])[..|frames|] == frames;
  }

  lemma TotalBytesWith(frames: seq<ReceivedFrame>, f: ReceivedFrame)
    ensures TotalBytes(frames + [f]) == TotalBytes(frames) + |f.data|
  {
    assert (frames + [f])[..|frames|] == frames;
  }

  lemma EventsForWith(events: seq<StatusEvent>, e: StatusEvent, name: Text)
    ensures EventsFor(events + [e], name) == EventsFor(events, name) + if e.uri == name then 1 else 0
  {
    assert (events + [e])[..|events|] == events;
  }

  lemma {:induction false} NothingFrom(frames: seq<ReceivedFrame>, name: Text)
    requires forall k :: 0 <= k < |frames| ==> frames[k].source != name
    ensures FramesFrom(frames, name) == []
    decreases |frames|
  {
    if frames != [] {
      NothingFrom(frames[..|frames| - 1], name);
    }
  }

  lemma {:induction false} NothingFor(events: seq<StatusEvent>, name: Text)
    requires forall k :: 0 <= k < |events| ==> events[k].uri != name
    ensures EventsFor(events, name) == 0
    decreases |events|
  {
    if events != [] {
      NothingFor(events[..|events| - 1], name);
    }
  }

  lemma {:induction false} SomethingFor(events: seq<StatusEvent>, name: Text, k: nat)
    requires k < |events| && events[k].uri == name
    ensures EventsFor(events, name) > 0
    decreases |events|
  {
    if k < |events| - 1 {
      SomethingFor(events[..|events| - 1], name, k);
    }
  }

  // ---- One connection changes ---------------------------------------------

  /** `after` is `s` with another rx or tx for the connection on `wsi`, and otherwise the same tables. */
  predicate OnePeerChanged(s: State, after: State, wsi: Wsi) {
    wsi in s.peers && wsi in after.peers && after.peers == s.peers[wsi := after.peers[wsi]] &&
    after.peers[wsi].connectionString == s.peers[wsi].connectionString &&
    after.connStringToWsi == s.connStringToWsi && after.nextClientId == s.nextClientId &&
    after.metrics.totalConnects == s.metrics.totalConnects && after.metrics.totalDisconnects == s.metrics.totalDisconnects
  }

  lemma OnePeerKeepsMirror(s: State, after: State, wsi: Wsi)
    requires Mirrored(s) && OnePeerChanged(s, after, wsi)
    ensures Mirrored(after)
  {
  }

  lemma OnePeerKeepsPeers(s: State, after: State, wsi: Wsi, ledger: map<Text, Record>, r: Record)
    requires Mirrored(s) && PeersOk(s, ledger) && OnePeerChanged(s, after, wsi)
    requires var name := s.peers[wsi].connectionString;
             name in ledger && r.uri == ledger[name].uri && r.clientId == ledger[name].clientId &&
             r.sent.written <= r.sent.accepted && PeerOk(after.peers[wsi], ledger[name := r])
    ensures PeersOk(after, ledger[s.peers[wsi].connectionString := r])
  {
    hide ConnectionString, Holds, InOrder;
    var name := s.peers[wsi].connectionString;
    forall other | other in after.peers
      ensures PeerOk(after.peers[other], ledger[name := r])
    {
      if other != wsi {
        assert s.peers[other].connectionString != name;
        assert PeerOk(s.peers[other], ledger);
      }
    }
    forall n | n in ledger
      ensures Named(after, n, ledger[name := r][n])
    {
      assert Named(s, n, ledger[n]);
    }
    assert |after.peers| == |s.peers| by {
      assert after.peers.Keys == s.peers.Keys;
      assert |after.peers| == |after.peers.Keys| && |s.peers| == |s.peers.Keys|;
    }
  }

  /** The frame log does not change, nor the fragments of any connection. */
  lemma SameFramesOk(s: State, after: State, ledger: map<Text, Record>, ledger': map<Text, Record>, all: seq<ReceivedFrame>)
    requires FramesOk(s, ledger, all) && ledger'.Keys == ledger.Keys
    requires forall name :: name in ledger ==> ledger'[name].fragments == ledger[name].fragments
    requires after.metrics.rxMessages == s.metrics.rxMessages && after.metrics.rxBytes == s.metrics.rxBytes
    ensures FramesOk(after, ledger', all)
  {
    hide FramesFrom, Fitting, Messages;
  }

  lemma SameEventsOk(s: State, after: State, ledger: map<Text, Record>, ledger': map<Text, Record>, all: seq<StatusEvent>)
    requires EventsOk(s, ledger, all) && ledger'.Keys == ledger.Keys && after.connStringToWsi == s.connStringToWsi
    requires forall name :: name in ledger && name !in s.connStringToWsi ==> ledger'[name].closeCode == ledger[name].closeCode
    requires after.metrics.totalDisconnects == s.metrics.totalDisconnects
    ensures EventsOk(after, ledger', all)
  {
    hide EventsFor, Reports;
    forall k | 0 <= k < |all|
      ensures all[k].uri in ledger' && Reports(all[k], ledger'[all[k].uri].closeCode)
    {
      SomethingFor(all, all[k].uri, k);
    }
  }

  /** A step that changes one connection, its record but not its fragments, and no log. */
  lemma OnePeerKeepsInv(w: World, v: World, wsi: Wsi)
    requires Inv(w) && OnePeerChanged(w.s, v.s, wsi) && NameOn(w, wsi) in v.ledger
    requires var name := NameOn(w, wsi);
             v.ledger == w.ledger[name := v.ledger[name]] && name in w.ledger &&
             v.ledger[name].(sent := w.ledger[name].sent, closeCode := w.ledger[name].closeCode) == w.ledger[name] &&
             InOrder(v.s.peers[wsi].tx, v.ledger[name].sent) && v.s.peers[wsi].rx == w.s.peers[wsi].rx &&
             v.s.peers[wsi].lastCloseCode == v.ledger[name].closeCode
    requires v.frames == w.frames && v.events == w.events
    requires v.s.rxQueue == w.s.rxQueue && v.s.statusQueue == w.s.statusQueue
    requires v.s.metrics.rxMessages == w.s.metrics.rxMessages && v.s.metrics.rxBytes == w.s.metrics.rxBytes
    ensures Inv(v)
  {
    hide FramesOk, EventsOk, Holds, ConnectionString;
    var name := NameOn(w, wsi);
    assert PeerOk(w.s.peers[wsi], w.ledger);
    OnePeerKeepsMirror(w.s, v.s, wsi);
    OnePeerKeepsPeers(w.s, v.s, wsi, w.ledger, v.ledger[name]);
    SameFramesOk(w.s, v.s, w.ledger, v.ledger, w.frames + w.s.rxQueue);
    SameEventsOk(w.s, v.s, w.ledger, v.ledger, w.events + w.s.statusQueue);
  }

  lemma PeerIsOk(w: World, wsi: Wsi)
    requires Inv(w) && wsi in w.s.peers
    ensures NameOn(w, wsi) in w.ledger && NameOn(w, wsi) in w.s.connStringToWsi
    ensures Holds(w.s.peers[wsi].rx, w.ledger[NameOn(w, wsi)].fragments)
    ensures InOrder(w.s.peers[wsi].tx, w.ledger[NameOn(w, wsi)].sent)
    ensures w.s.peers[wsi].lastCloseCode == w.ledger[NameOn(w, wsi)].closeCode
  {
    hide Holds, InOrder, FramesOk, EventsOk;
    assert PeerOk(w.s.peers[wsi], w.ledger);
  }

  // ---- Every callback and call keeps it -----------------------------------

  lemma EstablishedKeepsMirror(s: State, wsi: Wsi)
    requires Mirrored(s) && wsi !in s.peers && ConnectionString(s.listenUri, s.nextClientId) !in s.connStringToWsi
    ensures Mirrored(OnEstablished(s, wsi))
  {
    hide ConnectionString;
  }

  lemma EstablishedKeepsPeers(s: State, wsi: Wsi, ledger: map<Text, Record>, name: Text, r: Record)
    requires Mirrored(s) && PeersOk(s, ledger) && wsi !in s.peers && name !in ledger
    requires name == ConnectionString(s.listenUri, s.nextClientId)
    requires r == Record(s.listenUri, s.nextClientId, [], NOTHING_SENT, 0)
    ensures PeersOk(OnEstablished(s, wsi), ledger[name := r])
  {
    hide ConnectionString, PeerOk, OnEstablished;
    var after := OnEstablished(s, wsi);
    NewPeerIs(s, wsi);
    var peer := PeerConnection(name, s.nextClientId, EMPTY_ASSEMBLY, EMPTY_OUTBOX, 0);
    forall other | other in after.peers
      ensures PeerOk(after.peers[other], ledger[name := r])
    {
      if other != wsi {
        KnownPeerOk(s.peers[other], ledger, name, r);
      } else {
        FreshPeer(peer, ledger[name := r]);
      }
    }
    forall n | n in ledger
      ensures Named(after, n, ledger[n])
    {
      assert Named(s, n, ledger[n]);
    }
    OneMore(s.peers, wsi, peer);
    OneMore(ledger, name, r);
  }

  lemma OneMore<K, V>(m: map<K, V>, k: K, v: V)
    requires k !in m
    ensures |m[k := v]| == |m| + 1
  {
    assert m[k := v].Keys == m.Keys + {k};
    assert |m[k := v]| == |m[k := v].Keys| && |m| == |m.Keys|;
  }

  lemma NewPeerIs(s: State, wsi: Wsi)
    requires wsi !in s.peers
    ensures var after := OnEstablished(s, wsi);
            after.peers == s.peers[wsi := PeerConnection(ConnectionString(s.listenUri, s.nextClientId), s.nextClientId,
                                                         EMPTY_ASSEMBLY, EMPTY_OUTBOX, 0)] &&
            after.nextClientId == s.nextClientId + 1 &&
            after.metrics.totalConnects == s.metrics.totalConnects + 1 &&
            after.metrics.totalDisconnects == s.metrics.totalDisconnects
  {
  }

  lemma KnownPeerOk(p: PeerConnection, ledger: map<Text, Record>, name: Text, r: Record)
    requires PeerOk(p, ledger) && name !in ledger
    ensures PeerOk(p, ledger[name := r])
  {
    hide Holds, InOrder;
  }

  lemma FreshPeer(p: PeerConnection, ledger: map<Text, Record>)
    requires p.connectionString in ledger && p.rx == EMPTY_ASSEMBLY && p.tx == EMPTY_OUTBOX && p.lastCloseCode == 0
    requires var r := ledger[p.connectionString]; r.fragments == [] && r.sent == NOTHING_SENT && r.closeCode == 0
    ensures PeerOk(p, ledger)
  {
  }

  lemma EstablishedKeepsInv(w: World, wsi: Wsi)
    requires Inv(w) && wsi !in w.s.peers
    ensures Inv(AfterCallback(w, Established(wsi, true)))
  {
    hide ConnectionString, PeerOk, Named, FramesOk, EventsOk, PeersOk, Mirrored, OnCallback, OnEstablished;
    var name := ConnectionString(w.s.listenUri, w.s.nextClientId);
    NextNameIsNew(w, w.s.listenUri);
    NamesInTableAreRecorded(w);
    var v := AfterCallback(w, Established(wsi, true));
    EstablishedIs(w.s, wsi);
    EstablishedKeepsMirror(w.s, wsi);
    EstablishedKeepsPeers(w.s, wsi, w.ledger, name, v.ledger[name]);
    NewNameFramesOk(w.s, v.s, w.ledger, name, v.ledger[name], w.frames + w.s.rxQueue);
    NewNameEventsOk(w.s, v.s, wsi, w.ledger, name, v.ledger[name], w.events + w.s.statusQueue);
  }

  /** A connection that is new has no frames and no event. */
  lemma NewNameFramesOk(s: State, after: State, ledger: map<Text, Record>, name: Text, r: Record, all: seq<ReceivedFrame>)
    requires FramesOk(s, ledger, all) && name !in ledger && r.fragments == []
    requires after.metrics.rxMessages == s.metrics.rxMessages && after.metrics.rxBytes == s.metrics.rxBytes
    ensures FramesOk(after, ledger[name := r], all)
  {
    hide FramesFrom, Messages, Fitting, TotalBytes;
    NothingFrom(all, name);
    NoMessages();
  }

  lemma NewNameEventsOk(s: State, after: State, wsi: Wsi, ledger: map<Text, Record>, name: Text, r: Record,
                        all: seq<StatusEvent>)
    requires EventsOk(s, ledger, all) && name !in ledger && after.connStringToWsi == s.connStringToWsi[name := wsi]
    requires after.metrics.totalDisconnects == s.metrics.totalDisconnects
    ensures EventsOk(after, ledger[name := r], all)
  {
    hide EventsFor, Reports;
    NothingFor(all, name);
  }

  lemma NoMessages()
    ensures Fitting(Messages([])) == []
  {
  }

  lemma EstablishedIs(s: State, wsi: Wsi)
    ensures OnCallback(s, Established(wsi, true)).0 == OnEstablished(s, wsi)
    ensures var after := OnEstablished(s, wsi);
            after.rxQueue == s.rxQueue && after.statusQueue == s.statusQueue &&
            after.metrics.rxMessages == s.metrics.rxMessages && after.metrics.rxBytes == s.metrics.rxBytes &&
            after.metrics.totalDisconnects == s.metrics.totalDisconnects &&
            after.connStringToWsi == s.connStringToWsi[ConnectionString(s.listenUri, s.nextClientId) := wsi]
  {
  }

  lemma NamesInTableAreRecorded(w: World)
    requires Inv(w)
    ensures forall name :: name in w.s.connStringToWsi ==> name in w.ledger
  {
    hide FramesOk, EventsOk, Holds, InOrder;
    forall name | name in w.s.connStringToWsi
      ensures name in w.ledger
    {
      assert PeerOk(w.s.peers[w.s.connStringToWsi[name]], w.ledger);
    }
  }

  // A fragment: the connection's assembly and record, and perhaps one frame more in the log.

  lemma FragmentKeepsFrames(s: State, after: State, wsi: Wsi, f: Fragment, ledger: map<Text, Record>, name: Text,
                            all: seq<ReceivedFrame>)
    requires FramesOk(s, ledger, all) && wsi in s.peers && name == s.peers[wsi].connectionString && name in ledger
    requires Holds(s.peers[wsi].rx, ledger[name].fragments) && after == OnFragment(s, wsi, f)
    ensures var more := after.rxQueue[|s.rxQueue|..];
            |after.rxQueue| >= |s.rxQueue| && after.rxQueue == s.rxQueue + more &&
            FramesOk(after, ledger[name := ledger[name].(fragments := ledger[name].fragments + [f])], all + more)
  {
    hide Take, Holds, FramesFrom, Fitting, Messages, TotalBytes;
    TakeIsFaithful(s.peers[wsi].rx, ledger[name].fragments, f);
    var message := Take(s.peers[wsi].rx, f).1;
    if message.Some? {
      var frame := ReceivedFrame(name, s.listenUri, message.value);
      assert after.rxQueue[|s.rxQueue|..] == [frame];
      TotalBytesWith(all, frame);
      forall n | n in ledger
        ensures FramesFrom(all + [frame], n) == FramesFrom(all, n) + if name == n then [frame.data] else []
      {
        FramesFromWith(all, frame, n);
      }
    } else {
      assert after.rxQueue[|s.rxQueue|..] == [];
      assert all + [] == all;
    }
  }

  lemma FragmentKeepsInv(w: World, wsi: Wsi, f: Fragment)
    requires Inv(w) && wsi in w.s.peers
    ensures Inv(AfterCallback(w, Receive(wsi, true, f)))
  {
    hide Holds, InOrder, ConnectionString, Mirrored, PeersOk, FramesOk, EventsOk, Take, Messages, Fitting;
    PeerIsOk(w, wsi);
    var name, v := NameOn(w, wsi), AfterCallback(w, Receive(wsi, true, f));
    TakeIsFaithful(w.s.peers[wsi].rx, w.ledger[name].fragments, f);
    OnePeerKeepsMirror(w.s, v.s, wsi);
    NamedRecord(w, name);
    OnePeerKeepsPeers(w.s, v.s, wsi, w.ledger, v.ledger[name]);
    FragmentKeepsFrames(w.s, v.s, wsi, f, w.ledger, name, w.frames + w.s.rxQueue);
    var more := v.s.rxQueue[|w.s.rxQueue|..];
    assert w.frames + w.s.rxQueue + more == w.frames + (w.s.rxQueue + more);
    SameEventsOk(w.s, v.s, w.ledger, v.ledger, w.events + w.s.statusQueue);
  }

  lemma NamedRecord(w: World, name: Text)
    requires Inv(w) && name in w.ledger
    ensures Named(w.s, name, w.ledger[name])
  {
    hide FramesOk, EventsOk, PeerOk, ConnectionString;
  }

  lemma NonBinaryKeepsInv(w: World, wsi: Wsi, f: Fragment)
    requires Inv(w) && wsi in w.s.peers
    ensures Inv(AfterCallback(w, Receive(wsi, false, f)))
  {
    hide Inv, Holds;
    PeerIsOk(w, wsi);
    EndedInOrder(w.s.peers[wsi].tx, w.ledger[NameOn(w, wsi)].sent);
    OnePeerKeepsInv(w, AfterCallback(w, Receive(wsi, false, f)), wsi);
  }

  lemma EndedInOrder(o: Outbox, h: Sent)
    requires InOrder(o, h)
    ensures InOrder(o, h.(ended := true))
  {
  }

  lemma WriteableKeepsInv(w: World, wsi: Wsi, written: int)
    requires Inv(w) && wsi in w.s.peers && LwsMay(w, ServerWriteable(wsi, written))
    ensures Inv(AfterCallback(w, ServerWriteable(wsi, written)))
  {
    hide Inv, Holds, InOrder, Writeable, AfterTurn;
    PeerIsOk(w, wsi);
    var name := NameOn(w, wsi);
    TurnKeepsOrder(w.s.peers[wsi].tx, w.ledger[name].sent, written);
    OnePeerKeepsInv(w, AfterCallback(w, ServerWriteable(wsi, written)), wsi);
  }

  lemma PeerCloseKeepsInv(w: World, wsi: Wsi, payload: Bytes)
    requires Inv(w) && wsi in w.s.peers
    ensures Inv(AfterCallback(w, PeerInitiatedClose(wsi, payload)))
  {
    hide Inv, Holds, InOrder;
    PeerIsOk(w, wsi);
    var name, v := NameOn(w, wsi), AfterCallback(w, PeerInitiatedClose(wsi, payload));
    assert |payload| < 2 ==> v.ledger == w.ledger[name := w.ledger[name]];
    OnePeerKeepsInv(w, v, wsi);
  }

  // The connection is over: out of both tables, and one event.

  lemma ClosedKeepsMirror(s: State, wsi: Wsi)
    requires Mirrored(s) && wsi in s.peers
    ensures Mirrored(OnClosed(s, wsi))
    ensures forall name :: name in OnClosed(s, wsi).connStringToWsi <==>
              name in s.connStringToWsi && name != s.peers[wsi].connectionString
  {
  }

  lemma ClosedKeepsPeers(s: State, wsi: Wsi, ledger: map<Text, Record>)
    requires Mirrored(s) && PeersOk(s, ledger) && wsi in s.peers
    ensures PeersOk(OnClosed(s, wsi), ledger)
  {
    hide ConnectionString, Holds, InOrder;
    var after := OnClosed(s, wsi);
    forall n | n in ledger
      ensures Named(after, n, ledger[n])
    {
      assert Named(s, n, ledger[n]);
    }
    assert after.peers.Keys == s.peers.Keys - {wsi};
    assert |after.peers| == |after.peers.Keys| && |s.peers| == |s.peers.Keys|;
  }

  lemma ClosedKeepsEvents(s: State, after: State, wsi: Wsi, ledger: map<Text, Record>, all: seq<StatusEvent>)
    requires EventsOk(s, ledger, all) && wsi in s.peers && after == OnClosed(s, wsi) && Mirrored(s)
    requires s.peers[wsi].connectionString in ledger
    requires s.peers[wsi].lastCloseCode == ledger[s.peers[wsi].connectionString].closeCode
    ensures EventsOk(after, ledger, all + [ClosingEvent(s.peers[wsi])])
  {
    assert after.metrics.totalDisconnects == s.metrics.totalDisconnects + 1;
    hide EventsFor, OnClosed;
    ClosedKeepsMirror(s, wsi);
    var e := ClosingEvent(s.peers[wsi]);
    forall n | n in ledger
      ensures EventsFor(all + [e], n) == if n in after.connStringToWsi then 0 else 1
    {
      EventsForWith(all, e, n);
    }
  }

  lemma ClosedKeepsInv(w: World, wsi: Wsi)
    requires Inv(w) && wsi in w.s.peers
    ensures Inv(AfterCallback(w, Closed(wsi)))
  {
    hide Holds, InOrder, ConnectionString, PeersOk, FramesOk, EventsOk, Mirrored;
    PeerIsOk(w, wsi);
    var v := AfterCallback(w, Closed(wsi));
    ClosedKeepsMirror(w.s, wsi);
    ClosedKeepsPeers(w.s, wsi, w.ledger);
    SameFramesOk(w.s, v.s, w.ledger, v.ledger, w.frames + w.s.rxQueue);
    ClosedKeepsEvents(w.s, v.s, wsi, w.ledger, w.events + w.s.statusQueue);
    var e := ClosingEvent(w.s.peers[wsi]);
    assert w.events + w.s.statusQueue + [e] == w.events + (w.s.statusQueue + [e]);
  }

  /** Whatever lws may call back keeps the invariant. */
  lemma CallbackKeepsInv(w: World, cb: Callback)
    requires Inv(w) && LwsMay(w, cb)
    ensures Inv(AfterCallback(w, cb))
  {
    hide Inv;
    if cb.Established? {
      if cb.ours {
        EstablishedKeepsInv(w, cb.wsi);
      } else {
        assert AfterCallback(w, cb) == w;
      }
    } else if cb.wsi !in w.s.peers {
      assert AfterCallback(w, cb) == w;
    } else {
      match cb
      case Receive(wsi, binary, fragment) =>
        if binary {
          FragmentKeepsInv(w, wsi, fragment);
        } else {
          NonBinaryKeepsInv(w, wsi, fragment);
        }
      case ServerWriteable(wsi, written) => WriteableKeepsInv(w, wsi, written);
      case PeerInitiatedClose(wsi, payload) => PeerCloseKeepsInv(w, wsi, payload);
      case Closed(wsi) => ClosedKeepsInv(w, wsi);
    }
  }
}
