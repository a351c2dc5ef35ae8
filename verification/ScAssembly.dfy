/** Putting fragments together into whole messages, with the ingress ceiling (ScTransport::HandleIncomingFragment). */
module ScAssembly {
  import opened Octets

  const MAX_INGRESS_BYTES := 1600

  datatype Fragment = Fragment(data: Bytes, last: bool)

  /** rxAssembly and rxOverflow of a connection. */
  datatype Assembly = Assembly(buffer: Bytes, overflow: bool)

  const EMPTY_ASSEMBLY := Assembly([], false)

  /** What one binary fragment does: the new assembly, and the message that is complete now. */
  function Take(a: Assembly, f: Fragment): (Assembly, Option<Bytes>) {
    var grown :=
      if a.overflow then a
      else if |a.buffer| + |f.data| > MAX_INGRESS_BYTES then Assembly([], true)
      else Assembly(a.buffer + f.data, false);
    if !f.last then (grown, None)
    else (EMPTY_ASSEMBLY, if grown.overflow then None else Some(grown.buffer))
  }

  // ---- What was sent ------------------------------------------------------

  /** The data of these fragments, one after another. */
  function Data(fragments: seq<Fragment>): Bytes {
    if fragments == [] then [] else Data(fragments[..|fragments| - 1]) + fragments[|fragments| - 1].data
  }

  /** The fragments of a message that is not complete yet. */
  function Unfinished(fragments: seq<Fragment>): seq<Fragment> {
    if fragments == [] || fragments[|fragments| - 1].last then []
    else Unfinished(fragments[..|fragments| - 1]) + [fragments[|fragments| - 1]]
  }

  /** Every message whose last fragment is there. */
  function Messages(fragments: seq<Fragment>): seq<Bytes> {
    if fragments == [] then []
    else
      var n := |fragments| - 1;
      Messages(fragments[..n]) +
      if fragments[n].last then [Data(Unfinished(fragments[..n])) + fragments[n].data] else []
  }

  /** Those the stack can accept. */
  function Fitting(messages: seq<Bytes>): seq<Bytes> {
    if messages == [] then []
    else
      var n := |messages| - 1;
      Fitting(messages[..n]) + if |messages[n]| <= MAX_INGRESS_BYTES then [messages[n]] else []
  }

  /** An assembly holds the unfinished message, or remembers that it is too long. */
  predicate Holds(a: Assembly, fragments: seq<Fragment>) {
    var data := Data(Unfinished(fragments));
    a == if |data| > MAX_INGRESS_BYTES then Assembly([], true) else Assembly(data, false)
  }

  lemma DataWith(fragments: seq<Fragment>, f: Fragment)
    ensures Data(fragments + [f]) == Data(fragments) + f.data
  {
    assert (fragments + [f])[..|fragments|] == fragments;
  }

  lemma UnfinishedWith(fragments: seq<Fragment>, f: Fragment)
    ensures Unfinished(fragments + [f]) == if f.last then [] else Unfinished(fragments) + [f]
  {
    assert (fragments + [f])[..|fragments|] == fragments;
  }

  lemma MessagesWith(fragments: seq<Fragment>, f: Fragment)
    ensures Messages(fragments + [f]) ==
            Messages(fragments) + if f.last then [Data(Unfinished(fragments)) + f.data] else []
  {
    assert (fragments + [f])[..|fragments|] == fragments;
  }

  lemma FittingWith(messages: seq<Bytes>, m: Bytes)
    ensures Fitting(messages + [m]) == Fitting(messages) + if |m| <= MAX_INGRESS_BYTES then [m] else []
  {
    assert (messages + [m])[..|messages|] == messages;
  }

  /** One more fragment: the assembly still holds what is unfinished, and gives the message exactly when it is
      complete and fits. */
  lemma TakeIsFaithful(a: Assembly, fragments: seq<Fragment>, f: Fragment)
    requires Holds(a, fragments)
    ensures Holds(Take(a, f).0, fragments + [f])
    ensures Fitting(Messages(fragments + [f])) ==
            Fitting(Messages(fragments)) + if Take(a, f).1.Some? then [Take(a, f).1.value] else []
  {
    hide Data, Unfinished, Messages, Fitting;
    UnfinishedWith(fragments, f);
    MessagesWith(fragments, f);
    DataWith(Unfinished(fragments), f);
    NoData();
    FittingWith(Messages(fragments), Data(Unfinished(fragments)) + f.data);
    assert f.last || Messages(fragments + [f]) == Messages(fragments);
  }

  lemma NoData()
    ensures Data([]) == []
  {
  }

  // ---- Any fragmentation --------------------------------------------------

  /** These fragments carry one message: only the last is marked so. */
  predicate Carries(fragments: seq<Fragment>, message: Bytes) {
    fragments != [] && Data(fragments) == message &&
    forall k :: 0 <= k < |fragments| ==> (fragments[k].last <==> k == |fragments| - 1)
  }

  function AllFragments(parts: seq<seq<Fragment>>): seq<Fragment> {
    if parts == [] then [] else AllFragments(parts[..|parts| - 1]) + parts[|parts| - 1]
  }

  lemma {:induction false} OneMessage(before: seq<Fragment>, part: seq<Fragment>)
    requires Unfinished(before) == [] && forall k :: 0 <= k < |part| ==> !part[k].last
    ensures Unfinished(before + part) == part && Messages(before + part) == Messages(before)
    decreases |part|
  {
    hide Unfinished, Messages;
    if part == [] {
      assert before + part == before;
    } else {
      var n := |part| - 1;
      OneMessage(before, part[..n]);
      assert before + part == before + part[..n] + [part[n]];
      UnfinishedWith(before + part[..n], part[n]);
      MessagesWith(before + part[..n], part[n]);
      assert part[..n] + [part[n]] == part;
    }
  }

  /** However messages are cut into fragments, they are what the fragments carry, in order. */
  lemma {:induction false} AnyFragmentation(parts: seq<seq<Fragment>>, messages: seq<Bytes>)
    requires |parts| == |messages| && forall k :: 0 <= k < |parts| ==> Carries(parts[k], messages[k])
    ensures Messages(AllFragments(parts)) == messages && Unfinished(AllFragments(parts)) == []
    decreases |parts|
  {
    hide Unfinished, Messages, Data;
    if parts == [] {
      NoFragments();
    } else {
      var n := |parts| - 1;
      var before, part := AllFragments(parts[..n]), parts[n];
      AnyFragmentation(parts[..n], messages[..n]);
      assert Carries(part, messages[n]);
      var m := |part| - 1;
      OneMessage(before, part[..m]);
      assert before + part == before + part[..m] + [part[m]];
      UnfinishedWith(before + part[..m], part[m]);
      MessagesWith(before + part[..m], part[m]);
      assert part == part[..m] + [part[m]];
      DataWith(part[..m], part[m]);
      assert messages == messages[..n] + [messages[n]];
    }
  }

  lemma NoFragments()
    ensures Messages([]) == [] && Unfinished([]) == []
  {
  }

  /** The messages a connection gives out of these fragments, and what it is left with. */
  function TakeAll(a: Assembly, fragments: seq<Fragment>): (Assembly, seq<Bytes>) {
    if fragments == [] then (a, [])
    else
      var n := |fragments| - 1;
      var (b, messages) := TakeAll(a, fragments[..n]);
      var (c, message) := Take(b, fragments[n]);
      (c, messages + if message.Some? then [message.value] else [])
  }

  lemma {:induction false} TakeAllIsFaithful(fragments: seq<Fragment>)
    ensures Holds(TakeAll(EMPTY_ASSEMBLY, fragments).0, fragments)
    ensures TakeAll(EMPTY_ASSEMBLY, fragments).1 == Fitting(Messages(fragments))
    decreases |fragments|
  {
    hide Take, Holds, Fitting, Messages;
    if fragments == [] {
      NothingHeld();
    } else {
      var n := |fragments| - 1;
      TakeAllIsFaithful(fragments[..n]);
      TakeIsFaithful(TakeAll(EMPTY_ASSEMBLY, fragments[..n]).0, fragments[..n], fragments[n]);
      assert fragments[..n] + [fragments[n]] == fragments;
    }
  }

  lemma NothingHeld()
    ensures Holds(EMPTY_ASSEMBLY, []) && Fitting(Messages([])) == []
  {
  }

  /** A message cut in any way comes out whole if it has at most 1600 octets, and not at all if it has more; either way
      nothing is left of it. */
  lemma OneMessageDelivered(part: seq<Fragment>, message: Bytes)
    requires Carries(part, message)
    ensures TakeAll(EMPTY_ASSEMBLY, part) == (EMPTY_ASSEMBLY, if |message| <= 1600 then [message] else [])
  {
    TakeAllIsFaithful(part);
    hide TakeAll, Messages, Unfinished;
    assert AllFragments([part]) == part by {
      assert [part][..0] == [] && AllFragments([part][..0]) == [];
    }
    AnyFragmentation([part], [message]);
    var none: seq<Bytes> := [];
    FittingWith(none, message);
    assert none + [message] == [message] && Fitting(none) == none;
    NoData();
    assert Holds(TakeAll(EMPTY_ASSEMBLY, part).0, part);
  }
}
