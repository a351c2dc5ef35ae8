/** What the frame decoder reports of a frame that ends too early: as far as each header reaches, and no further
    (common/CASExampleHelper.cpp). */
module BacnetCut {
  import opened Octets
  import opened BacnetFrame

  // ---- An APDU header -----------------------------------------------------

  /** Type and segmentation come from the first octet. The invoke ID of a request or a ComplexACK is there as soon as its
      octet is; of a short PDU either everything is reported or nothing. The service, error or reason ends the header, so
      a cut one has none. */
  lemma CutPdu(before: Bytes, p: Pdu, n: nat)
    requires p.Valid() && 1 <= n < |p.Encode()|
    ensures var invoked := (p.ConfirmedRequest? && n >= 3) || (p.ComplexAck? && n >= 2);
            ApduAt(before + p.Encode()[..n], |before|) ==
            p.Report(None).(serviceChoice := None, reason := None,
                            invokeId := if invoked then p.Report(None).invokeId else None)
  {
    hide ObjectPropertyAt;
    var e := p.Encode();
    var frame := before + e[..n];
    FirstOctet(p);
    assert frame[|before|] == e[0];
    assert n > 1 ==> frame[|before| + 1] == e[1];
    assert n > 2 ==> frame[|before| + 2] == e[2];
  }

  // ---- An NPDU header -----------------------------------------------------

  /** A specifier of which only `m` octets are there: its network, once network and length are. */
  function CutSpecifier(s: Specifier, m: nat): Specifier {
    Specifier(true, if m < 3 then 0 else s.net, [])
  }

  lemma SpecifierCut(frame: Bytes, s: Specifier, at: nat, m: nat)
    requires s.Valid() && m < |s.Encode()| && at + m == |frame| && OccursAt(frame, s.Encode()[..m], at)
    ensures SpecifierAt(frame, s.present, at) == (CutSpecifier(s, m), None)
  {
    var e := s.Encode();
    if m >= 3 {
      assert frame[at + 0] == e[..m][0] && frame[at + 1] == e[..m][1] && frame[at + 2] == e[..m][2];
    }
  }

  /** What is reported of the first `k` octets of an NPDU header. */
  function CutReport(n: Npdu, k: nat): DecodedFrame
    requires n.Valid()
  {
    var s := |n.Start()|;
    var d := s + |n.dest.Encode()|;
    if k < 4 then EMPTY
    else if k < s then EMPTY.(bacnetIp := true, bvlcFunction := n.bvlcFunction)
    else
      var report := DecodedFrame(true, n.bvlcFunction, true, n.version, n.Control(), n.dest, n.src, n.isNetworkMessage,
                                 0, NO_APDU);
      if k < d then report.(dest := CutSpecifier(n.dest, k - s), src := NO_SPECIFIER.(present := n.src.present))
      else if k < d + |n.src.Encode()| then report.(src := CutSpecifier(n.src, k - d))
      else report
  }

  lemma TakeOfTwo<T>(a: seq<T>, b: seq<T>, k: nat)
    requires k <= |a| + |b|
    ensures (a + b)[..k] == if k <= |a| then a[..k] else a + b[..k - |a|]
  {
  }

  /** The decoder reports an NPDU header that is cut anywhere as far as it reaches. */
  lemma CutNpdu(n: Npdu, k: nat)
    requires n.Valid() && k < |n.Encode()|
    ensures Decoded(n.Encode()[..k]) == CutReport(n, k)
  {
    hide SpecifierAt, Npdu.Control, Specifier.Encode, OccursAt, WithNpdu;
    var start, dest, src := n.Start(), n.dest.Encode(), n.src.Encode();
    var hop: Bytes := if n.dest.present then [n.hopCount] else [];
    TakeOfTwo(start + dest + src, hop, k);
    StartLength(n);
    if k < |start| {
      TakeOfTwo(start + dest, src, k);
      TakeOfTwo(start, dest, k);
      CutStart(n, k);
    } else {
      hide Npdu.Start, Npdu.Encode;
      CutBehindStart(n, k);
    }
  }

  lemma StartLength(n: Npdu)
    requires n.Valid()
    ensures |n.Start()| >= 6
  {
    hide Npdu.Control;
  }

  lemma CutStart(n: Npdu, k: nat)
    requires n.Valid() && k < |n.Start()|
    ensures Decoded(n.Start()[..k]) ==
            if k < 4 then EMPTY else EMPTY.(bacnetIp := true, bvlcFunction := n.bvlcFunction)
  {
    hide WithNpdu, Npdu.Control;
  }

  lemma CutBehindStart(n: Npdu, k: nat)
    requires n.Valid() && |n.Start()| <= k < |n.Encode()|
    ensures Decoded(n.Encode()[..k]) == CutReport(n, k)
  {
    var start, dest, src := n.Start(), n.dest.Encode(), n.src.Encode();
    var hop: Bytes := if n.dest.present then [n.hopCount] else [];
    assert n.Encode() == start + dest + src + hop;
    StartLength(n);
    var frame := n.Encode()[..k];
    FoursParts(start, dest, src, hop, k);
    hide Npdu.Start, Specifier.Encode, Decoded, Npdu.Encode, CutReport, OccursAt;
    if k < |start| + |dest| {
      DestCut(n, frame, k - |start|);
    } else if k < |start| + |dest| + |src| {
      SrcCut(n, frame, k - |start| - |dest|);
    } else {
      BodyCut(n, frame);
    }
  }

  /** The parts that stand in the first `k` elements of four sequences. */
  lemma FoursParts<T>(a: seq<T>, b: seq<T>, c: seq<T>, d: seq<T>, k: nat)
    requires |a| <= k <= |a| + |b| + |c| + |d|
    ensures var t := (a + b + c + d)[..k];
            OccursAt(t, a, 0) &&
            (if k < |a| + |b| then OccursAt(t, b[..k - |a|], |a|) else OccursAt(t, b, |a|)) &&
            (k >= |a| + |b| ==>
               if k < |a| + |b| + |c| then OccursAt(t, c[..k - |a| - |b|], |a| + |b|) else OccursAt(t, c, |a| + |b|))
  {
  }

  /** The frame ends within the destination, ... */
  lemma DestCut(n: Npdu, frame: Bytes, m: nat)
    requires n.Valid() && m < |n.dest.Encode()| && |n.Start()| >= 6 && |frame| == |n.Start()| + m
    requires OccursAt(frame, n.Start(), 0) && OccursAt(frame, n.dest.Encode()[..m], |n.Start()|)
    ensures Decoded(frame) == CutReport(n, |n.Start()| + m)
  {
    hide SpecifierAt, Npdu.Start, Npdu.Control, Specifier.Encode, OccursAt, WithNpdu, Bit, Decoded;
    StartRead(frame, n);
    SpecifierCut(frame, n.dest, |n.Start()|, m);
    CutInDest(frame, |n.Start()| - 2, n.dest.present, n.src.present, CutSpecifier(n.dest, m));
  }

  /** ... within the source, ... */
  lemma SrcCut(n: Npdu, frame: Bytes, m: nat)
    requires n.Valid() && m < |n.src.Encode()| && |n.Start()| >= 6
    requires |frame| == |n.Start()| + |n.dest.Encode()| + m
    requires OccursAt(frame, n.Start(), 0) && OccursAt(frame, n.dest.Encode(), |n.Start()|)
    requires OccursAt(frame, n.src.Encode()[..m], |n.Start()| + |n.dest.Encode()|)
    ensures Decoded(frame) == CutReport(n, |n.Start()| + |n.dest.Encode()| + m)
  {
    hide SpecifierAt, Npdu.Start, Npdu.Control, Specifier.Encode, OccursAt, WithNpdu, Bit, Decoded;
    StartRead(frame, n);
    SpecifierRead(frame, n.dest, |n.Start()|);
    SpecifierCut(frame, n.src, |n.Start()| + |n.dest.Encode()|, m);
    CutInSrc(frame, |n.Start()| - 2, n.dest, |n.Start()| + |n.dest.Encode()|, CutSpecifier(n.src, m));
  }

  /** ... or before the hop count. */
  lemma BodyCut(n: Npdu, frame: Bytes)
    requires n.Valid() && |n.Start()| >= 6 && |frame| == |n.Start()| + |n.dest.Encode()| + |n.src.Encode()|
    requires OccursAt(frame, n.Start(), 0) && OccursAt(frame, n.dest.Encode(), |n.Start()|)
    requires OccursAt(frame, n.src.Encode(), |n.Start()| + |n.dest.Encode()|)
    ensures Decoded(frame) == CutReport(n, |frame|)
  {
    hide SpecifierAt, Npdu.Start, Npdu.Control, Specifier.Encode, OccursAt, WithNpdu, Bit, Decoded;
    StartRead(frame, n);
    SpecifierRead(frame, n.dest, |n.Start()|);
    SpecifierRead(frame, n.src, |n.Start()| + |n.dest.Encode()|);
    BodyRead(frame, |n.Start()| - 2, n.dest, |n.Start()| + |n.dest.Encode()|, n.src, |frame|);
  }

  lemma CutInDest(frame: Bytes, at: nat, dest: bool, src: bool, cut: Specifier)
    requires |frame| >= 4 && frame[0] == 0x81 && NpduOffset(frame[1]) == Some(at) && at + 2 <= |frame|
    requires Bit(frame[at + 1], 0x20) == dest && Bit(frame[at + 1], 0x08) == src
    requires SpecifierAt(frame, dest, at + 2) == (cut, None)
    ensures Decoded(frame) ==
            DecodedFrame(true, frame[1], true, frame[at], frame[at + 1], cut, NO_SPECIFIER.(present := src),
                         Bit(frame[at + 1], 0x80), 0, NO_APDU)
  {
    hide SpecifierAt, Bit, ApduAt, NpduOffset;
  }

  lemma CutInSrc(frame: Bytes, at: nat, dest: Specifier, destEnd: nat, cut: Specifier)
    requires |frame| >= 4 && frame[0] == 0x81 && NpduOffset(frame[1]) == Some(at) && at + 2 <= |frame|
    requires destEnd <= |frame| && SpecifierAt(frame, Bit(frame[at + 1], 0x20), at + 2) == (dest, Some(destEnd))
    requires SpecifierAt(frame, Bit(frame[at + 1], 0x08), destEnd) == (cut, None)
    ensures Decoded(frame) ==
            DecodedFrame(true, frame[1], true, frame[at], frame[at + 1], dest, cut, Bit(frame[at + 1], 0x80), 0, NO_APDU)
  {
    hide SpecifierAt, Bit, ApduAt, NpduOffset;
  }
}
