/** The one-pass BACnet/IP frame decoder and the independent test for answers the stack addresses itself
    (common/CASExampleHelper.cpp, sc_transport/ScTransportRouter.cpp). */
module BacnetFrame {
  import opened Octets
  import opened BacnetTag

  datatype ObjectProperty =
    ObjectProperty(objectType: nat, objectInstance: nat, propertyId: nat, arrayIndex: Option<nat>)

  /** An address specifier: network and address, as far as they were decoded. */
  datatype Specifier = Specifier(present: bool, net: nat, adr: Bytes) {
    predicate Valid() {
      net < 0x10000 && |adr| < 0x100 && (!present ==> this == NO_SPECIFIER)
    }

    function Encode(): Bytes
      requires Valid()
    {
      if present then [net / 0x100, net % 0x100, |adr|] + adr else []
    }
  }

  datatype Apdu = Apdu(present: bool, pduType: byte, segmented: bool, invokeId: Option<byte>,
                       serviceChoice: Option<byte>, reason: Option<byte>, objectProperty: Option<ObjectProperty>)

  datatype DecodedFrame = DecodedFrame(
    bacnetIp: bool, bvlcFunction: byte, hasNpdu: bool, npduVersion: byte, npduControl: byte, dest: Specifier,
    src: Specifier, isNetworkMessage: bool, networkMessageType: byte, apdu: Apdu)

  const NO_SPECIFIER := Specifier(false, 0, [])
  const NO_APDU := Apdu(false, 0xFF, false, None, None, None, None)
  const EMPTY := DecodedFrame(false, 0, false, 0, 0, NO_SPECIFIER, NO_SPECIFIER, false, 0, NO_APDU)

  // ---- Object and property ------------------------------------------------

  function BigEndian(octets: Bytes): nat {
    if octets == [] then 0 else BigEndian(octets[..|octets| - 1]) * 0x100 + octets[|octets| - 1] as int
  }

  /** A context tag with this number and 1 to 4 octets of value, all within the frame: the value and its end. */
  function UnsignedAt(frame: Bytes, pos: nat, number: byte): (r: Option<(nat, nat)>)
    ensures r.Some? ==> pos <= r.value.1 <= |frame|
  {
    var tag := TagAt(frame, pos);
    if tag.None? || !tag.value.contextSpecific || tag.value.tagNumber != number || tag.value.length == 0 ||
       tag.value.length > 4 || pos + tag.value.headerLength + tag.value.length > |frame| then None
    else
      var at, end := pos + tag.value.headerLength, pos + tag.value.headerLength + tag.value.length;
      Some((BigEndian(frame[at..end]), end))
  }

  /** A context tag 0 with the 4 octets of an object identifier: its value and its end. */
  function ObjectAt(frame: Bytes, offset: nat): (r: Option<(nat, nat)>) {
    var tag := TagAt(frame, offset);
    if tag.None? || !tag.value.contextSpecific || tag.value.tagNumber != 0 || tag.value.length != 4 ||
       offset + tag.value.headerLength + 4 > |frame| then None
    else Some((U32(frame, offset + tag.value.headerLength), offset + tag.value.headerLength + 4))
  }

  function ObjectPropertyAt(frame: Bytes, offset: nat): Option<ObjectProperty> {
    var id := ObjectAt(frame, offset);
    if id.None? then None
    else
      var property := UnsignedAt(frame, id.value.1, 1);
      if property.None? then None
      else
        var index := UnsignedAt(frame, property.value.1, 2);
        Some(ObjectProperty(id.value.0 / 0x400000, id.value.0 % 0x400000, property.value.0,
                            if index.None? then None else Some(index.value.0)))
  }

  /** Reads `length` octets as the decoder's loops do, most significant first. */
  method ReadUnsigned(frame: Bytes, pos: nat, length: nat) returns (v: nat)
    requires pos + length <= |frame|
    ensures v == BigEndian(frame[pos..pos + length])
  {
    v := 0;
    for i := 0 to length
      invariant v == BigEndian(frame[pos..pos + i])
    {
      assert frame[pos..pos + i + 1][..i] == frame[pos..pos + i];
      v := v * 0x100 + frame[pos + i] as int;
    }
  }

  /** The part of the decoder that reads a context-tagged property identifier or array index. */
  method DecodeUnsigned(frame: Bytes, pos: nat, number: byte) returns (r: Option<(nat, nat)>)
    ensures r == UnsignedAt(frame, pos, number)
  {
    var tag := DecodeTagHeader(frame, pos);
    if tag.None? || !tag.value.contextSpecific || tag.value.tagNumber != number || tag.value.length == 0 ||
       tag.value.length > 4 || pos + tag.value.headerLength + tag.value.length > |frame| {
      return None;
    }
    var at := pos + tag.value.headerLength;
    var v := ReadUnsigned(frame, at, tag.value.length);
    return Some((v, at + tag.value.length));
  }

  method DecodeObjectAndProperty(frame: Bytes, offset: nat, was: Apdu) returns (out: Apdu)
    ensures out == match ObjectPropertyAt(frame, offset)
                   case None => was
                   case Some(o) => was.(objectProperty := Some(o))
  {
    out := was;
    var tag := DecodeTagHeader(frame, offset);
    if tag.None? || !tag.value.contextSpecific || tag.value.tagNumber != 0 || tag.value.length != 4 ||
       offset + tag.value.headerLength + 4 > |frame| {
      return;
    }
    var id := U32(frame, offset + tag.value.headerLength);
    var pos := offset + tag.value.headerLength + 4;
    assert ObjectAt(frame, offset) == Some((id, pos));
    var property := DecodeUnsigned(frame, pos, 1);
    if property.None? {
      return;
    }
    var found := ObjectProperty(id / 0x400000, id % 0x400000, property.value.0, None);
    var index := DecodeUnsigned(frame, property.value.1, 2);
    if index.Some? {
      found := found.(arrayIndex := Some(index.value.0));
    }
    out := out.(objectProperty := Some(found));
  }

  function Power256(n: nat): nat {
    if n == 0 then 1 else 0x100 * Power256(n - 1)
  }

  function UnsignedOctets(v: nat, n: nat): (r: Bytes)
    requires v < Power256(n)
    ensures |r| == n
  {
    if n == 0 then [] else UnsignedOctets(v / 0x100, n - 1) + [v % 0x100]
  }

  lemma {:induction false} BigEndianOfOctets(v: nat, n: nat)
    requires v < Power256(n)
    ensures BigEndian(UnsignedOctets(v, n)) == v
  {
    if n > 0 {
      var r := UnsignedOctets(v, n);
      assert r[..n - 1] == UnsignedOctets(v / 0x100, n - 1);
      BigEndianOfOctets(v / 0x100, n - 1);
    }
  }

  /** The header of a context tag with a value of `length` octets, in form `f`. */
  function ContextTag(number: byte, length: nat, f: Form): (h: TagHeader)
    requires Fits(TagHeader(number, true, false, false, length, 0), f)
    ensures Fits(h, f) && h.headerLength == |EncodeTag(h, f)|
  {
    var h := TagHeader(number, true, false, false, length, 0);
    h.(headerLength := |EncodeTag(h, f)|)
  }

  predicate FormFor(number: byte, length: nat, f: Form) {
    Fits(TagHeader(number, true, false, false, length, 0), f)
  }

  /** A context-tagged unsigned value written in `n` octets. */
  function EncodeUnsigned(number: byte, v: nat, n: nat, f: Form): Bytes
    requires v < Power256(n) && FormFor(number, n, f)
  {
    EncodeTag(ContextTag(number, n, f), f) + UnsignedOctets(v, n)
  }

  /** How an object, a property and an array index are written: the tag forms, and how many octets the values take. */
  datatype TripleForm = TripleForm(objectTag: Form, property: Form, propertyOctets: nat, index: Form, indexOctets: nat)

  predicate TripleFits(t: ObjectProperty, w: TripleForm) {
    t.objectType < 0x400 && t.objectInstance < 0x400000 && FormFor(0, 4, w.objectTag) &&
    1 <= w.propertyOctets <= 4 && t.propertyId < Power256(w.propertyOctets) &&
    FormFor(1, w.propertyOctets, w.property) &&
    (t.arrayIndex.Some? ==>
       1 <= w.indexOctets <= 4 && t.arrayIndex.value < Power256(w.indexOctets) && FormFor(2, w.indexOctets, w.index))
  }

  function EncodeObject(t: ObjectProperty, w: TripleForm): Bytes
    requires TripleFits(t, w)
  {
    var v := t.objectType * 0x400000 + t.objectInstance;
    EncodeTag(ContextTag(0, 4, w.objectTag), w.objectTag) +
    [v / 0x1000000, v / 0x10000 % 0x100, v / 0x100 % 0x100, v % 0x100]
  }

  function EncodeTriple(t: ObjectProperty, w: TripleForm): Bytes
    requires TripleFits(t, w)
  {
    EncodeObject(t, w) + EncodeProperty(t, w) + EncodeIndex(t, w)
  }

  function EncodeProperty(t: ObjectProperty, w: TripleForm): Bytes
    requires TripleFits(t, w)
  {
    EncodeUnsigned(1, t.propertyId, w.propertyOctets, w.property)
  }

  function EncodeIndex(t: ObjectProperty, w: TripleForm): Bytes
    requires TripleFits(t, w)
  {
    if t.arrayIndex.None? then [] else EncodeUnsigned(2, t.arrayIndex.value, w.indexOctets, w.index)
  }

  lemma UnsignedRead(frame: Bytes, pos: nat, number: byte, v: nat, n: nat, f: Form)
    requires v < Power256(n) && 1 <= n <= 4 && FormFor(number, n, f)
    requires OccursAt(frame, EncodeUnsigned(number, v, n, f), pos)
    ensures UnsignedAt(frame, pos, number) == Some((v, pos + |EncodeUnsigned(number, v, n, f)|))
  {
    var h, octets := ContextTag(number, n, f), UnsignedOctets(v, n);
    OccursSplit(frame, EncodeTag(h, f), octets, pos);
    TagRead(frame, pos, h, f);
    ValueRead(frame, pos, number, h, v, n);
  }

  lemma ValueRead(frame: Bytes, pos: nat, number: byte, h: TagHeader, v: nat, n: nat)
    requires v < Power256(n) && 1 <= n <= 4 && TagAt(frame, pos) == Some(h)
    requires h.contextSpecific && h.tagNumber == number && h.length == n
    requires OccursAt(frame, UnsignedOctets(v, n), pos + h.headerLength)
    ensures UnsignedAt(frame, pos, number) == Some((v, pos + h.headerLength + n))
  {
    hide TagAt, BigEndian, UnsignedOctets, OccursAt;
    OccursSlice(frame, UnsignedOctets(v, n), pos + h.headerLength);
    BigEndianOfOctets(v, n);
  }

  lemma ObjectRead(frame: Bytes, offset: nat, t: ObjectProperty, w: TripleForm)
    requires TripleFits(t, w) && OccursAt(frame, EncodeObject(t, w), offset)
    ensures ObjectAt(frame, offset) == Some((t.objectType * 0x400000 + t.objectInstance, offset + |EncodeObject(t, w)|))
  {
    hide EncodeTag, TagAt;
    var h, v := ContextTag(0, 4, w.objectTag), t.objectType * 0x400000 + t.objectInstance;
    var octets := [v / 0x1000000, v / 0x10000 % 0x100, v / 0x100 % 0x100, v % 0x100];
    OccursSplit(frame, EncodeTag(h, w.objectTag), octets, offset);
    TagRead(frame, offset, h, w.objectTag);
    IdRead(frame, offset + h.headerLength, v, octets);
  }

  lemma IdRead(frame: Bytes, at: nat, v: nat, octets: Bytes)
    requires v < 0x1_0000_0000 && octets == [v / 0x1000000, v / 0x10000 % 0x100, v / 0x100 % 0x100, v % 0x100]
    requires OccursAt(frame, octets, at)
    ensures U32(frame, at) == v
  {
    assert frame[at + 0] == octets[0] && frame[at + 1] == octets[1] && frame[at + 2] == octets[2] &&
           frame[at + 3] == octets[3];
    U32Read(frame, at, v);
  }

  lemma SplitId(objectType: nat, objectInstance: nat)
    requires objectInstance < 0x400000
    ensures (objectType * 0x400000 + objectInstance) / 0x400000 == objectType
    ensures (objectType * 0x400000 + objectInstance) % 0x400000 == objectInstance
  {
  }

  /** Every object, property and optional array index that is written, in whatever forms, is read back; without an
      index, exactly unless a context tag 2 with a value follows, which is then taken for the index. */
  lemma TripleRead(frame: Bytes, offset: nat, t: ObjectProperty, w: TripleForm)
    requires TripleFits(t, w) && OccursAt(frame, EncodeTriple(t, w), offset)
    ensures var next := UnsignedAt(frame, offset + |EncodeTriple(t, w)|, 2);
            (ObjectPropertyAt(frame, offset) == Some(t) <==> t.arrayIndex.Some? || next.None?) &&
            (t.arrayIndex.None? && next.Some? ==>
               ObjectPropertyAt(frame, offset) == Some(t.(arrayIndex := Some(next.value.0))))
  {
    hide ObjectAt, UnsignedAt, EncodeUnsigned, EncodeObject;
    var a, b, c := EncodeObject(t, w), EncodeProperty(t, w), EncodeIndex(t, w);
    OccursThree(frame, a, b, c, offset);
    ObjectRead(frame, offset, t, w);
    UnsignedRead(frame, offset + |a|, 1, t.propertyId, w.propertyOctets, w.property);
    if t.arrayIndex.Some? {
      UnsignedRead(frame, offset + |a| + |b|, 2, t.arrayIndex.value, w.indexOctets, w.index);
    }
    PartsRead(frame, offset, offset + |a|, offset + |a| + |b|, t);
  }

  lemma OccursThree(frame: Bytes, a: Bytes, b: Bytes, c: Bytes, at: nat)
    requires OccursAt(frame, a + b + c, at)
    ensures OccursAt(frame, a, at) && OccursAt(frame, b, at + |a|) && OccursAt(frame, c, at + |a| + |b|)
  {
    OccursSplit(frame, a + b, c, at);
    OccursSplit(frame, a, b, at);
  }

  lemma PartsRead(frame: Bytes, offset: nat, pos: nat, end: nat, t: ObjectProperty)
    requires t.objectInstance < 0x400000
    requires ObjectAt(frame, offset) == Some((t.objectType * 0x400000 + t.objectInstance, pos))
    requires UnsignedAt(frame, pos, 1) == Some((t.propertyId, end))
    ensures var index := UnsignedAt(frame, end, 2);
            ObjectPropertyAt(frame, offset) ==
            Some(t.(arrayIndex := if index.None? then None else Some(index.value.0)))
  {
    SplitId(t.objectType, t.objectInstance);
  }

  // ---- The frame decoder --------------------------------------------------

  /** Where the NPDU of a BVLC function starts; None for a control message. */
  function NpduOffset(bvlcFunction: byte): Option<nat> {
    if bvlcFunction == 0x0A || bvlcFunction == 0x0B then Some(4)  // Original-Unicast-NPDU, Original-Broadcast-NPDU
    else if bvlcFunction == 0x04 then Some(10)                     // Forwarded-NPDU
    else None
  }

  /** An address specifier as far as it is there, and where it ends if all of it is. */
  function SpecifierAt(frame: Bytes, present: bool, offset: nat): (r: (Specifier, Option<nat>))
    requires offset <= |frame|
    ensures r.1.Some? ==> offset <= r.1.value <= |frame|
  {
    if !present then (NO_SPECIFIER, Some(offset))
    else if offset + 3 > |frame| then (Specifier(true, 0, []), None)
    else
      var end := offset + 3 + frame[offset + 2] as int;
      if end > |frame| then (Specifier(true, U16(frame, offset), []), None)
      else (Specifier(true, U16(frame, offset), frame[offset + 3..end]), Some(end))
  }

  function WithService(frame: Bytes, a: Apdu, at: nat, hasObject: set<int>): Apdu {
    if at >= |frame| then a
    else
      var a1 := a.(serviceChoice := Some(frame[at]));
      if frame[at] as int !in hasObject then a1
      else
        match ObjectPropertyAt(frame, at + 1)
        case None => a1
        case Some(o) => a1.(objectProperty := Some(o))
  }

  function ApduAt(frame: Bytes, offset: nat): Apdu
    requires offset < |frame|
  {
    var kind := frame[offset] / 16;
    var segmented := Bit(frame[offset], 0x08);
    var a := NO_APDU.(present := true, pduType := kind);
    if kind == 0 then  // Confirmed-Request
      var a1 := a.(segmented := segmented);
      if offset + 2 >= |frame| then a1
      else WithService(frame, a1.(invokeId := Some(frame[offset + 2])), offset + (if segmented then 5 else 3), {12, 15})
    else if kind == 1 then  // Unconfirmed-Request
      WithService(frame, a, offset + 1, {})
    else if kind == 3 then  // ComplexACK
      var a1 := a.(segmented := segmented);
      if offset + 1 >= |frame| then a1
      else WithService(frame, a1.(invokeId := Some(frame[offset + 1])), offset + (if segmented then 4 else 2), {12})
    else if kind == 4 || kind > 7 || offset + 2 >= |frame| then a
    else
      var a1 := a.(invokeId := Some(frame[offset + 1]));
      if kind == 2 || kind == 5 then a1.(serviceChoice := Some(frame[offset + 2]))  // SimpleACK, Error
      else a1.(reason := Some(frame[offset + 2]))                                   // Reject, Abort
  }

  /** The NPDU at `at`: its control octet says which specifiers there are, and whether a network layer message or an
      APDU follows. The hop count is there whenever the destination is. */
  function WithNpdu(frame: Bytes, d: DecodedFrame, at: nat): DecodedFrame
    requires at + 2 <= |frame|
  {
    var control := frame[at + 1];
    var hasDest, hasSrc, network := Bit(control, 0x20), Bit(control, 0x08), Bit(control, 0x80);
    var d0 := d.(hasNpdu := true, npduVersion := frame[at], npduControl := control, isNetworkMessage := network);
    var (dest, destEnd) := SpecifierAt(frame, hasDest, at + 2);
    if destEnd.None? then d0.(dest := dest, src := NO_SPECIFIER.(present := hasSrc))
    else
      var (src, srcEnd) := SpecifierAt(frame, hasSrc, destEnd.value);
      var d1 := d0.(dest := dest, src := src);
      if srcEnd.None? then d1
      else
        var body := srcEnd.value + if hasDest then 1 else 0;
        if body >= |frame| then d1
        else if network then d1.(networkMessageType := frame[body])
        else d1.(apdu := ApduAt(frame, body))
  }

  function Decoded(frame: Bytes): DecodedFrame {
    if |frame| < 4 || frame[0] != 0x81 then EMPTY
    else
      var d := EMPTY.(bacnetIp := true, bvlcFunction := frame[1]);
      var at := NpduOffset(frame[1]);
      if at.None? || at.value + 2 > |frame| then d else WithNpdu(frame, d, at.value)
  }

  method DecodeBacnetFrame(frame: Bytes) returns (out: DecodedFrame)
    ensures out == Decoded(frame)
  {
    hide WithNpdu;
    out := EMPTY;
    if |frame| < 4 || frame[0] != 0x81 {
      return;
    }
    out := out.(bacnetIp := true, bvlcFunction := frame[1]);
    var offset: nat;
    match frame[1] {
      case 0x0A => offset := 4;
      case 0x0B => offset := 4;
      case 0x04 => offset := 10;
      case _ => return;
    }
    if offset + 2 > |frame| {
      return;
    }
    out := DecodeNpdu(frame, out, offset);
  }

  /** The rest of the walk, from the NPDU on. */
  method DecodeNpdu(frame: Bytes, was: DecodedFrame, at: nat) returns (out: DecodedFrame)
    requires at + 2 <= |frame| && was.dest == NO_SPECIFIER && was.src == NO_SPECIFIER
    ensures out == WithNpdu(frame, was, at)
  {
    hide ApduAt, ObjectPropertyAt;
    var offset := at;
    var control := frame[offset + 1];
    out := was.(hasNpdu := true, npduVersion := frame[offset], npduControl := control,
                isNetworkMessage := Bit(control, 0x80), dest := was.dest.(present := Bit(control, 0x20)),
                src := was.src.(present := Bit(control, 0x08)));
    offset := offset + 2;
    var ok: bool;
    if out.dest.present {
      var dest;
      dest, ok, offset := DecodeSpecifier(frame, offset);
      out := out.(dest := dest);
      if !ok {
        return;
      }
    }
    if out.src.present {
      var src;
      src, ok, offset := DecodeSpecifier(frame, offset);
      out := out.(src := src);
      if !ok {
        return;
      }
    }
    if out.dest.present {
      if offset >= |frame| {
        return;
      }
      offset := offset + 1;
    }
    if offset >= |frame| {
      return;
    }
    if out.isNetworkMessage {
      out := out.(networkMessageType := frame[offset]);
      return;
    }
    var apdu := DecodeApdu(frame, offset);
    out := out.(apdu := apdu);
  }

  /** Network, length and address, each only if it is within the frame. */
  method DecodeSpecifier(frame: Bytes, offset: nat) returns (s: Specifier, ok: bool, next: nat)
    requires offset <= |frame|
    ensures (s, if ok then Some(next) else None) == SpecifierAt(frame, true, offset)
  {
    s, ok, next := Specifier(true, 0, []), false, offset;
    if next + 3 > |frame| {
      return;
    }
    s := s.(net := U16(frame, next));
    var len: nat := frame[next + 2];
    next := next + 3;
    if next + len > |frame| {
      return;
    }
    s := s.(adr := frame[next..next + len]);
    next := next + len;
    ok := true;
  }

  /** The switch over the PDU type. */
  method DecodeApdu(frame: Bytes, offset: nat) returns (out: Apdu)
    requires offset < |frame|
    ensures out == ApduAt(frame, offset)
  {
    hide ObjectPropertyAt;
    var pduType: byte := frame[offset] / 16;
    out := NO_APDU.(present := true, pduType := pduType);
    match pduType {
      case 0 =>
        out := out.(segmented := Bit(frame[offset], 0x08));
        if offset + 2 >= |frame| {
          return;
        }
        out := out.(invokeId := Some(frame[offset + 2]));
        out := DecodeService(frame, out, offset + if out.segmented then 5 else 3, {12, 15});
      case 1 =>
        if offset + 1 >= |frame| {
          return;
        }
        out := out.(serviceChoice := Some(frame[offset + 1]));
      case 2 =>
        if offset + 2 >= |frame| {
          return;
        }
        out := out.(invokeId := Some(frame[offset + 1]), serviceChoice := Some(frame[offset + 2]));
      case 3 =>
        out := out.(segmented := Bit(frame[offset], 0x08));
        if offset + 1 >= |frame| {
          return;
        }
        out := out.(invokeId := Some(frame[offset + 1]));
        out := DecodeService(frame, out, offset + if out.segmented then 4 else 2, {12});
      case 5 =>
        if offset + 2 >= |frame| {
          return;
        }
        out := out.(invokeId := Some(frame[offset + 1]), serviceChoice := Some(frame[offset + 2]));
      case 6 =>
        if offset + 2 >= |frame| {
          return;
        }
        out := out.(invokeId := Some(frame[offset + 1]), reason := Some(frame[offset + 2]));
      case 7 =>
        if offset + 2 >= |frame| {
          return;
        }
        out := out.(invokeId := Some(frame[offset + 1]), reason := Some(frame[offset + 2]));
      case _ =>
    }
  }

  /** The service choice at `at`, and for the services in `hasObject` the object and property behind it. */
  method DecodeService(frame: Bytes, was: Apdu, at: nat, hasObject: set<int>) returns (out: Apdu)
    ensures out == WithService(frame, was, at, hasObject)
  {
    hide ObjectPropertyAt;
    out := was;
    if at >= |frame| {
      return;
    }
    out := out.(serviceChoice := Some(frame[at]));
    if frame[at] as int in hasObject {
      out := DecodeObjectAndProperty(frame, at + 1, out);
    }
  }

  // ---- Decoding undoes encoding -------------------------------------------

  /** The parts of an NPDU in a BACnet/IP frame; `otherBits` are the control bits that announce nothing. */
  datatype Npdu = Npdu(bvlcFunction: byte, length: Bytes, origin: Bytes, version: byte, otherBits: nat,
                       dest: Specifier, src: Specifier, hopCount: byte, isNetworkMessage: bool) {
    predicate Valid() {
      |length| == 2 && otherBits in {0, 1, 2, 3, 4, 5, 6, 7, 16, 17, 18, 19, 20, 21, 22, 23} && dest.Valid() && src.Valid() &&
      match bvlcFunction
      case 0x0A => origin == []
      case 0x0B => origin == []
      case 0x04 => |origin| == 6
      case _ => false
    }

    function Control(): byte
      requires Valid()
    {
      otherBits + (if isNetworkMessage then 0x80 else 0) + (if dest.present then 0x20 else 0) +
      (if src.present then 0x08 else 0)
    }

    function Start(): Bytes
      requires Valid()
    {
      [0x81, bvlcFunction] + length + origin + [version, Control()]
    }

    function Encode(): Bytes
      requires Valid()
    {
      Start() + dest.Encode() + src.Encode() + if dest.present then [hopCount] else []
    }
  }

  /** Every frame whose NPDU header is encoded is decoded to that header, and the body, if any, read right behind it. */
  lemma NpduRead(frame: Bytes, n: Npdu)
    requires n.Valid() && OccursAt(frame, n.Encode(), 0)
    ensures var d := DecodedFrame(true, n.bvlcFunction, true, n.version, n.Control(), n.dest, n.src, n.isNetworkMessage,
                                  0, NO_APDU);
            |n.Encode()| <= |frame| &&
            Decoded(frame) == if |n.Encode()| == |frame| then d
                              else if n.isNetworkMessage then d.(networkMessageType := frame[|n.Encode()|])
                              else d.(apdu := ApduAt(frame, |n.Encode()|))
  {
    hide ApduAt, SpecifierAt, WithNpdu, Bit, NpduOffset, Npdu.Encode, Npdu.Start, Npdu.Control, Specifier.Encode,
      OccursAt;
    SpecifiersRead(frame, n);
    var at := NpduOffset(n.bvlcFunction).value;
    var destEnd := at + 2 + |n.dest.Encode()|;
    BodyRead(frame, at, n.dest, destEnd, n.src, destEnd + |n.src.Encode()|);
  }

  /** With both specifiers found, the body is what is behind them and the hop count. */
  lemma BodyRead(frame: Bytes, at: nat, dest: Specifier, destEnd: nat, src: Specifier, srcEnd: nat)
    requires |frame| >= 4 && frame[0] == 0x81 && NpduOffset(frame[1]) == Some(at) && at + 2 <= |frame|
    requires destEnd <= |frame|
    requires SpecifierAt(frame, Bit(frame[at + 1], 0x20), at + 2) == (dest, Some(destEnd))
    requires SpecifierAt(frame, Bit(frame[at + 1], 0x08), destEnd) == (src, Some(srcEnd))
    ensures var network := Bit(frame[at + 1], 0x80);
            var body := srcEnd + if Bit(frame[at + 1], 0x20) then 1 else 0;
            var d := DecodedFrame(true, frame[1], true, frame[at], frame[at + 1], dest, src, network, 0, NO_APDU);
            Decoded(frame) == if body >= |frame| then d
                              else if network then d.(networkMessageType := frame[body])
                              else d.(apdu := ApduAt(frame, body))
  {
    hide ApduAt, SpecifierAt, Bit, NpduOffset;
  }

  /** The start of the header and both specifiers are found where they were put, and end where the body begins. */
  lemma SpecifiersRead(frame: Bytes, n: Npdu)
    requires n.Valid() && OccursAt(frame, n.Encode(), 0)
    ensures |frame| >= 6 && frame[0] == 0x81 && frame[1] == n.bvlcFunction && NpduOffset(n.bvlcFunction).Some?
    ensures var at := NpduOffset(n.bvlcFunction).value;
            at + 2 <= |frame| && frame[at] == n.version && frame[at + 1] == n.Control() &&
            Bit(n.Control(), 0x20) == n.dest.present && Bit(n.Control(), 0x08) == n.src.present &&
            Bit(n.Control(), 0x80) == n.isNetworkMessage &&
            var destEnd := at + 2 + |n.dest.Encode()|;
            var srcEnd := destEnd + |n.src.Encode()|;
            SpecifierAt(frame, n.dest.present, at + 2) == (n.dest, Some(destEnd)) && destEnd <= |frame| &&
            SpecifierAt(frame, n.src.present, destEnd) == (n.src, Some(srcEnd)) &&
            |n.Encode()| == srcEnd + (if n.dest.present then 1 else 0) <= |frame|
  {
    hide SpecifierAt, Npdu.Start, Npdu.Control, Specifier.Encode, OccursAt;
    OccursWithin(frame, n.Encode(), 0);
    var start, dest, src := n.Start(), n.dest.Encode(), n.src.Encode();
    var hop := if n.dest.present then [n.hopCount] else [];
    OccursSplit(frame, start + dest + src, hop, 0);
    OccursThree(frame, start, dest, src, 0);
    StartRead(frame, n);
    SpecifierRead(frame, n.dest, |start|);
    SpecifierRead(frame, n.src, |start| + |dest|);
  }

  lemma StartRead(frame: Bytes, n: Npdu)
    requires n.Valid() && OccursAt(frame, n.Start(), 0)
    ensures |frame| >= |n.Start()| >= 6 && frame[0] == 0x81 && frame[1] == n.bvlcFunction
    ensures var at := |n.Start()| - 2;
            NpduOffset(n.bvlcFunction) == Some(at) && frame[at] == n.version && frame[at + 1] == n.Control()
    ensures Bit(n.Control(), 0x20) == n.dest.present && Bit(n.Control(), 0x08) == n.src.present
    ensures Bit(n.Control(), 0x80) == n.isNetworkMessage
  {
    var s := n.Start();
    assert frame[0 + 0] == s[0] && frame[0 + 1] == s[1];
    assert frame[0 + (|s| - 2)] == s[|s| - 2] && frame[0 + (|s| - 1)] == s[|s| - 1];
  }

  lemma SpecifierRead(frame: Bytes, s: Specifier, at: nat)
    requires s.Valid() && OccursAt(frame, s.Encode(), at)
    ensures at <= |frame| && SpecifierAt(frame, s.present, at) == (s, Some(at + |s.Encode()|))
  {
    if s.present {
      var e := s.Encode();
      assert frame[at + 0] == e[0] && frame[at + 1] == e[1] && frame[at + 2] == e[2];
      OccursSplit(frame, e[..3], s.adr, at);
      assert e == e[..3] + s.adr;
      OccursSlice(frame, s.adr, at + 3);
    }
  }

  /** An APDU header: what stands between its first octet and its service choice, error or reason. */
  datatype Pdu =
    | ConfirmedRequest(bits: nat, sizes: byte, invokeId: byte, segment: Option<(byte, byte)>, service: byte)
    | UnconfirmedRequest(bits: nat, service: byte)
    | SimpleAck(bits: nat, invokeId: byte, service: byte)
    | ComplexAck(bits: nat, invokeId: byte, segment: Option<(byte, byte)>, service: byte)
    | SegmentAck(bits: nat)
    | Error(bits: nat, invokeId: byte, service: byte)
    | Reject(bits: nat, invokeId: byte, reason: byte)
    | Abort(bits: nat, invokeId: byte, reason: byte)
  {
    /** `bits` are the low bits of the first octet: three beside the segmented flag where there is one. */
    predicate Valid() {
      bits < if ConfirmedRequest? || ComplexAck? then 8 else 16
    }

    function Encode(): Bytes
      requires Valid()
    {
      match this
      case ConfirmedRequest(bits, sizes, invokeId, None, service) => [bits, sizes, invokeId, service]
      case ConfirmedRequest(bits, sizes, invokeId, Some((sequence, window)), service) =>
        [8 + bits, sizes, invokeId, sequence, window, service]
      case UnconfirmedRequest(bits, service) => [0x10 + bits, service]
      case SimpleAck(bits, invokeId, service) => [0x20 + bits, invokeId, service]
      case ComplexAck(bits, invokeId, None, service) => [0x30 + bits, invokeId, service]
      case ComplexAck(bits, invokeId, Some((sequence, window)), service) =>
        [0x38 + bits, invokeId, sequence, window, service]
      case SegmentAck(bits) => [0x40 + bits]
      case Error(bits, invokeId, service) => [0x50 + bits, invokeId, service]
      case Reject(bits, invokeId, reason) => [0x60 + bits, invokeId, reason]
      case Abort(bits, invokeId, reason) => [0x70 + bits, invokeId, reason]
    }

    /** What the decoder reports, with the object and property found in the service's parameters, if any. */
    function Report(found: Option<ObjectProperty>): Apdu {
      match this
      case ConfirmedRequest(_, _, invokeId, segment, service) =>
        Apdu(true, 0, segment.Some?, Some(invokeId), Some(service), None,
             if service == 12 || service == 15 then found else None)
      case UnconfirmedRequest(_, service) => Apdu(true, 1, false, None, Some(service), None, None)
      case SimpleAck(_, invokeId, service) => Apdu(true, 2, false, Some(invokeId), Some(service), None, None)
      case ComplexAck(_, invokeId, segment, service) =>
        Apdu(true, 3, segment.Some?, Some(invokeId), Some(service), None, if service == 12 then found else None)
      case SegmentAck(_) => NO_APDU.(present := true, pduType := 4)
      case Error(_, invokeId, service) => Apdu(true, 5, false, Some(invokeId), Some(service), None, None)
      case Reject(_, invokeId, reason) => Apdu(true, 6, false, Some(invokeId), None, Some(reason), None)
      case Abort(_, invokeId, reason) => Apdu(true, 7, false, Some(invokeId), None, Some(reason), None)
    }
  }

  /** Every encoded APDU header is decoded to what it says. */
  lemma PduRead(frame: Bytes, at: nat, p: Pdu)
    requires p.Valid() && OccursAt(frame, p.Encode(), at)
    ensures at < |frame| && ApduAt(frame, at) == p.Report(ObjectPropertyAt(frame, at + |p.Encode()|))
  {
    hide ObjectPropertyAt;
    var e := p.Encode();
    assert forall i: nat :: i < |e| ==> frame[at + i] == e[i];
    assert frame[at + 0] == e[0];
    FirstOctet(p);
    assert |e| > 1 ==> frame[at + 1] == e[1];
    assert |e| > 2 ==> frame[at + 2] == e[2];
    assert |e| > 3 ==> frame[at + 3] == e[3];
    assert |e| > 4 ==> frame[at + 4] == e[4];
    assert |e| > 5 ==> frame[at + 5] == e[5];
  }

  lemma FirstOctet(p: Pdu)
    requires p.Valid()
    ensures p.Encode()[0] / 16 == p.Report(None).pduType
    ensures p.ConfirmedRequest? || p.ComplexAck? ==> Bit(p.Encode()[0], 0x08) == p.segment.Some?
  {
  }

  // ---- The independent test, and its agreement with the decoder -----------

  /** What the decoder reports for an answer the stack addresses itself: an original NPDU of version 1 that is a
      network layer message or an unconfirmed I-Am or I-Have. */
  predicate IsOwnAnswer(d: DecodedFrame) {
    d.bacnetIp && (d.bvlcFunction == 0x0A || d.bvlcFunction == 0x0B) && d.hasNpdu && d.npduVersion == 1 &&
    (d.isNetworkMessage ||
     (d.apdu.present && d.apdu.pduType == 1 && (d.apdu.serviceChoice == Some(0) || d.apdu.serviceChoice == Some(1))))
  }

  /** The first three octets of each address specifier of an original NPDU are there. */
  predicate SpecifiersStart(frame: Bytes) {
    |frame| >= 6 &&
    var dest, src := Bit(frame[5], 0x20), Bit(frame[5], 0x08);
    (dest ==> 9 <= |frame|) && (src ==> (if dest then 9 + frame[8] as int else 6) + 3 <= |frame|)
  }

  /** What both tests are proved to answer: what the decoder reports, except that a network layer message whose
      address specifiers do not even start within the frame is refused. */
  predicate Agrees(r: bool, message: Bytes) {
    r <==> IsOwnAnswer(Decoded(message)) && (Decoded(message).isNetworkMessage ==> SpecifiersStart(message))
  }

  /** The exception is there: six octets that end with a control octet announcing a network layer message and a
      destination. The decoder reports the message; the test says no. */
  lemma TestsCanDiffer()
    ensures var message := [0x81, 0x0A, 0x00, 0x06, 0x01, 0xA0];
            IsOwnAnswer(Decoded(message)) && !SpecifiersStart(message) && Agrees(false, message) && !Agrees(true, message)
  {
  }

  lemma UnconfirmedService(frame: Bytes, at: nat)
    requires at < |frame|
    ensures var a := ApduAt(frame, at);
            a.present && a.pduType == frame[at] / 16 &&
            (a.pduType == 1 ==> a.serviceChoice == if at + 1 < |frame| then Some(frame[at + 1]) else None)
  {
    hide ObjectPropertyAt;
  }

  /** What an original NPDU is decoded to, told from the places the two specifiers end at. */
  lemma OwnAnswerAt(message: Bytes)
    requires |message| >= 6 && message[0] == 0x81 && (message[1] == 0x0A || message[1] == 0x0B) && message[4] == 1
    ensures var dest, src, network := Bit(message[5], 0x20), Bit(message[5], 0x08), Bit(message[5], 0x80);
            Decoded(message).isNetworkMessage == network &&
            (network ==> IsOwnAnswer(Decoded(message))) &&
            (!network && dest && 9 > |message| ==> !IsOwnAnswer(Decoded(message))) &&
            (!network && (dest ==> 9 <= |message|) ==>
               var i := if dest then 9 + message[8] as int else 6;
               (src && i + 3 > |message| ==> !IsOwnAnswer(Decoded(message))) &&
               ((src ==> i + 3 <= |message|) ==>
                  var j := (if src then i + 3 + message[i + 2] as int else i) + if dest then 1 else 0;
                  IsOwnAnswer(Decoded(message)) <==>
                  j + 2 <= |message| && message[j] / 16 == 1 && (message[j + 1] == 0 || message[j + 1] == 1)))
  {
    hide ApduAt;
    var dest, src, network := Bit(message[5], 0x20), Bit(message[5], 0x08), Bit(message[5], 0x80);
    if !network && (dest ==> 9 <= |message|) {
      var i := if dest then 9 + message[8] as int else 6;
      if src ==> i + 3 <= |message| {
        var j := (if src then i + 3 + message[i + 2] as int else i) + if dest then 1 else 0;
        if j < |message| {
          UnconfirmedService(message, j);
          assert Decoded(message).apdu == ApduAt(message, j);
        } else {
          assert !Decoded(message).apdu.present;
        }
      }
    }
  }

  /** IsStackChosenBroadcast of common/CASExampleHelper.cpp. */
  method IsStackChosenBroadcast(message: Bytes) returns (r: bool)
    ensures Agrees(r, message)
  {
    if |message| < 6 || message[0] != 0x81 {
      return false;
    }
    if message[1] != 0x0A && message[1] != 0x0B {
      return false;
    }
    var i: nat := 4;
    if i + 2 > |message| || message[i] != 0x01 {
      return false;
    }
    hide Decoded, IsOwnAnswer, Bit;
    OwnAnswerAt(message);
    var control := message[i + 1];
    i := i + 2;
    if Bit(control, 0x20) {  // the destination: network, address length, address
      if i + 3 > |message| {
        return false;
      }
      i := i + 3 + message[i + 2] as int;
    }
    if Bit(control, 0x08) {  // source specifier
      if i + 3 > |message| {
        return false;
      }
      i := i + 3 + message[i + 2] as int;
    }
    if Bit(control, 0x20) {  // hop count
      i := i + 1;
    }
    if Bit(control, 0x80) {  // network layer message
      return true;
    }
    return i + 2 <= |message| && message[i] / 16 == 1 && (message[i + 1] == 0 || message[i + 1] == 1);
  }

  /** The copy in sc_transport/ScTransportRouter.cpp. */
  method IsStackChosenBroadcastRouter(message: Bytes) returns (r: bool)
    ensures Agrees(r, message)
  {
    if |message| < 6 || message[0] != 0x81 || (message[1] != 0x0A && message[1] != 0x0B) {
      return false;
    }
    var i: nat := 4;
    if i + 2 > |message| || message[i] != 0x01 {
      return false;
    }
    hide Decoded, IsOwnAnswer, Bit;
    OwnAnswerAt(message);
    var control := message[i + 1];
    i := i + 2;
    if Bit(control, 0x20) {
      if i + 3 > |message| {
        return false;
      }
      i := i + 3 + message[i + 2] as int;
    }
    if Bit(control, 0x08) {
      if i + 3 > |message| {
        return false;
      }
      i := i + 3 + message[i + 2] as int;
    }
    if Bit(control, 0x20) {
      i := i + 1;
    }
    if Bit(control, 0x80) {
      return true;
    }
    return i + 2 <= |message| && message[i] / 16 == 1 && (message[i + 1] == 0 || message[i + 1] == 1);
  }
}
