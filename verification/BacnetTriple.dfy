/** Exactly when the frame decoder finds an object, property and array index (common/CASExampleHelper.cpp). */
module BacnetTriple {
  import opened Octets
  import opened BacnetTag
  import opened BacnetFrame

  lemma {:induction false} OctetsOfBigEndian(octets: Bytes)
    ensures BigEndian(octets) < Power256(|octets|) && UnsignedOctets(BigEndian(octets), |octets|) == octets
    decreases |octets|
  {
    if octets != [] {
      var n := |octets| - 1;
      OctetsOfBigEndian(octets[..n]);
      Divided(BigEndian(octets[..n]), octets[n]);
      assert octets[..n] + [octets[n]] == octets;
    }
  }

  lemma Divided(high: nat, low: byte)
    ensures (high * 0x100 + low as int) / 0x100 == high && (high * 0x100 + low as int) % 0x100 == low
  {
  }

  /** A context-tagged unsigned value of 1 to 4 octets stands at `pos` and ends at `end`. */
  predicate UnsignedStands(frame: Bytes, pos: nat, number: byte, v: nat, end: nat, n: nat, f: Form) {
    1 <= n <= 4 && v < Power256(n) && FormFor(number, n, f) && OccursAt(frame, EncodeUnsigned(number, v, n, f), pos) &&
    end == pos + |EncodeUnsigned(number, v, n, f)|
  }

  lemma UnsignedIff(frame: Bytes, pos: nat, number: byte, v: nat, end: nat)
    ensures UnsignedAt(frame, pos, number) == Some((v, end)) <==>
            exists n: nat, f :: UnsignedStands(frame, pos, number, v, end, n, f)
  {
    hide TagAt, EncodeTag, UnsignedOctets, OccursAt;
    if UnsignedAt(frame, pos, number) == Some((v, end)) {
      var h := TagAt(frame, pos).value;
      TagIffStands(frame, pos, h);
      var f :| TagStands(frame, pos, h, f);
      UnsignedWritten(frame, pos, number, h, f, v, end);
    }
    if n: nat, f :| UnsignedStands(frame, pos, number, v, end, n, f) {
      UnsignedRead(frame, pos, number, v, n, f);
    }
  }

  /** A context tag with a length that is not 0 is the header of such a value. */
  lemma TagIsContextTag(h: TagHeader, f: Form)
    requires Fits(h, f) && h.contextSpecific && h.length > 0 && h.headerLength == |EncodeTag(h, f)|
    ensures FormFor(h.tagNumber, h.length, f) && h == ContextTag(h.tagNumber, h.length, f)
  {
  }

  lemma UnsignedWritten(frame: Bytes, pos: nat, number: byte, h: TagHeader, f: Form, v: nat, end: nat)
    requires TagAt(frame, pos) == Some(h) && TagStands(frame, pos, h, f)
    requires UnsignedAt(frame, pos, number) == Some((v, end))
    ensures UnsignedStands(frame, pos, number, v, end, h.length, f)
  {
    hide TagAt, BigEndian, UnsignedOctets, Power256, EncodeTag, OccursAt, ContextTag, Fits;
    var at, n := pos + h.headerLength, h.length;
    var octets := frame[at..at + n];
    OctetsOfBigEndian(octets);
    TagIsContextTag(h, f);
    OccursSlice(frame, octets, at);
    OccursSplit(frame, EncodeTag(h, f), octets, pos);
  }

  /** What was found, written in these forms. */
  predicate TripleStands(frame: Bytes, offset: nat, t: ObjectProperty, w: TripleForm) {
    TripleFits(t, w) && OccursAt(frame, EncodeTriple(t, w), offset) &&
    (t.arrayIndex.None? ==> UnsignedAt(frame, offset + |EncodeTriple(t, w)|, 2).None?)
  }

  lemma IdOctets(frame: Bytes, at: nat)
    requires at + 4 <= |frame|
    ensures var v := U32(frame, at);
            frame[at] == v / 0x1000000 && frame[at + 1] == v / 0x10000 % 0x100 &&
            frame[at + 2] == v / 0x100 % 0x100 && frame[at + 3] == v % 0x100
  {
    var a, b, c, d := frame[at] as int, frame[at + 1] as int, frame[at + 2] as int, frame[at + 3] as int;
    var v := U32(frame, at);
    assert v == 0x100 * (0x100 * (0x100 * a + b) + c) + d;
    assert v / 0x100 == 0x100 * (0x100 * a + b) + c;
    assert v / 0x10000 == 0x100 * a + b;
  }

  lemma ObjectWritten(frame: Bytes, offset: nat, h: TagHeader, f: Form)
    requires TagAt(frame, offset) == Some(h) && TagStands(frame, offset, h, f) && ObjectAt(frame, offset).Some?
    ensures var (v, end) := ObjectAt(frame, offset).value;
            var octets := [v / 0x1000000, v / 0x10000 % 0x100, v / 0x100 % 0x100, v % 0x100];
            v < 0x1_0000_0000 && FormFor(0, 4, f) && end == offset + |EncodeTag(ContextTag(0, 4, f), f)| + 4 &&
            OccursAt(frame, EncodeTag(ContextTag(0, 4, f), f) + octets, offset)
  {
    hide TagAt, EncodeTag, ContextTag, Fits, U32;
    TagIsContextTag(h, f);
    var at := offset + h.headerLength;
    IdOctets(frame, at);
    var v := U32(frame, at);
    var octets: Bytes := [v / 0x1000000, v / 0x10000 % 0x100, v / 0x100 % 0x100, v % 0x100];
    assert OccursAt(frame, octets, at);
    OccursSplit(frame, EncodeTag(h, f), octets, offset);
  }

  /** The value of an object identifier and its parts. */
  lemma JoinedId(v: nat)
    requires v < 0x1_0000_0000
    ensures v / 0x400000 < 0x400 && v % 0x400000 < 0x400000 && v / 0x400000 * 0x400000 + v % 0x400000 == v
  {
  }

  /** An object, property and index is found exactly if it is written there, in any of its forms - and, if it has no
      index, no context tag 2 with a value follows. */
  lemma TripleIff(frame: Bytes, offset: nat, t: ObjectProperty)
    ensures ObjectPropertyAt(frame, offset) == Some(t) <==> exists w :: TripleStands(frame, offset, t, w)
  {
    hide TripleStands, ObjectPropertyAt;
    if ObjectPropertyAt(frame, offset) == Some(t) {
      TripleWritten(frame, offset, t);
    }
    if w :| TripleStands(frame, offset, t, w) {
      StandingIsRead(frame, offset, t, w);
    }
  }

  lemma StandingIsRead(frame: Bytes, offset: nat, t: ObjectProperty, w: TripleForm)
    requires TripleStands(frame, offset, t, w)
    ensures ObjectPropertyAt(frame, offset) == Some(t)
  {
    hide ObjectPropertyAt, EncodeTriple, UnsignedAt, OccursAt, TripleFits;
    TripleRead(frame, offset, t, w);
  }

  lemma TripleWritten(frame: Bytes, offset: nat, t: ObjectProperty)
    requires ObjectPropertyAt(frame, offset) == Some(t)
    ensures exists w :: TripleStands(frame, offset, t, w)
  {
    hide TagAt, ObjectAt, UnsignedAt, TripleStands, TagStands, EncodeTag, EncodeUnsigned;
    var (v, at) := ObjectAt(frame, offset).value;
    var h := ObjectTag(frame, offset);
    TagIffStands(frame, offset, h);
    var f :| TagStands(frame, offset, h, f);
    ObjectWritten(frame, offset, h, f);
    var (p, end) := UnsignedAt(frame, at, 1).value;
    UnsignedIff(frame, at, 1, p, end);
    var n: nat, g :| UnsignedStands(frame, at, 1, p, end, n, g);
    var index := UnsignedAt(frame, end, 2);
    var m: nat, k := 1, g;
    if index.Some? {
      UnsignedIff(frame, end, 2, index.value.0, index.value.1);
      m, k :| UnsignedStands(frame, end, 2, index.value.0, index.value.1, m, k);
    }
    JoinedId(v);
    PartsStand(frame, offset, t, TripleForm(f, g, n, k, m), v, at, end);
  }

  /** The tag of an object identifier that is found. */
  function ObjectTag(frame: Bytes, offset: nat): (h: TagHeader)
    requires ObjectAt(frame, offset).Some?
    ensures TagAt(frame, offset) == Some(h)
  {
    TagAt(frame, offset).value
  }

  lemma PartsStand(frame: Bytes, offset: nat, t: ObjectProperty, w: TripleForm, v: nat, at: nat, end: nat)
    requires v < 0x1_0000_0000 && t.objectType == v / 0x400000 && t.objectInstance == v % 0x400000
    requires t.objectType < 0x400 && t.objectType * 0x400000 + t.objectInstance == v && FormFor(0, 4, w.objectTag)
    requires var octets: Bytes := [v / 0x1000000, v / 0x10000 % 0x100, v / 0x100 % 0x100, v % 0x100];
             var tag := EncodeTag(ContextTag(0, 4, w.objectTag), w.objectTag);
             OccursAt(frame, tag + octets, offset) && at == offset + |tag| + 4
    requires UnsignedStands(frame, at, 1, t.propertyId, end, w.propertyOctets, w.property)
    requires match t.arrayIndex
             case None => UnsignedAt(frame, end, 2).None?
             case Some(i) => exists stop: nat :: UnsignedStands(frame, end, 2, i, stop, w.indexOctets, w.index)
    ensures TripleStands(frame, offset, t, w)
  {
    hide EncodeTag, ContextTag, FormFor, UnsignedAt, EncodeUnsigned, OccursAt, Power256;
    var a, b, c := EncodeObject(t, w), EncodeProperty(t, w), EncodeIndex(t, w);
    assert |a| == at - offset;
    OccursNothing(frame, end);
    UnsignedWithin(frame, at, t.propertyId, end, w);
    OccursSplit(frame, a, b, offset);
    OccursSplit(frame, a + b, c, offset);
  }

  lemma UnsignedWithin(frame: Bytes, at: nat, v: nat, end: nat, w: TripleForm)
    requires UnsignedStands(frame, at, 1, v, end, w.propertyOctets, w.property)
    ensures end <= |frame|
  {
    hide EncodeUnsigned;
  }

  lemma OccursNothing(frame: Bytes, at: nat)
    ensures at <= |frame| ==> OccursAt(frame, [], at)
  {
  }
}
