/** BACnet tags and the object/property part of ReadProperty and WriteProperty (common/CASExampleHelper.cpp; the
    encodings are those of clause 20.2.1 of ANSI/ASHRAE 135). */
module BacnetTag {
  import opened Octets

  datatype TagHeader = TagHeader(tagNumber: byte, contextSpecific: bool, isOpeningTag: bool, isClosingTag: bool,
                                 length: nat, headerLength: nat)

  // ---- Reading ------------------------------------------------------------

  /** The tag number, and where the octet after it is. */
  function NumberAt(frame: Bytes, offset: nat): (r: Option<(byte, nat)>)
    requires offset < |frame|
    ensures r.Some? ==> offset < r.value.1 <= |frame|
  {
    if frame[offset] / 16 < 15 then Some((frame[offset] / 16, offset + 1))
    else if offset + 1 >= |frame| then None
    else Some((frame[offset + 1], offset + 2))
  }

  /** The length that the low three bits `lvt` and the octets from `pos` on give, and where they end. */
  function LengthAt(frame: Bytes, pos: nat, contextSpecific: bool, lvt: nat): (r: Option<(nat, nat)>)
    requires pos <= |frame| && lvt < 8
    ensures r.Some? ==> pos <= r.value.1 <= |frame|
  {
    if contextSpecific && lvt >= 6 then Some((0, pos))
    else if lvt <= 4 then Some((lvt, pos))
    else if lvt > 5 || pos >= |frame| then None
    else if frame[pos] < 254 then Some((frame[pos] as nat, pos + 1))
    else if frame[pos] == 254 then (if pos + 3 > |frame| then None else Some((U16(frame, pos + 1), pos + 3)))
    else (if pos + 5 > |frame| then None else Some((U32(frame, pos + 1), pos + 5)))
  }

  function TagAt(frame: Bytes, offset: nat): (r: Option<TagHeader>)
    ensures r.Some? ==> offset + r.value.headerLength <= |frame|
  {
    if offset >= |frame| then None
    else
      var context, lvt := Bit(frame[offset], 0x08), frame[offset] % 8;
      var number := NumberAt(frame, offset);
      if number.None? then None
      else
        var length := LengthAt(frame, number.value.1, context, lvt);
        if length.None? then None
        else Some(TagHeader(number.value.0, context, context && lvt == 6, context && lvt == 7, length.value.0,
                            length.value.1 - offset))
  }

  method DecodeTagHeader(frame: Bytes, offset: nat) returns (out: Option<TagHeader>)
    ensures out == TagAt(frame, offset)
  {
    if offset >= |frame| {
      return None;
    }
    var pos := offset;
    var b0 := frame[pos];
    var tagNumber: byte := b0 / 16;
    var contextSpecific := Bit(b0, 0x08);
    var lvt := b0 % 8;
    pos := pos + 1;
    if tagNumber == 0x0F {  // extended tag number
      if pos >= |frame| {
        return None;
      }
      tagNumber := frame[pos];
      pos := pos + 1;
    }
    var isOpening, isClosing, length := false, false, 0;
    if contextSpecific && lvt == 6 {
      isOpening := true;
    } else if contextSpecific && lvt == 7 {
      isClosing := true;
    } else if lvt <= 4 {
      length := lvt;
    } else if lvt == 5 {  // extended length
      if pos >= |frame| {
        return None;
      }
      var lenByte := frame[pos];
      pos := pos + 1;
      if lenByte < 254 {
        length := lenByte;
      } else if lenByte == 254 {
        if pos + 2 > |frame| {
          return None;
        }
        length := U16(frame, pos);
        pos := pos + 2;
      } else {
        if pos + 4 > |frame| {
          return None;
        }
        length := U32(frame, pos);
        pos := pos + 4;
      }
    } else {
      return None;  // these two values only open or close a context tag
    }
    return Some(TagHeader(tagNumber, contextSpecific, isOpening, isClosing, length, pos - offset));
  }

  // ---- Writing ------------------------------------------------------------

  /** How a tag is written: its number in the first octet or in one of its own, and its length in the first octet,
      in one more octet, in two or in four; or no length, for an opening or a closing tag. */
  datatype LengthForm = Short | Octet1 | Octets2 | Octets4 | Opening | Closing
  datatype Form = Form(extendedNumber: bool, length: LengthForm)

  predicate Fits(h: TagHeader, f: Form) {
    (f.extendedNumber || h.tagNumber < 15) &&
    h.isOpeningTag == f.length.Opening? && h.isClosingTag == f.length.Closing? &&
    match f.length
    case Short => h.length <= 4
    case Octet1 => h.length < 254
    case Octets2 => h.length < 0x10000
    case Octets4 => h.length < 0x1_0000_0000
    case Opening => h.contextSpecific && h.length == 0
    case Closing => h.contextSpecific && h.length == 0
  }

  function Lvt(h: TagHeader, f: Form): nat
    requires Fits(h, f)
  {
    match f.length
    case Short => h.length
    case Opening => 6
    case Closing => 7
    case _ => 5
  }

  function LengthOctets(length: nat, f: LengthForm): Bytes
    requires f.Octet1? ==> length < 254
    requires f.Octets2? ==> length < 0x10000
    requires f.Octets4? ==> length < 0x1_0000_0000
  {
    match f
    case Octet1 => [length]
    case Octets2 => [254, length / 0x100, length % 0x100]
    case Octets4 => [255, length / 0x1000000, length / 0x10000 % 0x100, length / 0x100 % 0x100, length % 0x100]
    case _ => []
  }

  function NumberOctets(h: TagHeader, f: Form): Bytes
    requires Fits(h, f)
  {
    var low := (if h.contextSpecific then 8 else 0) + Lvt(h, f);
    if f.extendedNumber then [0xF0 + low, h.tagNumber] else [h.tagNumber * 16 + low]
  }

  function EncodeTag(h: TagHeader, f: Form): Bytes
    requires Fits(h, f)
  {
    NumberOctets(h, f) + LengthOctets(h.length, f.length)
  }

  predicate TagStands(frame: Bytes, offset: nat, h: TagHeader, f: Form) {
    Fits(h, f) && OccursAt(frame, EncodeTag(h, f), offset) && h.headerLength == |EncodeTag(h, f)|
  }

  lemma U32Read(frame: Bytes, pos: nat, v: nat)
    requires pos + 4 <= |frame| && v < 0x1_0000_0000
    requires frame[pos] == v / 0x1000000 && frame[pos + 1] == v / 0x10000 % 0x100
    requires frame[pos + 2] == v / 0x100 % 0x100 && frame[pos + 3] == v % 0x100
    ensures U32(frame, pos) == v
  {
    assert v / 0x100 == v / 0x10000 * 0x100 + v / 0x100 % 0x100;
    assert v / 0x10000 == v / 0x1000000 * 0x100 + v / 0x10000 % 0x100;
  }

  lemma U16Written(frame: Bytes, pos: nat)
    requires pos + 2 <= |frame|
    ensures var v := U16(frame, pos);
            frame[pos] == v / 0x100 && frame[pos + 1] == v % 0x100
  {
    var b1: int := frame[pos + 1];
    assert U16(frame, pos) / 0x100 == frame[pos] && U16(frame, pos) % 0x100 == b1;
  }

  lemma U32Written(frame: Bytes, pos: nat)
    requires pos + 4 <= |frame|
    ensures var v := U32(frame, pos);
            frame[pos] == v / 0x1000000 && frame[pos + 1] == v / 0x10000 % 0x100 &&
            frame[pos + 2] == v / 0x100 % 0x100 && frame[pos + 3] == v % 0x100
  {
    var v, hi := U32(frame, pos), U16(frame, pos);
    var b2: int, b3: int := frame[pos + 2], frame[pos + 3];
    assert v == (hi * 0x100 + b2) * 0x100 + b3;
    assert v / 0x100 == hi * 0x100 + b2;
    assert v / 0x10000 == hi;
    assert v / 0x1000000 == hi / 0x100;
  }

  lemma NumberRead(frame: Bytes, offset: nat, h: TagHeader, f: Form)
    requires Fits(h, f) && OccursAt(frame, NumberOctets(h, f), offset)
    ensures offset < |frame| && (f.extendedNumber || h.tagNumber < 15)
    ensures NumberAt(frame, offset) == Some((h.tagNumber, offset + |NumberOctets(h, f)|))
    ensures Bit(frame[offset], 0x08) == h.contextSpecific && frame[offset] % 8 == Lvt(h, f)
  {
    var e := NumberOctets(h, f);
    assert frame[offset + 0] == e[0];
    assert f.extendedNumber ==> frame[offset + 1] == e[1];
  }

  lemma LengthRead(frame: Bytes, pos: nat, h: TagHeader, f: Form)
    requires Fits(h, f) && OccursAt(frame, LengthOctets(h.length, f.length), pos)
    ensures LengthAt(frame, pos, h.contextSpecific, Lvt(h, f)) ==
            Some((h.length, pos + |LengthOctets(h.length, f.length)|))
  {
    var e := LengthOctets(h.length, f.length);
    assert e != [] ==> frame[pos + 0] == e[0];
    if f.length.Octets2? {
      assert frame[pos + 1] == e[1] && frame[pos + 2] == e[2];
    } else if f.length.Octets4? {
      assert frame[pos + 1] == e[1] && frame[pos + 2] == e[2] && frame[pos + 3] == e[3] && frame[pos + 4] == e[4];
      U32Read(frame, pos + 1, h.length);
    }
  }

  lemma TagRead(frame: Bytes, offset: nat, h: TagHeader, f: Form)
    requires TagStands(frame, offset, h, f)
    ensures TagAt(frame, offset) == Some(h)
  {
    OccursSplit(frame, NumberOctets(h, f), LengthOctets(h.length, f.length), offset);
    NumberRead(frame, offset, h, f);
    LengthRead(frame, offset + |NumberOctets(h, f)|, h, f);
  }

  /** The form in which a tag that was read is written. */
  function FormAt(frame: Bytes, offset: nat): Form
    requires TagAt(frame, offset).Some?
  {
    var context, lvt, pos := Bit(frame[offset], 0x08), frame[offset] % 8, NumberAt(frame, offset).value.1;
    Form(frame[offset] / 16 == 15,
         if context && lvt == 6 then Opening
         else if context && lvt == 7 then Closing
         else if lvt <= 4 then Short
         else if frame[pos] < 254 then Octet1
         else if frame[pos] == 254 then Octets2
         else Octets4)
  }

  lemma LengthWritten(frame: Bytes, offset: nat)
    requires TagAt(frame, offset).Some?
    ensures var h, f := TagAt(frame, offset).value, FormAt(frame, offset);
            var pos := NumberAt(frame, offset).value.1;
            Fits(h, f) && Lvt(h, f) == frame[offset] % 8 && OccursAt(frame, LengthOctets(h.length, f.length), pos) &&
            h.headerLength == pos - offset + |LengthOctets(h.length, f.length)|
  {
    hide U16, U32;
    var pos := NumberAt(frame, offset).value.1;
    if FormAt(frame, offset).length.Octets4? {
      U32Written(frame, pos + 1);
    } else if FormAt(frame, offset).length.Octets2? {
      U16Written(frame, pos + 1);
    }
  }

  lemma TagWritten(frame: Bytes, offset: nat)
    requires TagAt(frame, offset).Some?
    ensures TagStands(frame, offset, TagAt(frame, offset).value, FormAt(frame, offset))
  {
    var h, f := TagAt(frame, offset).value, FormAt(frame, offset);
    LengthWritten(frame, offset);
    assert OccursAt(frame, NumberOctets(h, f), offset);
    OccursSplit(frame, NumberOctets(h, f), LengthOctets(h.length, f.length), offset);
  }

  /** DecodeTagHeader returns a tag exactly when that tag stands there, in any of the short and extended forms. */
  lemma TagIffStands(frame: Bytes, offset: nat, h: TagHeader)
    ensures TagAt(frame, offset) == Some(h) <==> exists f :: TagStands(frame, offset, h, f)
  {
    if TagAt(frame, offset) == Some(h) {
      TagWritten(frame, offset);
    }
    if f :| TagStands(frame, offset, h, f) {
      TagRead(frame, offset, h, f);
    }
  }
}
