/** Finding the payload behind a BVLC-SC header (ScTransport.cpp, BvlcPayloadOffset; the header is that of
    section AB.2.1 of ANSI/ASHRAE 135-2024). */
module BvlcHeader {
  import opened Octets

  const ORIGINATING := 0x08
  const DESTINATION := 0x04
  const MORE_OPTIONS := 0x80
  const HAS_DATA := 0x20

  /** The mask of the control flag for header option list 0 (destination options) and 1 (data options). */
  function ListFlag(list: nat): int {
    if list == 0 then 0x02 else 0x01
  }

  // ---- Reading ------------------------------------------------------------

  /** The end of the header option at `at`; None when its length field is cut off. */
  function OptionEnd(data: Bytes, at: nat): (r: Option<nat>)
    requires at < |data|
    ensures r.Some? ==> at < r.value
  {
    if !Bit(data[at], HAS_DATA) then Some(at + 1)
    else if at + 3 > |data| then None
    else Some(at + 3 + U16(data, at + 1))
  }

  /** The end of the option list at `at`, following the More Options flags. */
  function ListEnd(data: Bytes, at: nat): (r: Option<nat>)
    ensures r.Some? ==> at < r.value
    decreases |data| - at
  {
    if at >= |data| then None
    else
      var next := OptionEnd(data, at);
      if next.None? || !Bit(data[at], MORE_OPTIONS) then next else ListEnd(data, next.value)
  }

  /** The payload offset, from option list `list` on; 0 for a malformed header. */
  function FromList(data: Bytes, list: nat, offset: nat): (r: nat)
    requires |data| >= 4 && list <= 2
    decreases 2 - list
  {
    if list == 2 then (if offset <= |data| then offset else 0)
    else if !Bit(data[1], ListFlag(list)) then FromList(data, list + 1, offset)
    else
      var end := ListEnd(data, offset);
      if end.None? then 0 else FromList(data, list + 1, end.value)
  }

  /** The function, the control flags and the message ID, then the virtual addresses that are present. */
  function FixedPart(flags: byte): (n: nat)
    ensures n >= 4
  {
    4 + (if Bit(flags, ORIGINATING) then 6 else 0) + (if Bit(flags, DESTINATION) then 6 else 0)
  }

  function PayloadOffset(data: Bytes): nat {
    if |data| < 4 then 0 else FromList(data, 0, FixedPart(data[1]))
  }

  method BvlcPayloadOffset(data: Bytes) returns (r: nat)
    ensures r == PayloadOffset(data)
  {
    if |data| < 4 {
      return 0;
    }
    var flags := data[1];
    var offset: nat := 4;
    if Bit(flags, ORIGINATING) {
      offset := offset + 6;
    }
    if Bit(flags, DESTINATION) {
      offset := offset + 6;
    }
    for list := 0 to 2
      invariant PayloadOffset(data) == FromList(data, list, offset)
    {
      var more := Bit(flags, ListFlag(list));
      while more
        invariant PayloadOffset(data) ==
                  if !more then FromList(data, list + 1, offset)
                  else if ListEnd(data, offset).None? then 0
                  else FromList(data, list + 1, ListEnd(data, offset).value)
        decreases |data| - offset, more
      {
        if offset >= |data| {
          return 0;
        }
        var marker := data[offset];
        offset := offset + 1;
        more := Bit(marker, MORE_OPTIONS);
        if Bit(marker, HAS_DATA) {
          if offset + 2 > |data| {
            return 0;
          }
          offset := offset + 2 + U16(data, offset);
        }
      }
    }
    return if offset <= |data| then offset else 0;
  }

  // ---- Writing ------------------------------------------------------------

  /** A header option: Must Understand flag, a type below 32, and data when the Header Data Flag is set. */
  datatype HeaderOption = HeaderOption(mustUnderstand: bool, kind: nat, data: Option<Bytes>) {
    predicate Valid() {
      kind < 32 && (data.Some? ==> |data.value| < 0x10000)
    }
  }

  datatype Header = Header(function_: byte, reserved: nat, id1: byte, id2: byte, originating: Option<Bytes>,
                           destination: Option<Bytes>, options: seq<seq<HeaderOption>>) {
    /** Virtual addresses have 6 octets; there is a list of destination options and one of data options. */
    predicate Valid() {
      reserved < 16 && |options| == 2 &&
      (originating.Some? ==> |originating.value| == 6) && (destination.Some? ==> |destination.value| == 6) &&
      forall l :: 0 <= l < 2 ==> ValidList(options[l])
    }

    function Flags(): byte
      requires Valid()
    {
      reserved * 16 + One(originating.Some?) * 8 + One(destination.Some?) * 4 +
      One(options[0] != []) * 2 + One(options[1] != [])
    }
  }

  predicate ValidList(list: seq<HeaderOption>) {
    forall o :: o in list ==> o.Valid()
  }

  function One(b: bool): nat {
    if b then 1 else 0
  }

  function Marker(o: HeaderOption, more: bool): byte
    requires o.Valid()
  {
    One(more) * 128 + One(o.mustUnderstand) * 64 + One(o.data.Some?) * 32 + o.kind
  }

  function OptionData(data: Option<Bytes>): Bytes
    requires data.Some? ==> |data.value| < 0x10000
  {
    match data
    case None => []
    case Some(d) => [|d| / 256, |d| % 256] + d
  }

  function EncodeOption(o: HeaderOption, more: bool): Bytes
    requires o.Valid()
  {
    [Marker(o, more)] + OptionData(o.data)
  }

  function EncodeList(list: seq<HeaderOption>): Bytes
    requires ValidList(list)
  {
    if list == [] then [] else EncodeOption(list[0], |list| > 1) + EncodeList(list[1..])
  }

  function Optional(address: Option<Bytes>): Bytes {
    match address
    case None => []
    case Some(a) => a
  }

  function EncodeFixed(h: Header): Bytes
    requires h.Valid()
  {
    [h.function_, h.Flags(), h.id1, h.id2] + Optional(h.originating) + Optional(h.destination)
  }

  function Encode(h: Header): Bytes
    requires h.Valid()
  {
    EncodeFixed(h) + EncodeList(h.options[0]) + EncodeList(h.options[1])
  }

  // ---- Reading undoes writing ---------------------------------------------

  lemma OptionRead(data: Bytes, at: nat, o: HeaderOption, more: bool)
    requires o.Valid() && OccursAt(data, EncodeOption(o, more), at)
    ensures at < |data| && OptionEnd(data, at) == Some(at + |EncodeOption(o, more)|)
    ensures Bit(data[at], MORE_OPTIONS) == more
  {
    var e := EncodeOption(o, more);
    assert data[at + 0] == e[0] == Marker(o, more);
    if o.data.Some? {
      assert data[at + 1] == e[1] && data[at + 2] == e[2];
    }
  }

  lemma ListEndStep(data: Bytes, at: nat)
    requires at < |data| && OptionEnd(data, at).Some?
    ensures ListEnd(data, at) ==
            if Bit(data[at], MORE_OPTIONS) then ListEnd(data, OptionEnd(data, at).value) else OptionEnd(data, at)
  {
  }

  lemma {:induction false} ListRead(data: Bytes, at: nat, list: seq<HeaderOption>)
    requires ValidList(list) && list != [] && OccursAt(data, EncodeList(list), at)
    ensures ListEnd(data, at) == Some(at + |EncodeList(list)|)
    decreases |list|
  {
    var e := EncodeOption(list[0], |list| > 1);
    OccursSplit(data, e, EncodeList(list[1..]), at);
    OptionRead(data, at, list[0], |list| > 1);
    ListEndStep(data, at);
    if |list| > 1 {
      ListRead(data, at + |e|, list[1..]);
    }
  }

  lemma FlagBits(h: Header)
    requires h.Valid()
    ensures FixedPart(h.Flags()) == |EncodeFixed(h)|
    ensures Bit(h.Flags(), 0x02) == (h.options[0] != []) && Bit(h.Flags(), 0x01) == (h.options[1] != [])
  {
    hide ValidList;
    FlagDigits(h.reserved, One(h.originating.Some?), One(h.destination.Some?), One(h.options[0] != []), One(h.options[1] != []));
  }

  lemma FlagDigits(reserved: nat, a: nat, b: nat, c: nat, d: nat)
    requires reserved < 16 && a < 2 && b < 2 && c < 2 && d < 2
    ensures var v := reserved * 16 + a * 8 + b * 4 + c * 2 + d;
            v < 0x100 && v / 8 % 2 == a && v / 4 % 2 == b && v / 2 % 2 == c && v % 2 == d
  {
    var u := reserved * 2 + a;
    var t := u * 2 + b;
    var s := t * 2 + c;
    var v := s * 2 + d;
    assert v / 2 == s && v / 4 == t && v / 8 == u;
  }

  lemma ListPassed(data: Bytes, at: nat, list: nat, options: seq<HeaderOption>)
    requires |data| >= 4 && list < 2 && ValidList(options) && OccursAt(data, EncodeList(options), at)
    requires Bit(data[1], ListFlag(list)) == (options != [])
    ensures FromList(data, list, at) == FromList(data, list + 1, at + |EncodeList(options)|)
  {
    if options != [] {
      ListRead(data, at, options);
    }
  }

  lemma FlagsStand(h: Header, data: Bytes)
    requires h.Valid() && OccursAt(data, EncodeFixed(h), 0)
    ensures |data| >= 4 && data[1] == h.Flags()
  {
    assert data[0 + 1] == EncodeFixed(h)[1];
  }

  lemma Passed(data: Bytes, offset: nat)
    requires |data| >= 4 && offset <= |data|
    ensures FromList(data, 2, offset) == offset
  {
  }

  /** For every header, BvlcPayloadOffset finds where its encoding ends, whatever follows. */
  lemma OffsetOfEncodedHeader(h: Header, data: Bytes)
    requires h.Valid() && OccursAt(data, Encode(h), 0)
    ensures PayloadOffset(data) == |Encode(h)|
  {
    hide EncodeFixed, EncodeList, FromList, ListEnd, FixedPart;
    var fixed, a, b := EncodeFixed(h), EncodeList(h.options[0]), EncodeList(h.options[1]);
    OccursSplit(data, fixed + a, b, 0);
    OccursSplit(data, fixed, a, 0);
    FlagBits(h);
    FlagsStand(h, data);
    Passed(data, |fixed| + |a| + |b|);
    ListPassed(data, |fixed|, 0, h.options[0]);
    ListPassed(data, |fixed| + |a|, 1, h.options[1]);
  }

  // ---- Everything that is read was written --------------------------------

  /** Whatever option ends within the data is the encoding of an option. */
  lemma OptionSound(data: Bytes, at: nat) returns (o: HeaderOption)
    requires at < |data| && OptionEnd(data, at).Some? && OptionEnd(data, at).value <= |data|
    ensures o.Valid() && data[at..OptionEnd(data, at).value] == EncodeOption(o, Bit(data[at], MORE_OPTIONS))
  {
    var end, marker := OptionEnd(data, at).value, data[at];
    var d := if Bit(marker, HAS_DATA) then Some(data[at + 3..end]) else None;
    o := HeaderOption(Bit(marker, 64), marker % 32, d);
    assert Marker(o, Bit(marker, MORE_OPTIONS)) == marker;
    if d.Some? {
      assert |d.value| == U16(data, at + 1);
      assert data[at..end] == [marker, data[at + 1], data[at + 2]] + d.value;
    }
  }

  lemma {:induction false} ListSound(data: Bytes, at: nat) returns (list: seq<HeaderOption>)
    requires ListEnd(data, at).Some? && ListEnd(data, at).value <= |data|
    ensures ValidList(list) && list != [] && data[at..ListEnd(data, at).value] == EncodeList(list)
    decreases |data| - at
  {
    var next, end := OptionEnd(data, at).value, ListEnd(data, at).value;
    var more := Bit(data[at], MORE_OPTIONS);
    ListEndGrows(data, at);
    var o := OptionSound(data, at);
    if more {
      var rest := ListSound(data, next);
      list := [o] + rest;
      assert list[1..] == rest;
      assert data[at..end] == data[at..next] + data[next..end];
    } else {
      list := [o];
      assert EncodeList(list[1..]) == [];
    }
  }

  lemma {:induction false} ListEndGrows(data: Bytes, at: nat)
    requires ListEnd(data, at).Some?
    ensures at < |data| && OptionEnd(data, at).Some? && OptionEnd(data, at).value <= ListEnd(data, at).value
  {
  }

  /** The option list that the control flags announce at `offset`, or no option. */
  lemma FlaggedList(data: Bytes, list: nat, offset: nat) returns (options: seq<HeaderOption>, end: nat)
    requires |data| >= 4 && list < 2 && FromList(data, list, offset) != 0
    ensures FromList(data, list, offset) == FromList(data, list + 1, end)
    ensures offset <= end <= FromList(data, list, offset) <= |data|
    ensures ValidList(options) && (options != [] <==> Bit(data[1], ListFlag(list)))
    ensures data[offset..end] == EncodeList(options)
  {
    FromListBounds(data, list, offset);
    if Bit(data[1], ListFlag(list)) {
      end := ListEnd(data, offset).value;
      FromListBounds(data, list + 1, end);
      options := ListSound(data, offset);
    } else {
      end, options := offset, [];
    }
  }

  lemma {:induction false} FromListBounds(data: Bytes, list: nat, offset: nat)
    requires |data| >= 4 && list <= 2
    ensures FromList(data, list, offset) != 0 ==> offset <= FromList(data, list, offset) <= |data|
    decreases 2 - list
  {
    if list < 2 {
      if Bit(data[1], ListFlag(list)) {
        if ListEnd(data, offset).Some? {
          FromListBounds(data, list + 1, ListEnd(data, offset).value);
        }
      } else {
        FromListBounds(data, list + 1, offset);
      }
    }
  }

  /** The flags octet taken apart and put together again. */
  lemma FlagsSplit(flags: byte)
    ensures flags == flags / 16 * 16 + One(Bit(flags, 8)) * 8 + One(Bit(flags, 4)) * 4 + One(Bit(flags, 2)) * 2 +
                     One(Bit(flags, 1))
  {
    assert flags == 2 * (flags / 2) + flags % 2;
    assert flags / 2 == 2 * (flags / 4) + flags / 2 % 2;
    assert flags / 4 == 2 * (flags / 8) + flags / 4 % 2;
    assert flags / 8 == 2 * (flags / 16) + flags / 8 % 2;
  }

  lemma FixedSound(data: Bytes, options: seq<seq<HeaderOption>>) returns (h: Header)
    requires |data| >= 4 && FixedPart(data[1]) <= |data| && |options| == 2
    requires ValidList(options[0]) && (options[0] != [] <==> Bit(data[1], 0x02))
    requires ValidList(options[1]) && (options[1] != [] <==> Bit(data[1], 0x01))
    ensures h.Valid() && h.options == options && data[..FixedPart(data[1])] == EncodeFixed(h)
  {
    var flags := data[1];
    var mid := if Bit(flags, ORIGINATING) then 10 else 4;
    var o := if Bit(flags, ORIGINATING) then Some(data[4..10]) else None;
    var d := if Bit(flags, DESTINATION) then Some(data[mid..mid + 6]) else None;
    h := Header(data[0], flags / 16, data[2], data[3], o, d, options);
    FlagsSplit(flags);
    assert h.Flags() == flags;
    assert data[4..mid] == Optional(o) && data[mid..FixedPart(flags)] == Optional(d);
    CutThree(data[..FixedPart(flags)], 4, mid);
    assert data[..4] == [data[0], flags, data[2], data[3]];
  }

  /** BvlcPayloadOffset returns a non-zero offset exactly when the data up to there is an encoded header; it is
      then between 4 and the length, and there is only one such offset. */
  lemma OffsetIffHeader(data: Bytes, r: nat)
    ensures r != 0 && PayloadOffset(data) == r <==>
            4 <= r <= |data| && exists h: Header :: h.Valid() && data[..r] == Encode(h)
  {
    if r != 0 && PayloadOffset(data) == r {
      var h := HeaderSound(data);
      assert data[..r] == Encode(h);
    }
    if 4 <= r <= |data| && exists h: Header :: h.Valid() && data[..r] == Encode(h) {
      var h: Header :| h.Valid() && data[..r] == Encode(h);
      assert data[0..r] == Encode(h);
      OccursSlice(data, Encode(h), 0);
      OffsetOfEncodedHeader(h, data);
    }
  }

  lemma HeaderSound(data: Bytes) returns (h: Header)
    requires PayloadOffset(data) != 0
    ensures 4 <= PayloadOffset(data) <= |data|
    ensures h.Valid() && data[..PayloadOffset(data)] == Encode(h)
  {
    var r, fixed := PayloadOffset(data), FixedPart(data[1]);
    var first, mid := FlaggedList(data, 0, fixed);
    var second, end := FlaggedList(data, 1, mid);
    assert end == r;
    h := FixedSound(data, [first, second]);
    JoinSlices(data, fixed, mid, r);
  }

  lemma JoinSlices(data: Bytes, a: nat, b: nat, c: nat)
    requires a <= b <= c <= |data|
    ensures data[..c] == data[..a] + data[a..b] + data[b..c]
  {
  }
}
