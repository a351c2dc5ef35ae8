/** UTF-8 well-formedness by byte shapes, and cutting a string to a buffer (main.cpp). The shapes are those of
    section 3 of RFC 3629; overlong forms are not refused. */
module Utf8 {
  import opened Octets

  predicate IsContinuation(b: byte) {
    0x80 <= b < 0xC0
  }

  /** How many continuation bytes follow a lead byte. */
  function Extra(lead: byte): Option<nat> {
    if lead < 0x80 then Some(0)
    else if 0xC0 <= lead < 0xE0 then Some(1)
    else if 0xE0 <= lead < 0xF0 then Some(2)
    else if 0xF0 <= lead < 0xF8 then Some(3)
    else None
  }

  /** One character: a lead byte and as many continuation bytes as it announces. */
  predicate IsChar(c: Bytes) {
    c != [] && Extra(c[0]) == Some(|c| - 1) && forall k :: 1 <= k < |c| ==> IsContinuation(c[k])
  }

  predicate StartsWithChar(text: Bytes, n: nat) {
    n <= |text| && IsChar(text[..n])
  }

  predicate IsValid(text: Bytes)
    decreases |text|
  {
    text == [] || (Extra(text[0]).Some? && var n := Extra(text[0]).value + 1; StartsWithChar(text, n) && IsValid(text[n..]))
  }

  /** The loop of IsValidUtf8. */
  method IsValidUtf8(text: Bytes) returns (ok: bool)
    ensures ok == IsValid(text)
  {
    var i := 0;
    assert text[0..] == text;
    while i < |text|
      invariant i <= |text| && IsValid(text) == IsValid(text[i..])
    {
      var extra := Extra(text[i]);
      if extra.None? {
        return false;
      }
      if i + extra.value >= |text| {
        return false;  // ends inside a character
      }
      for k := 1 to extra.value + 1
        invariant forall j :: i + 1 <= j < i + k ==> IsContinuation(text[j])
      {
        if !IsContinuation(text[i + k]) {
          assert text[i..][..extra.value + 1][k] == text[i + k];
          return false;
        }
      }
      var n := extra.value + 1;
      assert IsChar(text[i..i + n]) && text[i..][..n] == text[i..i + n];
      assert text[i + n..] == text[i..][n..];
      i := i + n;
    }
    return true;
  }

  function Flatten(chars: seq<Bytes>): Bytes {
    if chars == [] then [] else chars[0] + Flatten(chars[1..])
  }

  ghost predicate IsCharSequence(text: Bytes, chars: seq<Bytes>) {
    text == Flatten(chars) && forall i :: 0 <= i < |chars| ==> IsChar(chars[i])
  }

  /** IsValidUtf8 accepts exactly the concatenations of characters. */
  lemma ValidIffChars(text: Bytes)
    ensures IsValid(text) <==> exists chars :: IsCharSequence(text, chars)
  {
    if IsValid(text) {
      var chars := CharsOf(text);
      assert IsCharSequence(text, chars);
    }
    if chars :| IsCharSequence(text, chars) {
      CharsAreValid(chars);
    }
  }

  lemma {:induction false} CharsOf(text: Bytes) returns (chars: seq<Bytes>)
    requires IsValid(text)
    ensures IsCharSequence(text, chars)
    decreases |text|
  {
    if text == [] {
      chars := [];
    } else {
      var n := Extra(text[0]).value + 1;
      var rest := CharsOf(text[n..]);
      chars := [text[..n]] + rest;
      assert chars[1..] == rest && text == text[..n] + text[n..];
    }
  }

  lemma {:induction false} CharsAreValid(chars: seq<Bytes>)
    requires forall i :: 0 <= i < |chars| ==> IsChar(chars[i])
    ensures IsValid(Flatten(chars))
  {
    if chars != [] {
      CharsAreValid(chars[1..]);
      var c, rest := chars[0], Flatten(chars[1..]);
      assert (c + rest)[..|c|] == c && (c + rest)[|c|..] == rest;
      assert IsChar(c);
    }
  }

  /** In a valid text, the valid proper prefixes are those that end before a lead byte. */
  lemma {:induction false} ValidPrefix(text: Bytes, k: nat)
    requires IsValid(text) && k < |text|
    ensures IsValid(text[..k]) <==> !IsContinuation(text[k])
    decreases |text|
  {
    var n := Extra(text[0]).value + 1;
    assert IsChar(text[..n]) && text[..n][0] == text[0];
    if 0 < k < n {
      assert text[..n][k] == text[k] && text[..k][0] == text[0];
    } else if n <= k {
      ValidPrefix(text[n..], k - n);
      assert text[..k][n..] == text[n..][..k - n] && text[..k][..n] == text[..n];
    }
  }

  /** Where ReturnCharacterString cuts: backing up from `length` over continuation bytes. */
  function BackUp(text: Bytes, length: nat): (n: nat)
    requires length < |text|
    ensures n <= length
  {
    if length > 0 && IsContinuation(text[length]) then BackUp(text, length - 1) else length
  }

  function Cut(text: Bytes, maxElementCount: nat): (n: nat)
    ensures n <= |text|
  {
    if maxElementCount > 0 && |text| >= maxElementCount then BackUp(text, maxElementCount - 1) else |text|
  }

  /** Copies as much of `text` (which has no NUL in it) as ends on a character boundary and leaves one element of
      the buffer free; a buffer size of 0 means no limit. */
  method ReturnCharacterString(text: Bytes, value: array<byte>, maxElementCount: nat) returns (valueElementCount: nat)
    requires 0 !in text
    requires if maxElementCount > 0 then maxElementCount <= value.Length else |text| <= value.Length
    modifies value
    ensures valueElementCount == Cut(text, maxElementCount) <= value.Length
    ensures value[..] == text[..valueElementCount] + old(value[valueElementCount..])
  {
    var length := |text|;
    if maxElementCount > 0 && length >= maxElementCount {
      length := maxElementCount - 1;
      while length > 0 && IsContinuation(text[length])
        invariant length < |text| && length < maxElementCount
        invariant BackUp(text, length) == Cut(text, maxElementCount)
      {
        length := length - 1;
      }
    }
    forall i | 0 <= i < length {
      value[i] := text[i];
    }
    return length;
  }

  /** The cut is the longest prefix shorter than the buffer that is itself valid; the whole text if it fits. */
  lemma CutIsLongestValidPrefix(text: Bytes, maxElementCount: nat)
    requires IsValid(text) && maxElementCount > 0
    ensures var n := Cut(text, maxElementCount);
            n < maxElementCount && IsValid(text[..n]) && (|text| < maxElementCount ==> n == |text|)
    ensures forall k :: Cut(text, maxElementCount) < k < maxElementCount && k <= |text| ==> !IsValid(text[..k])
  {
    if |text| < maxElementCount {
      assert text[..|text|] == text;
    } else {
      BackUpIsLongest(text, maxElementCount - 1);
    }
  }

  lemma {:induction false} BackUpIsLongest(text: Bytes, length: nat)
    requires IsValid(text) && length < |text|
    ensures IsValid(text[..BackUp(text, length)])
    ensures forall k :: BackUp(text, length) < k <= length ==> !IsValid(text[..k])
  {
    ValidPrefix(text, length);
    if length > 0 && IsContinuation(text[length]) {
      BackUpIsLongest(text, length - 1);
    }
  }

  /** An overlong form of NUL has a character's shape, so it is accepted. */
  lemma OverlongAccepted()
    ensures IsValid([0xC0, 0x80])
  {
    assert [0xC0, 0x80][..2] == [0xC0, 0x80];
  }
}
