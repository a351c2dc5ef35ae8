/** How far IsValidUtf8 is from the grammar of section 4 of RFC 3629: which accepted texts are UTF-8, and that cutting
    one that is UTF-8 leaves UTF-8. */
module Utf8Strict {
  import opened Octets
  import opened Utf8

  /** A character of the grammar: UTF8-1, UTF8-2, UTF8-3 or UTF8-4. */
  predicate IsStrictChar(c: Bytes) {
    match |c|
    case 1 => c[0] <= 0x7F
    case 2 => 0xC2 <= c[0] <= 0xDF && IsContinuation(c[1])
    case 3 =>
      IsContinuation(c[2]) &&
      ((c[0] == 0xE0 && 0xA0 <= c[1] <= 0xBF) || (0xE1 <= c[0] <= 0xEC && IsContinuation(c[1])) ||
       (c[0] == 0xED && 0x80 <= c[1] <= 0x9F) || (0xEE <= c[0] <= 0xEF && IsContinuation(c[1])))
    case 4 =>
      IsContinuation(c[2]) && IsContinuation(c[3]) &&
      ((c[0] == 0xF0 && 0x90 <= c[1] <= 0xBF) || (0xF1 <= c[0] <= 0xF3 && IsContinuation(c[1])) ||
       (c[0] == 0xF4 && 0x80 <= c[1] <= 0x8F))
    case _ => false
  }

  /** The number that a character's bits make. */
  function CodePoint(c: Bytes): nat
    requires IsChar(c)
  {
    var lead: int := c[0];
    match |c|
    case 1 => lead
    case 2 => 0x40 * (lead % 0x20) + Low(c[1])
    case 3 => 0x1000 * (lead % 0x10) + 0x40 * Low(c[1]) + Low(c[2])
    case _ => 0x40000 * (lead % 0x08) + 0x1000 * Low(c[1]) + 0x40 * Low(c[2]) + Low(c[3])
  }

  function Low(b: byte): nat {
    b % 0x40
  }

  /** That number needs that many octets, is no surrogate, and is at most U+10FFFF. */
  predicate IsScalar(c: Bytes)
    requires IsChar(c)
  {
    LeastNumber(|c|) <= CodePoint(c) <= 0x10FFFF && !(0xD800 <= CodePoint(c) <= 0xDFFF)
  }

  /** The least number that needs this many octets. */
  function LeastNumber(octets: nat): nat {
    match octets
    case 2 => 0x80
    case 3 => 0x800
    case 4 => 0x10000
    case _ => 0
  }

  /** A character of the accepted shape is one of the grammar exactly when its number is in order. */
  lemma StrictIffNumber(c: Bytes)
    requires IsChar(c)
    ensures IsStrictChar(c) <==> IsScalar(c)
  {
    assert forall k :: 1 <= k < |c| ==> IsContinuation(c[k]);
    if |c| == 4 {
      FourOctets(c);
    } else if |c| == 3 {
      ThreeOctets(c);
    }
  }

  lemma ThreeOctets(c: Bytes)
    requires IsChar(c) && |c| == 3
    ensures IsStrictChar(c) <==> IsScalar(c)
  {
    var lead: int, second: int, third: int := c[0] as int - 0xE0, c[1] as int - 0x80, c[2] as int - 0x80;
    assert IsContinuation(c[1]) && IsContinuation(c[2]);
    assert CodePoint(c) == 0x1000 * lead + 0x40 * second + third;
  }

  lemma FourOctets(c: Bytes)
    requires IsChar(c) && |c| == 4
    ensures IsStrictChar(c) <==> IsScalar(c)
  {
    var lead: int, second: int := c[0] as int - 0xF0, c[1] as int - 0x80;
    var third: int, fourth: int := c[2] as int - 0x80, c[3] as int - 0x80;
    assert IsContinuation(c[1]) && IsContinuation(c[2]) && IsContinuation(c[3]);
    assert CodePoint(c) == 0x40000 * lead + 0x1000 * second + 0x40 * third + fourth;
  }

  lemma StrictIsChar(c: Bytes)
    requires IsStrictChar(c)
    ensures IsChar(c)
  {
  }

  ghost predicate IsStrictSequence(text: Bytes, chars: seq<Bytes>) {
    text == Flatten(chars) && forall i :: 0 <= i < |chars| ==> IsStrictChar(chars[i])
  }

  /** UTF-8 as the grammar has it. */
  ghost predicate IsStrict(text: Bytes) {
    exists chars :: IsStrictSequence(text, chars)
  }

  /** A text is cut into characters in one way only. */
  lemma {:induction false} OneWay(chars: seq<Bytes>, others: seq<Bytes>)
    requires forall i :: 0 <= i < |chars| ==> IsChar(chars[i])
    requires forall i :: 0 <= i < |others| ==> IsChar(others[i])
    requires Flatten(chars) == Flatten(others)
    ensures chars == others
    decreases |chars|
  {
    if chars != [] && others != [] {
      var c, d, rest, more := chars[0], others[0], Flatten(chars[1..]), Flatten(others[1..]);
      assert IsChar(c) && IsChar(d);
      assert (c + rest)[0] == c[0] && (d + more)[0] == d[0];
      assert |c| == |d|;
      assert c == (c + rest)[..|c|] == (d + more)[..|d|] == d;
      assert rest == (c + rest)[|c|..] == (d + more)[|d|..] == more;
      OneWay(chars[1..], others[1..]);
      assert chars == [c] + chars[1..] && others == [d] + others[1..];
    }
  }

  /** Whatever is UTF-8 is accepted; and of the accepted texts exactly those are UTF-8 in which no character is overlong,
      a surrogate, or above U+10FFFF. */
  lemma StrictIff(text: Bytes)
    ensures IsStrict(text) ==> IsValid(text)
    ensures forall chars :: IsCharSequence(text, chars) ==>
              (IsStrict(text) <==> forall i :: 0 <= i < |chars| ==> IsScalar(chars[i]))
  {
    hide IsStrictChar, IsChar, IsScalar, Flatten;
    if strict :| IsStrictSequence(text, strict) {
      forall i | 0 <= i < |strict|
        ensures IsChar(strict[i])
      {
        StrictIsChar(strict[i]);
      }
      assert IsCharSequence(text, strict);
      ValidIffChars(text);
      forall chars | IsCharSequence(text, chars)
        ensures chars == strict
      {
        OneWay(chars, strict);
      }
    }
    forall chars | IsCharSequence(text, chars)
      ensures (forall i :: 0 <= i < |chars| ==> IsScalar(chars[i])) <==> IsStrictSequence(text, chars)
    {
      forall i | 0 <= i < |chars|
        ensures IsStrictChar(chars[i]) <==> IsScalar(chars[i])
      {
        StrictIffNumber(chars[i]);
      }
    }
  }

  /** One accepted text of each kind that is not UTF-8. */
  lemma LooserThanGrammar()
    ensures IsChar([0xC0, 0x80]) && CodePoint([0xC0, 0x80]) < LeastNumber(2)
    ensures IsChar([0xED, 0xA0, 0x80]) && CodePoint([0xED, 0xA0, 0x80]) == 0xD800
    ensures IsChar([0xF5, 0x80, 0x80, 0x80]) && CodePoint([0xF5, 0x80, 0x80, 0x80]) > 0x10FFFF
  {
  }

  // ---- Cutting ------------------------------------------------------------

  /** An accepted prefix of a text ends where one of its characters ends. */
  lemma {:induction false} PrefixOfChars(chars: seq<Bytes>, k: nat) returns (m: nat)
    requires forall i :: 0 <= i < |chars| ==> IsChar(chars[i])
    requires k <= |Flatten(chars)| && IsValid(Flatten(chars)[..k])
    ensures m <= |chars| && Flatten(chars[..m]) == Flatten(chars)[..k]
    decreases |chars|
  {
    if k == 0 {
      m := 0;
    } else {
      FirstCharInPrefix(chars, k);
      var more := PrefixOfChars(chars[1..], k - |chars[0]|);
      m := more + 1;
      FirstCharAndMore(chars, more);
    }
  }

  /** A prefix that is accepted has the whole first character, and what is left of it is accepted too. */
  lemma FirstCharInPrefix(chars: seq<Bytes>, k: nat)
    requires forall i :: 0 <= i < |chars| ==> IsChar(chars[i])
    requires 0 < k <= |Flatten(chars)| && IsValid(Flatten(chars)[..k])
    ensures chars != [] && |chars[0]| <= k
    ensures var n, rest := |chars[0]|, Flatten(chars[1..]);
            k - n <= |rest| && IsValid(rest[..k - n]) && Flatten(chars)[..k] == chars[0] + rest[..k - n]
  {
    var text, c, rest := Flatten(chars), chars[0], Flatten(chars[1..]);
    var n := |c|;
    assert IsChar(c) && text == c + rest;
    assert text[..k][0] == c[0];
    assert text[..k][n..] == rest[..k - n];
    assert text[..k] == c + rest[..k - n];
  }

  lemma FirstCharAndMore(chars: seq<Bytes>, more: nat)
    requires chars != [] && more < |chars|
    ensures Flatten(chars[..more + 1]) == chars[0] + Flatten(chars[1..][..more])
  {
    assert chars[..more + 1][0] == chars[0] && chars[..more + 1][1..] == chars[1..][..more];
  }

  /** So what ReturnCharacterString leaves of UTF-8 is UTF-8. */
  lemma CutKeepsStrict(text: Bytes, maxElementCount: nat)
    requires IsStrict(text)
    ensures IsStrict(text[..Cut(text, maxElementCount)])
  {
    hide IsStrictChar, IsChar, Flatten, BackUp;
    var strict :| IsStrictSequence(text, strict);
    StrictIff(text);
    var n := Cut(text, maxElementCount);
    if maxElementCount > 0 {
      CutIsLongestValidPrefix(text, maxElementCount);
    } else {
      assert text[..n] == text;
    }
    forall i | 0 <= i < |strict|
      ensures IsChar(strict[i])
    {
      StrictIsChar(strict[i]);
    }
    var m := PrefixOfChars(strict, n);
    assert IsStrictSequence(text[..n], strict[..m]);
  }
}
