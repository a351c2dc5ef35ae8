/** The value types every other module uses: octets, octet strings, and the two result types. */
module Octets {

  datatype Option<+T> = None | Some(value: T)

  datatype Result<+T, +E> = Ok(value: T) | Err(error: E)

  /** An octet of a text or of a file's contents (C++ `char`), and a `std::string` of them. */
  type Octet = c: char | c as int < 0x100 witness ' '
  type Text = seq<Octet>

  /** A `uint8_t`, and a buffer of them. */
  type byte = x: int | 0 <= x < 0x100
  type Bytes = seq<byte>

  /** Bit `k` of an octet, as the masks `0x01`, `0x02`, ... `0x80` test it. */
  predicate Bit(b: byte, mask: int)
    requires mask in {1, 2, 4, 8, 16, 32, 64, 128}
  {
    match mask
    case 1 => b % 2 == 1
    case 2 => b / 2 % 2 == 1
    case 4 => b / 4 % 2 == 1
    case 8 => b / 8 % 2 == 1
    case 16 => b / 16 % 2 == 1
    case 32 => b / 32 % 2 == 1
    case 64 => b / 64 % 2 == 1
    case _ => b / 128 == 1
  }

  /** Two and four octets, most significant first. */
  function U16(data: Bytes, at: nat): (r: nat)
    requires at + 2 <= |data|
    ensures r < 0x10000
  {
    0x100 * (data[at] as int) + data[at + 1] as int
  }

  function U32(data: Bytes, at: nat): (r: nat)
    requires at + 4 <= |data|
    ensures r < 0x1_0000_0000
  {
    0x10000 * U16(data, at) + U16(data, at + 2)
  }

  /** `pat` stands at position `at` of `text`. */
  predicate OccursAt<T(==)>(text: seq<T>, pat: seq<T>, at: nat) {
    at + |pat| <= |text| && forall i :: 0 <= i < |pat| ==> text[at + i] == pat[i]
  }

  predicate StartsWith(text: Text, prefix: Text) {
    OccursAt(text, prefix, 0)
  }

  predicate EndsWith(text: Text, suffix: Text) {
    |suffix| <= |text| && OccursAt(text, suffix, |text| - |suffix|)
  }

  /** `pat` does not stand anywhere from `pos` up to `end`. */
  predicate Absent(text: Text, pat: Text, pos: nat, end: nat) {
    forall k :: pos <= k < end ==> !OccursAt(text, pat, k)
  }

  /** `std::string::find`: where `pat` occurs first, at or after `pos`. */
  function Find(text: Text, pat: Text, pos: nat): (at: Option<nat>)
    ensures at.Some? ==> pos <= at.value && at.value + |pat| <= |text|
    decreases |text| - pos
  {
    if pos + |pat| > |text| then None
    else if OccursAt(text, pat, pos) then Some(pos)
    else Find(text, pat, pos + 1)
  }

  /** What is found is an occurrence, and there is none before it; and that determines it. */
  lemma {:induction false} FindIsFirst(text: Text, pat: Text, pos: nat, at: nat)
    ensures Find(text, pat, pos) == Some(at) <==>
            pos <= at && OccursAt(text, pat, at) && Absent(text, pat, pos, at)
    decreases |text| - pos
  {
    if pos + |pat| <= |text| && !OccursAt(text, pat, pos) {
      FindIsFirst(text, pat, pos + 1, at);
    }
  }

  lemma {:induction false} FindNone(text: Text, pat: Text, pos: nat)
    ensures Find(text, pat, pos) == None <==> Absent(text, pat, pos, |text| + 1)
    decreases |text| - pos
  {
    if pos + |pat| <= |text| {
      if !OccursAt(text, pat, pos) {
        FindNone(text, pat, pos + 1);
      }
    }
  }

  /** What stands at a place is a concatenation exactly when its two parts stand there one after the other. */
  lemma OccursSplit<T>(text: seq<T>, a: seq<T>, b: seq<T>, at: nat)
    ensures OccursAt(text, a + b, at) <==> OccursAt(text, a, at) && OccursAt(text, b, at + |a|)
  {
    if OccursAt(text, a + b, at) {
      forall i | 0 <= i < |a|
        ensures text[at + i] == a[i]
      {
        assert (a + b)[i] == a[i];
      }
      forall i | 0 <= i < |b|
        ensures text[at + |a| + i] == b[i]
      {
        assert (a + b)[|a| + i] == b[i];
      }
    }
    if OccursAt(text, a, at) && OccursAt(text, b, at + |a|) {
      forall i | 0 <= i < |a + b|
        ensures text[at + i] == (a + b)[i]
      {
        if i >= |a| {
          assert text[at + |a| + (i - |a|)] == b[i - |a|];
        }
      }
    }
  }

  lemma OccursWithin<T>(text: seq<T>, pat: seq<T>, at: nat)
    requires OccursAt(text, pat, at)
    ensures at + |pat| <= |text|
  {
  }

  /** A slice is what stands there. */
  lemma OccursSlice<T>(text: seq<T>, pat: seq<T>, at: nat)
    ensures OccursAt(text, pat, at) <==> at + |pat| <= |text| && text[at..at + |pat|] == pat
  {
    if at + |pat| <= |text| {
      if OccursAt(text, pat, at) {
        assert text[at..at + |pat|] == pat;
      }
      if text[at..at + |pat|] == pat {
        assert forall i :: 0 <= i < |pat| ==> text[at..at + |pat|][i] == pat[i];
      }
    }
  }

  /** Occurrences that lie inside one part of a text are the occurrences of that part. */
  lemma OccursInside(before: Text, part: Text, after: Text, pat: Text, k: nat)
    requires k + |pat| <= |part|
    ensures OccursAt(before + part + after, pat, |before| + k) == OccursAt(part, pat, k)
  {
    var whole := before + part + after;
    assert whole[|before|..|before| + |part|] == part;
  }

  /** The first occurrence inside a part is the first one of the whole text from the same place. */
  lemma FindInside(before: Text, part: Text, after: Text, pat: Text, pos: nat, at: nat)
    requires at + |pat| <= |part|
    ensures Find(before + part + after, pat, |before| + pos) == Some(|before| + at) <==> Find(part, pat, pos) == Some(at)
  {
    var whole := before + part + after;
    FindIsFirst(part, pat, pos, at);
    FindIsFirst(whole, pat, |before| + pos, |before| + at);
    OccursInside(before, part, after, pat, at);
    forall k | pos <= k < at
      ensures OccursAt(whole, pat, |before| + k) == OccursAt(part, pat, k)
    {
      OccursInside(before, part, after, pat, k);
    }
    forall k | |before| + pos <= k < |before| + at && OccursAt(whole, pat, k)
      ensures OccursAt(part, pat, k - |before|)
    {
      OccursInside(before, part, after, pat, k - |before|);
    }
  }

  /** A tail cut in three. */
  lemma CutTail<T>(s: seq<T>, a: nat, b: nat, c: nat)
    requires a <= b <= c <= |s|
    ensures s[a..] == s[a..b] + s[b..c] + s[c..]
  {
  }

  lemma CutThree<T>(s: seq<T>, b: nat, c: nat)
    requires b <= c <= |s|
    ensures s == s[..b] + s[b..c] + s[c..]
  {
  }

  lemma TailParts<T>(s: seq<T>, at: nat, a: seq<T>, b: seq<T>, c: seq<T>)
    requires at <= |s| && s[at..] == a + b + c
    ensures at + |a| + |b| <= |s|
    ensures s[at..at + |a|] == a && s[at + |a|..at + |a| + |b|] == b && s[at + |a| + |b|..] == c
  {
    assert s == s[..at] + (a + b + c);
  }
}
