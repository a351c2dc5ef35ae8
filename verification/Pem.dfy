/** Splitting a PEM blob into its blocks (cert_store.cpp, SplitPemBlocks). */
module Pem {
  import opened Octets

  /** The texts around a block of one kind: "-----BEGIN ", the kind, "-----", and the END marker. */
  datatype Marks = Marks(begin: Text, kind: Text, dashes: Text, end: Text) {
    predicate Usable() {
      begin != [] && !IsSpace(begin[0]) && dashes != [] && |dashes| < |end|
    }

    /** The END marker is as many hyphens as the dashes are, and then an E. */
    predicate Standard() {
      Usable() && (forall i :: 0 <= i < |dashes| ==> dashes[i] == '-' && end[i] == '-') && end[|dashes|] == 'E'
    }

    /** Where the kind ends, counted from the start of the block. */
    function KindEnd(): nat {
      |begin| + |kind|
    }
  }

  function MarksOf(kind: Text): (m: Marks)
    ensures m.Standard()
  {
    Marks("-----BEGIN ", kind, "-----", "-----END " + kind + "-----")
  }

  predicate IsSpace(c: Octet) {
    c == ' ' || c == '\t' || c == '\r' || c == '\n'
  }

  predicate Blank(text: Text) {
    forall k :: 0 <= k < |text| ==> IsSpace(text[k])
  }

  datatype PemError = TextOutside | UnterminatedHeader | WrongKind(found: Text) | NoEndLine

  /** The next block at or after `pos`, as its start and its end; None when only white space is left. */
  function Next(pem: Text, m: Marks, pos: nat): (r: Result<Option<(nat, nat)>, PemError>)
    requires pos <= |pem| && m.Usable()
    ensures r.Ok? && r.value.Some? ==> pos <= r.value.value.0 < r.value.value.1 <= |pem|
  {
    var begin := Find(pem, m.begin, pos);
    var gapEnd := if begin.None? then |pem| else begin.value;
    if !Blank(pem[pos..gapEnd]) then Err(TextOutside)
    else if begin.None? then Ok(None)
    else
      var kindEnd := Find(pem, m.dashes, begin.value + |m.begin|);
      if kindEnd.None? then Err(UnterminatedHeader)
      else if pem[begin.value + |m.begin|..kindEnd.value] != m.kind then
        Err(WrongKind(pem[begin.value + |m.begin|..kindEnd.value]))
      else
        var end := Find(pem, m.end, kindEnd.value);
        if end.None? then Err(NoEndLine) else Ok(Some((begin.value, end.value + |m.end|)))
  }

  function SplitBlocks(pem: Text, m: Marks, pos: nat): (r: Result<seq<Text>, PemError>)
    requires pos <= |pem| && m.Usable()
    decreases |pem| - pos
  {
    match Next(pem, m, pos)
    case Err(e) => Err(e)
    case Ok(None) => Ok([])
    case Ok(Some((begin, end))) =>
      match SplitBlocks(pem, m, end)
      case Err(e) => Err(e)
      case Ok(rest) => Ok([pem[begin..end]] + rest)
  }

  function Prepend(blocks: seq<Text>, r: Result<seq<Text>, PemError>): Result<seq<Text>, PemError> {
    match r
    case Err(e) => Err(e)
    case Ok(rest) => Ok(blocks + rest)
  }

  /** The loop of SplitPemBlocks; it ends because `pos` strictly grows. */
  method SplitPemBlocks(pem: Text, m: Marks) returns (r: Result<seq<Text>, PemError>)
    requires m.Usable()
    ensures r == SplitBlocks(pem, m, 0)
  {
    var blocks: seq<Text> := [];
    var pos := 0;
    PrependNothing(SplitBlocks(pem, m, 0));
    while true
      invariant pos <= |pem|
      invariant SplitBlocks(pem, m, 0) == Prepend(blocks, SplitBlocks(pem, m, pos))
      decreases |pem| - pos
    {
      SplitUnfolds(pem, m, pos, blocks);
      match Next(pem, m, pos) {
        case Err(reason) =>
          return Err(reason);
        case Ok(None) =>
          return Ok(blocks);
        case Ok(Some((begin, end))) =>
          blocks := blocks + [pem[begin..end]];
          pos := end;
      }
    }
  }

  lemma PrependNothing(r: Result<seq<Text>, PemError>)
    ensures Prepend([], r) == r
  {
    if r.Ok? {
      assert [] + r.value == r.value;
    }
  }

  /** One turn of the loop, in terms of what is still to come. */
  lemma SplitUnfolds(pem: Text, m: Marks, pos: nat, blocks: seq<Text>)
    requires pos <= |pem| && m.Usable()
    ensures Prepend(blocks, SplitBlocks(pem, m, pos)) ==
            match Next(pem, m, pos)
            case Err(e) => Err(e)
            case Ok(None) => Ok(blocks)
            case Ok(Some((begin, end))) => Prepend(blocks + [pem[begin..end]], SplitBlocks(pem, m, end))
  {
    match Next(pem, m, pos)
    case Err(e) =>
    case Ok(None) => assert blocks + [] == blocks;
    case Ok(Some((begin, end))) => PrependTwice(blocks, [pem[begin..end]], SplitBlocks(pem, m, end));
  }

  lemma PrependTwice(a: seq<Text>, b: seq<Text>, r: Result<seq<Text>, PemError>)
    ensures Prepend(a, Prepend(b, r)) == Prepend(a + b, r)
  {
    if r.Ok? {
      assert a + (b + r.value) == a + b + r.value;
    }
  }

  /** A block with the wanted BEGIN line that closes at its first END marker, and nothing after it. */
  predicate IsBlock(b: Text, m: Marks) {
    |m.end| <= |b| && m.KindEnd() <= |b| && StartsWith(b, m.begin) &&
    OccursAt(b, m.kind, |m.begin|) && Find(b, m.dashes, |m.begin|) == Some(m.KindEnd()) &&
    Find(b, m.end, m.KindEnd()) == Some(|b| - |m.end|)
  }

  /** White space, a block, white space, a block, ... white space. */
  function Interleave(gaps: seq<Text>, blocks: seq<Text>): Text
    requires |gaps| == |blocks| + 1
  {
    if blocks == [] then gaps[0] else gaps[0] + blocks[0] + Interleave(gaps[1..], blocks[1..])
  }

  predicate IsLayout(text: Text, m: Marks, gaps: seq<Text>, blocks: seq<Text>) {
    |gaps| == |blocks| + 1 && text == Interleave(gaps, blocks) &&
    (forall i :: 0 <= i < |gaps| ==> Blank(gaps[i])) &&
    (forall i :: 0 <= i < |blocks| ==> IsBlock(blocks[i], m))
  }

  /** SplitPemBlocks accepts exactly the texts that are whitespace gaps interleaved with blocks, and
      returns exactly those blocks, in order. */
  lemma SplitAcceptsExactlyLayouts(pem: Text, m: Marks, blocks: seq<Text>)
    requires m.Usable()
    ensures SplitBlocks(pem, m, 0) == Ok(blocks) <==> exists gaps :: IsLayout(pem, m, gaps, blocks)
  {
    assert pem[0..] == pem;
    if SplitBlocks(pem, m, 0) == Ok(blocks) {
      var gaps := SplitSound(pem, m, 0, blocks);
      assert IsLayout(pem, m, gaps, blocks);
    }
    if gaps :| IsLayout(pem, m, gaps, blocks) {
      SplitComplete(pem, m, 0, gaps, blocks);
    }
  }

  /** The three searches from the start of a block find its parts. */
  predicate PartsAt(pem: Text, m: Marks, begin: nat, end: nat) {
    OccursAt(pem, m.begin, begin) && OccursAt(pem, m.kind, begin + |m.begin|) &&
    Find(pem, m.dashes, begin + |m.begin|) == Some(begin + m.KindEnd()) &&
    |m.end| <= end && Find(pem, m.end, begin + m.KindEnd()) == Some(end - |m.end|)
  }

  /** A block stands in a text exactly when the searches from its start find its parts. */
  lemma BlockInText(pem: Text, m: Marks, begin: nat, end: nat)
    requires begin <= end <= |pem| && m.Usable() && m.KindEnd() + |m.end| <= end - begin
    ensures IsBlock(pem[begin..end], m) <==> PartsAt(pem, m, begin, end)
  {
    CutThree(pem, begin, end);
    BlockInside(pem[..begin], pem[begin..end], pem[end..], m);
  }

  lemma BlockInside(before: Text, b: Text, after: Text, m: Marks)
    requires m.Usable() && m.KindEnd() + |m.end| <= |b|
    ensures IsBlock(b, m) <==> PartsAt(before + b + after, m, |before|, |before| + |b|)
  {
    OccursInside(before, b, after, m.begin, 0);
    OccursInside(before, b, after, m.kind, |m.begin|);
    FindInside(before, b, after, m.dashes, |m.begin|, m.KindEnd());
    FindInside(before, b, after, m.end, m.KindEnd(), |b| - |m.end|);
  }

  /** `Next` succeeds exactly when the text up to the BEGIN line is blank and its three searches succeed. */
  lemma NextFinds(pem: Text, m: Marks, pos: nat, begin: nat, end: nat)
    requires pos <= begin <= end <= |pem| && m.Usable()
    ensures Next(pem, m, pos) == Ok(Some((begin, end))) <==>
            Find(pem, m.begin, pos) == Some(begin) && Blank(pem[pos..begin]) &&
            PartsAt(pem, m, begin, end)
  {
    FindIsFirst(pem, m.begin, pos, begin);
    var kindAt := begin + |m.begin|;
    var kindEnd := Find(pem, m.dashes, kindAt);
    if kindEnd.Some? && kindEnd.value == kindAt + |m.kind| {
      assert pem[kindAt..kindEnd.value] == m.kind <==> OccursAt(pem, m.kind, kindAt);
    }
    if kindEnd.Some? && pem[kindAt..kindEnd.value] == m.kind {
      assert |pem[kindAt..kindEnd.value]| == |m.kind|;
    }
  }

  /** What `Next` finds is a gap and a block ... */
  lemma NextSound(pem: Text, m: Marks, pos: nat, begin: nat, end: nat)
    requires pos <= begin <= end <= |pem| && m.Usable() && Next(pem, m, pos) == Ok(Some((begin, end)))
    ensures Blank(pem[pos..begin]) && IsBlock(pem[begin..end], m)
  {
    NextFinds(pem, m, pos, begin, end);
    BlockInText(pem, m, begin, end);
  }

  /** ... and a gap with a block after it is what it finds. */
  lemma NextComplete(pem: Text, m: Marks, pos: nat, begin: nat, end: nat)
    requires pos <= begin <= end <= |pem| && m.Usable() && Blank(pem[pos..begin]) && IsBlock(pem[begin..end], m)
    ensures Next(pem, m, pos) == Ok(Some((begin, end)))
  {
    BlockInText(pem, m, begin, end);
    assert Find(pem, m.begin, pos) == Some(begin) by {
      NothingInBlank(pem, m.begin, pos, begin);
      FindIsFirst(pem, m.begin, pos, begin);
    }
    NextFinds(pem, m, pos, begin, end);
  }

  lemma NothingInBlank(pem: Text, pat: Text, pos: nat, end: nat)
    requires pos <= end <= |pem| && Blank(pem[pos..end]) && pat != [] && !IsSpace(pat[0])
    ensures Absent(pem, pat, pos, end)
  {
    assert forall k :: pos <= k < end ==> pem[k] == pem[pos..end][k - pos];
    assert forall k: nat :: OccursAt(pem, pat, k) ==> pem[k + 0] == pat[0];
  }

  lemma {:induction false} SplitSound(pem: Text, m: Marks, pos: nat, blocks: seq<Text>) returns (gaps: seq<Text>)
    requires pos <= |pem| && m.Usable() && SplitBlocks(pem, m, pos) == Ok(blocks)
    ensures IsLayout(pem[pos..], m, gaps, blocks)
    decreases |pem| - pos
  {
    match Next(pem, m, pos)
    case Ok(None) =>
      gaps := [pem[pos..]];
    case Ok(Some((begin, end))) =>
      NextSound(pem, m, pos, begin, end);
      var rest := SplitSound(pem, m, end, blocks[1..]);
      gaps := [pem[pos..begin]] + rest;
      assert gaps[1..] == rest;
      CutTail(pem, pos, begin, end);
  }

  lemma {:induction false} SplitComplete(pem: Text, m: Marks, pos: nat, gaps: seq<Text>, blocks: seq<Text>)
    requires pos <= |pem| && m.Usable() && IsLayout(pem[pos..], m, gaps, blocks)
    ensures SplitBlocks(pem, m, pos) == Ok(blocks)
    decreases |blocks|
  {
    if blocks == [] {
      assert Blank(gaps[0]);
      NextNothing(pem, m, pos);
    } else {
      var end := LayoutStep(pem, m, pos, gaps, blocks);
      SplitComplete(pem, m, end, gaps[1..], blocks[1..]);
      assert [blocks[0]] + blocks[1..] == blocks;
    }
  }

  lemma NextNothing(pem: Text, m: Marks, pos: nat)
    requires pos <= |pem| && m.Usable() && Blank(pem[pos..])
    ensures Next(pem, m, pos) == Ok(None)
  {
    assert pem[pos..|pem|] == pem[pos..];
    NothingInBlank(pem, m.begin, pos, |pem|);
    FindNone(pem, m.begin, pos);
  }

  /** The first block of a layout is found, and a layout remains. */
  lemma LayoutStep(pem: Text, m: Marks, pos: nat, gaps: seq<Text>, blocks: seq<Text>) returns (end: nat)
    requires pos <= |pem| && m.Usable() && IsLayout(pem[pos..], m, gaps, blocks) && blocks != []
    ensures pos < end <= |pem| && IsLayout(pem[end..], m, gaps[1..], blocks[1..])
    ensures exists begin :: pos <= begin <= end && Next(pem, m, pos) == Ok(Some((begin, end))) && pem[begin..end] == blocks[0]
  {
    hide Next, Blank, IsBlock;
    var begin := pos + |gaps[0]|;
    end := begin + |blocks[0]|;
    LayoutTail(pem[pos..], m, gaps, blocks);
    NextGapAndBlock(pem, m, pos, gaps[0], blocks[0], Interleave(gaps[1..], blocks[1..]));
    assert pem[begin..end] == blocks[0];
  }

  lemma LayoutTail(text: Text, m: Marks, gaps: seq<Text>, blocks: seq<Text>)
    requires m.Usable() && IsLayout(text, m, gaps, blocks) && blocks != []
    ensures Blank(gaps[0]) && IsBlock(blocks[0], m) && |blocks[0]| > 0
    ensures text == gaps[0] + blocks[0] + Interleave(gaps[1..], blocks[1..])
    ensures IsLayout(Interleave(gaps[1..], blocks[1..]), m, gaps[1..], blocks[1..])
  {
  }

  lemma NextGapAndBlock(pem: Text, m: Marks, pos: nat, gap: Text, b: Text, after: Text)
    requires pos <= |pem| && m.Usable() && pem[pos..] == gap + b + after && Blank(gap) && IsBlock(b, m)
    ensures var begin, end := pos + |gap|, pos + |gap| + |b|;
            end <= |pem| && pem[begin..end] == b && pem[end..] == after &&
            Next(pem, m, pos) == Ok(Some((begin, end)))
  {
    TailParts(pem, pos, gap, b, after);
    NextComplete(pem, m, pos, pos + |gap|, pos + |gap| + |b|);
  }

  /** A block as a PEM writer makes it: BEGIN line, body, END line. */
  function MakeBlock(m: Marks, body: Text): Text {
    m.begin + m.kind + m.dashes + (body + m.end)
  }

  /** The END marker's first occurrence in body and END line is the END line. */
  predicate GoodBody(m: Marks, body: Text) {
    Find(body + m.end, m.end, 0) == Some(|body|)
  }

  predicate StartsLine(body: Text) {
    body != [] && (body[0] == '\n' || body[0] == '\r')
  }

  /** Since the body starts a new line, the END marker is not found across the header's dashes. */
  lemma NoMarkerInHeader(m: Marks, head: Text, tail: Text)
    requires m.Standard() && tail != [] && tail[0] != '-' && tail[0] != 'E'
    ensures Absent(head + m.dashes + tail, m.end, |head|, |head| + |m.dashes|)
  {
    var whole := head + m.dashes + tail;
    forall k | |head| <= k < |head| + |m.dashes|
      ensures !OccursAt(whole, m.end, k)
    {
      var i := |head| + |m.dashes| - k;
      assert whole[k + i] == tail[0] != m.end[i];
    }
  }

  /** The header of a written block is found. */
  lemma HeaderIsFound(m: Marks, tail: Text)
    requires m.Standard() && '-' !in m.kind
    ensures var b := m.begin + m.kind + m.dashes + tail;
            OccursAt(b, m.begin, 0) && OccursAt(b, m.kind, |m.begin|) &&
            Find(b, m.dashes, |m.begin|) == Some(m.KindEnd())
  {
    var b := m.begin + m.kind + m.dashes + tail;
    OccursSplit(b, m.begin + m.kind + m.dashes, tail, 0);
    OccursSplit(b, m.begin + m.kind, m.dashes, 0);
    OccursSplit(b, m.begin, m.kind, 0);
    DashesAfterKind(b, m);
  }

  lemma DashesAfterKind(b: Text, m: Marks)
    requires m.Standard() && '-' !in m.kind
    requires OccursAt(b, m.kind, |m.begin|) && OccursAt(b, m.dashes, m.KindEnd())
    ensures Find(b, m.dashes, |m.begin|) == Some(m.KindEnd())
  {
    FindIsFirst(b, m.dashes, |m.begin|, m.KindEnd());
    forall k | |m.begin| <= k < m.KindEnd()
      ensures !OccursAt(b, m.dashes, k)
    {
      assert b[|m.begin| + (k - |m.begin|)] == m.kind[k - |m.begin|];
      assert b[k + 0] != m.dashes[0];
    }
  }

  /** With nothing found in the header, searching from inside it is searching the tail. */
  lemma MarkerFromHeaderOn(head: Text, tail: Text, pat: Text, pos: nat, at: nat)
    requires pos <= |head| && Absent(head + tail, pat, pos, |head|) && at + |pat| <= |tail|
    ensures Find(head + tail, pat, pos) == Some(|head| + at) <==> Find(tail, pat, 0) == Some(at)
  {
    var whole := head + tail;
    assert whole == head + tail + [];
    FindInside(head, tail, [], pat, 0, at);
    FindIsFirst(whole, pat, pos, |head| + at);
    FindIsFirst(whole, pat, |head|, |head| + at);
  }

  /** A written block whose body starts a new line is a block exactly when that body is good. */
  lemma MadeBlockIsBlock(m: Marks, body: Text)
    requires m.Standard() && '-' !in m.kind && StartsLine(body)
    ensures IsBlock(MakeBlock(m, body), m) <==> GoodBody(m, body)
  {
    hide Find, OccursAt;
    var head, tail := m.begin + m.kind + m.dashes, body + m.end;
    HeaderIsFound(m, tail);
    assert Absent(head + tail, m.end, m.KindEnd(), |head|) by {
      NoMarkerInHeader(m, m.begin + m.kind, tail);
    }
    MarkerFromHeaderOn(head, tail, m.end, m.KindEnd(), |body|);
    BlockParts(head + tail, m);
  }

  lemma BlockParts(b: Text, m: Marks)
    requires m.Standard() && OccursAt(b, m.begin, 0) && OccursAt(b, m.kind, |m.begin|)
    requires Find(b, m.dashes, |m.begin|) == Some(m.KindEnd()) && |m.end| <= |b|
    ensures IsBlock(b, m) <==> Find(b, m.end, m.KindEnd()) == Some(|b| - |m.end|)
  {
  }

  /** The pattern stands across the seam of `text + pat` when the text ends with its first `n` octets and the rest of it
      is also how it begins. */
  lemma AcrossSeam(text: Text, pat: Text, n: nat)
    requires 1 <= n <= |text| && n < |pat|
    ensures OccursAt(text + pat, pat, |text| - n) <==> EndsWith(text, pat[..n]) && pat[n..] == pat[..|pat| - n]
  {
    hide OccursAt;
    assert pat[..n] + pat[n..] == pat && text + pat == [] + text + pat == text + pat + [];
    OccursSplit(text + pat, pat[..n], pat[n..], |text| - n);
    OccursInside([], text, pat, pat[..n], |text| - n);
    OccursInside(text, pat, [], pat[n..], 0);
    OccursSlice(pat, pat[n..], 0);
  }

  /** An END marker ends as it begins for one to five octets, its hyphens, and for no more. */
  lemma EndBorders(kind: Text, n: nat)
    requires '-' !in kind && 1 <= n < |MarksOf(kind).end|
    ensures var end := MarksOf(kind).end; end[n..] == end[..|end| - n] <==> |end| - n <= 5
  {
    var end := MarksOf(kind).end;
    if |end| - n > 5 {
      var at := if n < 6 then 5 else n;
      assert end[at] != '-';
      assert end[n..][at - n] != end[..|end| - n][at - n];
    }
  }

  /** The body ends with an END marker that lacks its last `j` hyphens. */
  predicate LacksHyphens(m: Marks, body: Text, j: nat) {
    j < |m.end| && EndsWith(body, m.end[..|m.end| - j])
  }

  /** Where the END marker can stand in front of the END line: inside the body, or completed by hyphens of the END
      line. */
  lemma MarkerBeforeEndLine(kind: Text, body: Text, k: nat)
    requires '-' !in kind && k < |body|
    ensures var m := MarksOf(kind);
            OccursAt(body + m.end, m.end, k) <==>
            if k + |m.end| <= |body| then OccursAt(body, m.end, k)
            else k + |m.end| - |body| <= 5 && LacksHyphens(m, body, k + |m.end| - |body|)
  {
    var m := MarksOf(kind);
    hide OccursAt;
    if k + |m.end| <= |body| {
      assert body + m.end == [] + body + m.end;
      OccursInside([], body, m.end, m.end, k);
    } else {
      AcrossSeam(body, m.end, |body| - k);
      EndBorders(kind, |body| - k);
    }
  }

  /** Good bodies told without looking at the END line: no END marker in the body, and none at its end that lacks only
      hyphens. */
  lemma GoodBodyIff(kind: Text, body: Text)
    requires '-' !in kind
    ensures var m := MarksOf(kind);
            GoodBody(m, body) <==>
            Find(body, m.end, 0) == None && forall j :: 1 <= j <= 5 ==> !LacksHyphens(m, body, j)
  {
    var m := MarksOf(kind);
    hide Find, LacksHyphens;
    FindIsFirst(body + m.end, m.end, 0, |body|);
    FindNone(body, m.end, 0);
    forall k | 0 <= k < |body|
      ensures OccursAt(body + m.end, m.end, k) <==>
              if k + |m.end| <= |body| then OccursAt(body, m.end, k)
              else k + |m.end| - |body| <= 5 && LacksHyphens(m, body, k + |m.end| - |body|)
    {
      MarkerBeforeEndLine(kind, body, k);
    }
    forall j | 1 <= j <= 5 && LacksHyphens(m, body, j)
      ensures !Absent(body + m.end, m.end, 0, |body|)
    {
      LackingFits(m, body, j);
      assert OccursAt(body + m.end, m.end, |body| + j - |m.end|);
    }
  }

  lemma LackingFits(m: Marks, body: Text, j: nat)
    requires LacksHyphens(m, body, j)
    ensures j < |m.end| && |m.end| - j <= |body|
  {
  }

  /** Any list of written blocks joined by white space is split back into exactly that list. */
  lemma SplitReturnsWrittenBlocks(m: Marks, bodies: seq<Text>, gaps: seq<Text>, blocks: seq<Text>)
    requires m.Standard() && '-' !in m.kind && |gaps| == |bodies| + 1 && |blocks| == |bodies|
    requires forall i :: 0 <= i < |gaps| ==> Blank(gaps[i])
    requires forall i :: 0 <= i < |bodies| ==> StartsLine(bodies[i]) && GoodBody(m, bodies[i])
    requires forall i :: 0 <= i < |bodies| ==> blocks[i] == MakeBlock(m, bodies[i])
    ensures SplitBlocks(Interleave(gaps, blocks), m, 0) == Ok(blocks)
  {
    forall i | 0 <= i < |blocks|
      ensures IsBlock(blocks[i], m)
    {
      MadeBlockIsBlock(m, bodies[i]);
    }
    assert IsLayout(Interleave(gaps, blocks), m, gaps, blocks);
    SplitAcceptsExactlyLayouts(Interleave(gaps, blocks), m, blocks);
  }

  /** A body free of END markers is still not good when the END line's own dashes complete one. */
  lemma UnfinishedMarkerInBody(kind: Text)
    ensures var m := MarksOf(kind); var body := "\n" + "-----END " + kind;
            StartsLine(body) && Find(body, m.end, 0) == None && !GoodBody(m, body)
  {
    var m := MarksOf(kind);
    var body := "\n" + "-----END " + kind;
    assert body[1..] == "-----END " + kind == m.end[..|body| - 1];
    assert m.end[|body| - 1..] == m.end[..5];
    CompletedByEndLine(body, m.end);
  }

  /** A body that ends with all of the marker but its last `n` octets, which are also the first ones. */
  lemma CompletedByEndLine(body: Text, pat: Text)
    requires 1 < |body| <= |pat| && body[1..] == pat[..|body| - 1]
    requires pat[|body| - 1..] == pat[..|pat| - |body| + 1]
    ensures Find(body + pat, pat, 0) != Some(|body|)
  {
    hide OccursAt, Find;
    var n := |body| - 1;
    OccursSlice(body, pat[..n], 1);
    AcrossSeam(body, pat, n);
    FindIsFirst(body + pat, pat, 0, |body|);
    assert OccursAt(body + pat, pat, 1);
  }
}
