/** chunker.go: sentences packed into leaves, and leaves into parents. */
module Chunker {
  import opened Keys
  import opened ChunkPacking
  import opened SentenceSpans
  import opened Whitespace

  /** A number in decimal, most significant digit first. */
  function IntToStr(n: nat): (r: string)
    ensures r != [] && forall k :: 0 <= k < |r| ==> '0' <= r[k] <= '9'
  {
    if n < 10 then [Digit(n)] else IntToStr(n / 10) + [Digit(n % 10)]
  }

  function Digit(d: nat): char
    requires d < 10
    ensures '0' <= Digit(d) <= '9'
  {
    '0' + d as char
  }

  lemma {:induction false} IntToStrInjective(m: nat, n: nat)
    ensures IntToStr(m) == IntToStr(n) <==> m == n
  {
    if IntToStr(m) == IntToStr(n) {
      var r := IntToStr(m);
      LastDigit(m);
      LastDigit(n);
      if m >= 10 && n >= 10 {
        assert IntToStr(m)[..|r| - 1] == IntToStr(m / 10) && IntToStr(n)[..|r| - 1] == IntToStr(n / 10);
        IntToStrInjective(m / 10, n / 10);
      }
    }
  }

  lemma LastDigit(n: nat)
    ensures var r := IntToStr(n); r[|r| - 1] == Digit(n % 10) && (|r| == 1 <==> n < 10)
  {
  }

  /** `chunkKey`: document, level, start and end, with colons between. */
  function ChunkKey(docID: string, lvl: Byte, start: nat, end: nat): string {
    docID + [':', 'L', LevelChar(lvl)] + ":" + IntToStr(start) + ":" + IntToStr(end)
  }

  function LevelChar(lvl: Byte): char {
    ((48 + lvl) % 256) as char
  }

  /** The text after the last colon is the number there. */
  lemma LastField(a: string, b: string, m: nat, n: nat)
    requires a + ":" + IntToStr(m) == b + ":" + IntToStr(n)
    ensures a == b && m == n
  {
    var x, y, u, v := a + ":" + IntToStr(m), b + ":" + IntToStr(n), IntToStr(m), IntToStr(n);
    assert x[|a|] == ':' == y[|b|];
    assert a == x[..|a|] == y[..|b|] == b;
    assert u == x[|a| + 1..] == y[|b| + 1..] == v;
    IntToStrInjective(m, n);
  }

  /** Different chunks have different keys, colons in the document identifier or not. */
  lemma ChunkKeyInjective(d: string, k: Byte, s: nat, e: nat, d': string, k': Byte, s': nat, e': nat)
    ensures ChunkKey(d, k, s, e) == ChunkKey(d', k', s', e') <==> d == d' && k == k' && s == s' && e == e'
  {
    if ChunkKey(d, k, s, e) == ChunkKey(d', k', s', e') {
      var front, front' := d + [':', 'L', LevelChar(k)], d' + [':', 'L', LevelChar(k')];
      LastField(front + ":" + IntToStr(s), front' + ":" + IntToStr(s'), e, e');
      LastField(front, front', s, s');
      assert |d| == |d'|;
      assert d == front[..|d|] == front'[..|d'|] == d';
      assert LevelChar(k) == front[|d| + 2] == front'[|d'| + 2] == LevelChar(k');
    }
  }

  /** Identifiers for chunk keys, handed out in sequence and never again. */
  class ChunkIDMapper {
    var nextID: nat
    var byString: map<string, nat>
    var byIDStr: map<nat, string>
    var byDoc: map<nat, string>

    ghost predicate Valid()
      reads this
    {
      && nextID >= 1
      && (forall k :: k in byString ==> 0 < byString[k] < nextID && byString[k] in byIDStr && byIDStr[byString[k]] == k)
      && (forall i :: i in byIDStr ==> byIDStr[i] in byString && byString[byIDStr[i]] == i)
    }

    constructor ()
      ensures Valid() && byString == map[] && nextID == 1
    {
      nextID, byString, byIDStr, byDoc := 1, map[], map[], map[];
    }

    method GetOrAssign(key: string, docID: string) returns (id: nat)
      requires Valid()
      modifies this
      ensures Valid() && key in byString && id == byString[key]
      ensures byString == if key in old(byString) then old(byString) else old(byString)[key := old(nextID)]
    {
      if key in byString {
        return byString[key];
      }
      id := nextID;
      nextID := nextID + 1;
      byString := byString[key := id];
      byIDStr := byIDStr[id := key];
      byDoc := byDoc[id := docID];
    }

    /** 0 when the key has none. */
    method Get(key: string) returns (id: nat)
      requires Valid()
      ensures id != 0 <==> key in byString
      ensures id != 0 ==> id == byString[key]
    {
      return if key in byString then byString[key] else 0;
    }
  }

  datatype Chunk = Chunk(id: nat, docID: string, lvl: Byte, index: nat, start: nat, end: nat, text: Text, parentID: nat,
    childIDs: seq<nat>)

  function SentenceLens(sentences: seq<SentenceSpan>): seq<nat> {
    seq(|sentences|, k requires 0 <= k < |sentences| => |sentences[k].text| + 1)
  }

  function LeafLens(leaves: seq<Chunk>): seq<nat> {
    seq(|leaves|, k requires 0 <= k < |leaves| => |leaves[k].text| + 1)
  }

  /** Texts one after the other with a byte between. */
  function Joined(texts: seq<Text>, sep: Byte): Text {
    if texts == [] then []
    else if |texts| == 1 then texts[0]
    else Joined(texts[..|texts| - 1], sep) + [sep] + texts[|texts| - 1]
  }

  /** Joining one text leaves it alone; joining two lists puts the byte once between what each gives. */
  lemma {:induction false} JoinedAppend(a: seq<Text>, b: seq<Text>, sep: Byte)
    requires a != [] && b != []
    ensures |b| == 1 ==> Joined(b, sep) == b[0]
    ensures Joined(a + b, sep) == Joined(a, sep) + [sep] + Joined(b, sep)
  {
    var n := |b| - 1;
    assert (a + b)[..|a| + n] == a + b[..n] && (a + b)[|a| + n] == b[n];
    if n == 0 {
      assert a + b[..0] == a;
    } else {
      JoinedAppend(a, b[..n], sep);
    }
  }

  lemma {:induction false} JoinedSolid(texts: seq<Text>, sep: Byte)
    requires texts != [] && Solid(texts[0]) && sep < 0x80
    ensures Solid(Joined(texts, sep))
  {
    hide Solid;
    if |texts| > 1 {
      JoinedSolid(texts[..|texts| - 1], sep);
      SolidFront(Joined(texts[..|texts| - 1], sep), sep, texts[|texts| - 1]);
    }
  }

  /** The text of a chunk: trimmed, and without newlines when they are not wanted. */
  function ChunkText(joined: Text, flat: bool): Text {
    if flat then TrimSpace(Flat(TrimSpace(joined), false)) else TrimSpace(joined)
  }

  lemma ChunkTextSolid(joined: Text, flat: bool)
    ensures ChunkText(joined, flat) == [] || Solid(ChunkText(joined, flat))
    ensures Solid(joined) ==> Solid(ChunkText(joined, flat))
  {
    hide TrimSpace, Flat, Solid;
    TrimSpaceSolid(joined);
    TrimSpaceSolid(Flat(TrimSpace(joined), false));
    if Solid(joined) {
      SolidStays(joined);
      FlatLeaves(TrimSpace(joined));
    }
  }

  /** Where newlines are not wanted no white space of one byte is left but blanks; else only the ends are trimmed. */
  lemma ChunkTextIs(joined: Text, flat: bool)
    ensures var text := ChunkText(joined, flat);
      && (flat ==> forall i :: 0 <= i < |text| && IsSpace(text[i]) ==> text[i] == 0x20)
      && (!flat ==> exists front: Text, back: Text :: joined == front + text + back && Blank(front) && Blank(back))
  {
    hide TrimSpace, Flat, Blank;
    var front, back := TrimSpaceCuts(joined);
    if flat {
      var t := Flat(TrimSpace(joined), false);
      FlatBlanks(TrimSpace(joined), false);
      front, back := TrimSpaceCuts(t);
      var text := ChunkText(joined, flat);
      forall i | 0 <= i < |text| && IsSpace(text[i]) ensures text[i] == 0x20 { assert t[|front| + i] == text[i]; }
    }
  }

  method TextOf(joined: Text, flat: bool) returns (text: Text)
    ensures text == ChunkText(joined, flat)
  {
    text := TrimSpace(joined);
    if flat {
      text := RemoveNewlines(text);
    }
  }

  function TrimmedTexts(sentences: seq<SentenceSpan>): seq<Text> {
    seq(|sentences|, k requires 0 <= k < |sentences| => TrimSpace(sentences[k].text))
  }

  function LeafTexts(leaves: seq<Chunk>): seq<Text> {
    seq(|leaves|, k requires 0 <= k < |leaves| => leaves[k].text)
  }

  /** The lengths packed are those of the joined text: each piece with the byte that parts it from the next. */
  lemma {:induction false} JoinedLength(texts: seq<Text>, sep: Byte, lens: seq<nat>, first: nat, past: nat)
    requires |lens| == |texts| && first < past <= |texts| && forall k :: 0 <= k < |lens| ==> lens[k] == |texts[k]| + 1
    ensures |Joined(texts[first..past], sep)| + 1 == Packed(lens, first, past)
    decreases past
  {
    hide Packed;
    var run := texts[first..past];
    PackedSnoc(lens, first, past - 1);
    if first + 1 < past {
      JoinedLength(texts, sep, lens, first, past - 1);
      assert run[..|run| - 1] == texts[first..past - 1];
    } else {
      NothingPacked(lens, first);
    }
  }

  lemma NothingPacked(lens: seq<nat>, at: nat)
    requires at <= |lens|
    ensures Packed(lens, at, at) == 0
  {
  }

  /** `joinSentenceTexts` */
  method JoinSentenceTexts(ss: seq<SentenceSpan>) returns (b: Text)
    ensures b == Joined(TrimmedTexts(ss), 0x20)
  {
    hide TrimSpace;
    b := [];
    for i := 0 to |ss|
      invariant b == Joined(TrimmedTexts(ss)[..i], 0x20)
    {
      assert TrimmedTexts(ss)[..i + 1][..i] == TrimmedTexts(ss)[..i];
      if i > 0 {
        b := b + [0x20];
      }
      b := b + TrimSpace(ss[i].text);
    }
    assert TrimmedTexts(ss)[..|ss|] == TrimmedTexts(ss);
  }

  /** The text of a run of sentences. */
  function LeafText(sentences: seq<SentenceSpan>, flat: bool): Run -> Text {
    (r: Run) => if r.first < r.past <= |sentences|
      then ChunkText(Joined(TrimmedTexts(sentences[r.first..r.past]), 0x20), flat) else []
  }

  /** The text of a run of leaves. */
  function ParentText(leaves: seq<Chunk>, flat: bool): Run -> Text {
    (r: Run) => if r.first < r.past <= |leaves| then ChunkText(Joined(LeafTexts(leaves[r.first..r.past]), 0x0A), flat)
      else []
  }

  lemma {:induction false} JoinedEnds(texts: seq<Text>, sep: Byte)
    requires texts != [] && sep < 0x80 && forall k :: 0 <= k < |texts| ==> TrimSpace(texts[k]) == texts[k] != []
    ensures TrimSpace(Joined(texts, sep)) == Joined(texts, sep)
  {
    hide TrimSpace, SpaceWidth, EndWidth;
    var n := |texts| - 1;
    TrimmedWhen(texts[0]);
    TrimmedWhen(texts[n]);
    JoinedSolid(texts, sep);
    if n > 0 { EndKept(Joined(texts[..n], sep), sep, texts[n]); }
    TrimmedWhen(Joined(texts, sep));
  }

  /**
   * The text of a leaf is that of its sentences with blanks between, and so as long as what was packed but
   * for a byte; without newlines it is the same text flattened.
   */
  lemma LeafTextWhole(sentences: seq<SentenceSpan>, r: Run)
    requires r.first < r.past <= |sentences|
    ensures (forall k :: 0 <= k < |sentences| ==> TrimSpace(sentences[k].text) == sentences[k].text != []) ==>
      var text := LeafText(sentences, false)(r);
      && text == Joined(TrimmedTexts(sentences[r.first..r.past]), 0x20)
      && |text| + 1 == Packed(SentenceLens(sentences), r.first, r.past)
    ensures LeafText(sentences, true)(r) == TrimSpace(Flat(LeafText(sentences, false)(r), false))
  {
    hide TrimSpace, Packed, Flat;
    if forall k :: 0 <= k < |sentences| ==> TrimSpace(sentences[k].text) == sentences[k].text != [] {
      var texts := TrimmedTexts(sentences);
      assert texts[r.first..r.past] == TrimmedTexts(sentences[r.first..r.past]);
      JoinedLength(texts, 0x20, SentenceLens(sentences), r.first, r.past);
      JoinedEnds(texts[r.first..r.past], 0x20);
    }
  }

  /** And the text of a parent that of its leaves, with newlines between. */
  lemma ParentTextWhole(leaves: seq<Chunk>, r: Run)
    requires r.first < r.past <= |leaves|
    ensures (forall k :: 0 <= k < |leaves| ==> TrimSpace(leaves[k].text) == leaves[k].text != []) ==>
      var text := ParentText(leaves, false)(r);
      && text == Joined(LeafTexts(leaves[r.first..r.past]), 0x0A)
      && |text| + 1 == Packed(LeafLens(leaves), r.first, r.past)
    ensures ParentText(leaves, true)(r) == TrimSpace(Flat(ParentText(leaves, false)(r), false))
  {
    hide TrimSpace, Packed, Flat;
    if forall k :: 0 <= k < |leaves| ==> TrimSpace(leaves[k].text) == leaves[k].text != [] {
      var texts := LeafTexts(leaves);
      assert texts[r.first..r.past] == LeafTexts(leaves[r.first..r.past]);
      JoinedLength(texts, 0x0A, LeafLens(leaves), r.first, r.past);
      JoinedEnds(texts[r.first..r.past], 0x0A);
    }
  }

  /** Sentences with text make leaves with text, whatever the run. */
  lemma LeafTextStays(sentences: seq<SentenceSpan>, flat: bool, r: Run)
    requires r.first < r.past <= |sentences| && TrimSpace(sentences[r.first].text) != []
    ensures Solid(LeafText(sentences, flat)(r))
  {
    hide TrimSpace, ChunkText, Solid;
    var texts := TrimmedTexts(sentences[r.first..r.past]);
    TrimSpaceSolid(sentences[r.first].text);
    JoinedSolid(texts, 0x20);
    ChunkTextSolid(Joined(texts, 0x20), flat);
  }

  /** Leaves with text make parents with text. */
  lemma ParentTextStays(leaves: seq<Chunk>, flat: bool, r: Run)
    requires r.first < r.past <= |leaves| && Solid(leaves[r.first].text)
    ensures Solid(ParentText(leaves, flat)(r))
  {
    hide ChunkText, Solid;
    var texts := LeafTexts(leaves[r.first..r.past]);
    JoinedSolid(texts, 0x0A);
    ChunkTextSolid(Joined(texts, 0x0A), flat);
  }

  /** A run of sentences made a leaf. */
  ghost predicate IsLeaf(c: Chunk, sentences: seq<SentenceSpan>, r: Run, flat: bool) {
    && r.first < r.past <= |sentences| && c.lvl == 0
    && c.start == sentences[r.first].start && c.end == sentences[r.past - 1].end
    && c.text == LeafText(sentences, flat)(r) && Solid(c.text)
  }

  ghost predicate InOrder(sentences: seq<SentenceSpan>) {
    && (forall k :: 0 <= k < |sentences| ==> sentences[k].start < sentences[k].end)
    && (forall j, k :: 0 <= j < k < |sentences| ==> sentences[j].end <= sentences[k].start)
  }

  const DEFAULT_SIZE: nat := 150

  /**
   * `buildLeafChunks`: one leaf for each run of the packing that has any text, under its own identifier;
   * sentences with text leave no run out.
   */
  method BuildLeafChunks(mapper: ChunkIDMapper, docID: string, sentences: seq<SentenceSpan>, chunkSize: int,
    overlap: int, flat: bool, ghost longest: nat) returns (chunks: seq<Chunk>, ghost runs: seq<Run>)
    requires mapper.Valid() && InOrder(sentences)
    requires forall k :: 0 <= k < |sentences| ==> |sentences[k].text| < longest
    modifies mapper
    ensures mapper.Valid()
    ensures var (size, shared) := Settings(chunkSize, overlap, DEFAULT_SIZE);
      Packing(SentenceLens(sentences), size, shared, longest, |sentences|, runs)
    ensures Leaves(chunks, sentences, Emitted(runs, LeafText(sentences, flat)), flat)
    ensures (forall s :: s in sentences ==> TrimSpace(s.text) != []) ==>
      Emitted(runs, LeafText(sentences, flat)) == runs
    ensures forall j, k :: 0 <= j < k < |chunks| ==> chunks[j].id != chunks[k].id && chunks[j].end < chunks[k].end
  {
    hide Packing, ChunkKey, InOrder, IsLeaf, Emitted, TrimSpace, Solid, LeafText;
    var (size, shared) := Settings(chunkSize, overlap, DEFAULT_SIZE);
    var packed := Pack(SentenceLens(sentences), size, shared, longest);
    runs := packed;
    ghost var text := LeafText(sentences, flat);
    RunsInside(SentenceLens(sentences), size, shared, longest, |sentences|, packed);
    chunks := [];
    EmittedNone(text);
    for k := 0 to |packed|
      invariant mapper.Valid() && Leaves(chunks, sentences, Emitted(packed[..k], text), flat)
      invariant forall i :: 0 <= i < |chunks| ==> Keyed(mapper.byString, docID, chunks[i])
    {
      EmittedSnoc(packed, k, text);
      chunks := EmitLeaf(mapper, docID, sentences, packed[k], flat, chunks);
    }
    assert packed[..|packed|] == packed;
    EmittedAscend(packed, text);
    EndsAscend(sentences, Emitted(packed, text), chunks, flat);
    IdsDiffer(mapper.byString, mapper.byIDStr, docID, chunks);
    LeavesStay(sentences, packed, flat);
  }

  lemma {:induction false} LeavesStay(sentences: seq<SentenceSpan>, runs: seq<Run>, flat: bool)
    requires forall k :: 0 <= k < |runs| ==> runs[k].first < runs[k].past <= |sentences|
    ensures (forall s :: s in sentences ==> TrimSpace(s.text) != []) ==>
      Emitted(runs, LeafText(sentences, flat)) == runs
  {
    hide TrimSpace, LeafText, Emitted;
    if forall s :: s in sentences ==> TrimSpace(s.text) != [] {
      forall k | 0 <= k < |runs| ensures LeafText(sentences, flat)(runs[k]) != [] {
        LeafTextStays(sentences, flat, runs[k]);
      }
      AllEmitted(runs, LeafText(sentences, flat));
    }
  }

  /** One leaf for each of the runs. */
  ghost predicate Leaves(chunks: seq<Chunk>, sentences: seq<SentenceSpan>, runs: seq<Run>, flat: bool) {
    |chunks| == |runs| && forall k :: 0 <= k < |chunks| ==> IsLeaf(chunks[k], sentences, runs[k], flat)
  }

  /** A leaf of the sentences of a run, unless it has no text. */
  method EmitLeaf(mapper: ChunkIDMapper, docID: string, sentences: seq<SentenceSpan>, r: Run, flat: bool,
    chunks: seq<Chunk>) returns (more: seq<Chunk>)
    requires mapper.Valid() && r.first < r.past <= |sentences|
    modifies mapper
    ensures mapper.Valid() && forall c :: Keyed(old(mapper.byString), docID, c) ==> Keyed(mapper.byString, docID, c)
    ensures LeafText(sentences, flat)(r) == [] ==> more == chunks
    ensures LeafText(sentences, flat)(r) != [] ==>
      |more| == |chunks| + 1 && more[..|chunks|] == chunks && IsLeaf(more[|chunks|], sentences, r, flat)
      && Keyed(mapper.byString, docID, more[|chunks|])
  {
    hide ChunkKey, ChunkText, TrimSpace, Solid, Joined;
    var cur := sentences[r.first..r.past];
    var start, end := cur[0].start, cur[|cur| - 1].end;
    var joined := JoinSentenceTexts(cur);
    var text := TextOf(joined, flat);
    ChunkTextSolid(joined, flat);
    if |text| == 0 {
      return chunks;
    }
    var id := mapper.GetOrAssign(ChunkKey(docID, 0, start, end), docID);
    more := chunks + [Chunk(id, docID, 0, |chunks|, start, end, text, 0, [])];
  }

  /** Chunks with different ends have different identifiers. */
  lemma IdsDiffer(ids: map<string, nat>, keys: map<nat, string>, docID: string, chunks: seq<Chunk>)
    requires forall k :: k in ids ==> ids[k] in keys && keys[ids[k]] == k
    requires forall i :: 0 <= i < |chunks| ==> Keyed(ids, docID, chunks[i])
    requires forall i, j :: 0 <= i < j < |chunks| ==> chunks[i].end < chunks[j].end
    ensures forall i, j :: 0 <= i < j < |chunks| ==> chunks[i].id != chunks[j].id
  {
    hide ChunkKey;
    forall i, j | 0 <= i < j < |chunks| ensures chunks[i].id != chunks[j].id {
      ChunkKeyInjective(docID, chunks[i].lvl, chunks[i].start, chunks[i].end, docID, chunks[j].lvl, chunks[j].start,
        chunks[j].end);
    }
  }

  /** The chunk has the identifier of its key. */
  ghost predicate Keyed(ids: map<string, nat>, docID: string, c: Chunk) {
    var key := ChunkKey(docID, c.lvl, c.start, c.end);
    key in ids && ids[key] == c.id && c.docID == docID
  }

  lemma EndsAscend(sentences: seq<SentenceSpan>, runs: seq<Run>, chunks: seq<Chunk>, flat: bool)
    requires InOrder(sentences) && Leaves(chunks, sentences, runs, flat)
    requires Ascending(runs)
    ensures forall j, k :: 0 <= j < k < |chunks| ==> chunks[j].end < chunks[k].end
  {
    hide LeafText, Solid;
    forall j, k | 0 <= j < k < |chunks| ensures chunks[j].end < chunks[k].end {
      assert IsLeaf(chunks[j], sentences, runs[j], flat) && IsLeaf(chunks[k], sentences, runs[k], flat);
    }
  }

  function Ids(leaves: seq<Chunk>): seq<nat> {
    seq(|leaves|, k requires 0 <= k < |leaves| => leaves[k].id)
  }

  /** A run of leaves made a parent that lists them. */
  ghost predicate IsParent(c: Chunk, leaves: seq<Chunk>, r: Run, flat: bool) {
    && r.first < r.past <= |leaves| && c.lvl == 1
    && c.start == leaves[r.first].start && c.end == leaves[r.past - 1].end
    && c.text == ParentText(leaves, flat)(r) && c.text != []
    && c.childIDs == Ids(leaves[r.first..r.past])
  }

  /** The leaf names one of the first n parents, which lists it. */
  ghost predicate NamesParent(leaf: Chunk, parents: seq<Chunk>) {
    exists k :: 0 <= k < |parents| && leaf.id in parents[k].childIDs && leaf.parentID == parents[k].id
  }

  ghost predicate ListedBy(leaf: Chunk, parents: seq<Chunk>) {
    exists k :: 0 <= k < |parents| && leaf.id in parents[k].childIDs
  }

  /** The leaves are as they were but for the parents they name. */
  ghost predicate OnlyParents(before: seq<Chunk>, after: seq<Chunk>) {
    |after| == |before| && forall i :: 0 <= i < |after| ==> after[i] == before[i].(parentID := after[i].parentID)
  }

  /** Every leaf a parent lists names that parent from then on. */
  method Backfill(leaves: seq<Chunk>, parents: seq<Chunk>, parent: Chunk) returns (r: seq<Chunk>)
    requires forall i :: 0 <= i < |leaves| && ListedBy(leaves[i], parents) ==> NamesParent(leaves[i], parents)
    ensures OnlyParents(leaves, r)
    ensures forall i :: 0 <= i < |r| && ListedBy(r[i], parents + [parent]) ==> NamesParent(r[i], parents + [parent])
  {
    r := leaves;
    for i := 0 to |leaves|
      invariant OnlyParents(leaves, r) && r[i..] == leaves[i..]
      invariant forall j :: 0 <= j < i ==>
        r[j].parentID == if r[j].id in parent.childIDs then parent.id else leaves[j].parentID
    {
      assert r[i] == r[i..][0] == leaves[i..][0];
      assert r[i + 1..] == r[i..][1..] == leaves[i..][1..];
      if r[i].id in parent.childIDs {
        r := r[i := r[i].(parentID := parent.id)];
      }
      assert r[i + 1..] == leaves[i + 1..];
    }
    var more := parents + [parent];
    forall i | 0 <= i < |r| && ListedBy(r[i], more) ensures NamesParent(r[i], more) {
      NamesOne(leaves[i], r[i], parents, parent);
    }
  }

  lemma NamesOne(before: Chunk, after: Chunk, parents: seq<Chunk>, parent: Chunk)
    requires after.id == before.id && ListedBy(after, parents + [parent])
    requires after.parentID == if after.id in parent.childIDs then parent.id else before.parentID
    requires ListedBy(before, parents) ==> NamesParent(before, parents)
    ensures NamesParent(after, parents + [parent])
  {
    var more := parents + [parent];
    if after.id in parent.childIDs {
      assert more[|parents|] == parent;
    } else {
      var k :| 0 <= k < |more| && after.id in more[k].childIDs;
      assert more[k] == parents[k];
      var j :| 0 <= j < |parents| && before.id in parents[j].childIDs && before.parentID == parents[j].id;
      assert more[j] == parents[j];
    }
  }

  /** One parent for each of the runs. */
  ghost predicate Parents(parents: seq<Chunk>, leaves: seq<Chunk>, runs: seq<Run>, flat: bool) {
    |parents| == |runs| && forall k :: 0 <= k < |parents| ==> IsParent(parents[k], leaves, runs[k], flat)
  }

  /**
   * `buildParentChunks`: one parent for each run of leaves that has any text; a leaf that a parent lists
   * names a parent that lists it, and when leaves have text, each of them does.
   */
  method BuildParentChunks(mapper: ChunkIDMapper, docID: string, leaves: seq<Chunk>, leafSize: nat,
    parentSize: int, overlap: int, flat: bool, ghost longest: nat)
    returns (parents: seq<Chunk>, named: seq<Chunk>, ghost runs: seq<Run>)
    requires mapper.Valid() && leafSize > 0
    requires forall j, k :: 0 <= j < k < |leaves| ==> leaves[j].end < leaves[k].end
    requires forall k :: 0 <= k < |leaves| ==> |leaves[k].text| < longest
    modifies mapper
    ensures mapper.Valid()
    ensures var (size, shared) := Settings(parentSize, overlap, leafSize * 4);
      Packing(LeafLens(leaves), size, shared, longest, |leaves|, runs)
    ensures Parents(parents, leaves, Emitted(runs, ParentText(leaves, flat)), flat)
    ensures forall j, k :: 0 <= j < k < |parents| ==> parents[j].id != parents[k].id
    ensures OnlyParents(leaves, named)
    ensures forall i :: 0 <= i < |named| && ListedBy(named[i], parents) ==> NamesParent(named[i], parents)
    ensures (forall leaf :: leaf in leaves ==> Solid(leaf.text)) ==>
      Emitted(runs, ParentText(leaves, flat)) == runs && forall i :: 0 <= i < |named| ==> NamesParent(named[i], parents)
  {
    hide Packing, ChunkKey, NamesParent, ListedBy, IsParent, Keyed, Ids, OnlyParents, ChunkIDMapper.Valid, Emitted,
      Solid, ParentText;
    var (size, shared) := Settings(parentSize, overlap, leafSize * 4);
    var packed := Pack(LeafLens(leaves), size, shared, longest);
    runs := packed;
    ghost var text := ParentText(leaves, flat);
    RunsInside(LeafLens(leaves), size, shared, longest, |leaves|, packed);
    parents, named := [], leaves;
    NoneListed(leaves);
    StillOnlyItself(leaves);
    EmittedNone(text);
    for k := 0 to |packed|
      invariant mapper.Valid() && OnlyParents(leaves, named)
      invariant Parents(parents, leaves, Emitted(packed[..k], text), flat)
      invariant forall i :: 0 <= i < |parents| ==> Keyed(mapper.byString, docID, parents[i])
      invariant forall i :: 0 <= i < |named| && ListedBy(named[i], parents) ==> NamesParent(named[i], parents)
    {
      EmittedSnoc(packed, k, text);
      ghost var was := named;
      parents, named := EmitParent(mapper, docID, leaves, packed[k], flat, parents, named);
      StillOnly(leaves, was, named);
    }
    assert packed[..|packed|] == packed;
    EmittedAscend(packed, text);
    ParentEndsAscend(leaves, Emitted(packed, text), parents, flat);
    MapperInverse(mapper);
    IdsDiffer(mapper.byString, mapper.byIDStr, docID, parents);
    ParentsStay(leaves, packed, flat);
    if forall leaf :: leaf in leaves ==> Solid(leaf.text) {
      AllListed(leaves, named, LeafLens(leaves), size, shared, longest, packed, parents, flat);
    }
  }

  lemma {:induction false} ParentsStay(leaves: seq<Chunk>, runs: seq<Run>, flat: bool)
    requires forall k :: 0 <= k < |runs| ==> runs[k].first < runs[k].past <= |leaves|
    ensures (forall leaf :: leaf in leaves ==> Solid(leaf.text)) ==> Emitted(runs, ParentText(leaves, flat)) == runs
  {
    hide Solid, ParentText, Emitted;
    if forall leaf :: leaf in leaves ==> Solid(leaf.text) {
      forall k | 0 <= k < |runs| ensures ParentText(leaves, flat)(runs[k]) != [] {
        ParentTextStays(leaves, flat, runs[k]);
        SolidSome(ParentText(leaves, flat)(runs[k]));
      }
      AllEmitted(runs, ParentText(leaves, flat));
    }
  }

  lemma SolidSome(t: Text)
    requires Solid(t)
    ensures t != []
  {
  }

  lemma ParentEndsAscend(leaves: seq<Chunk>, runs: seq<Run>, parents: seq<Chunk>, flat: bool)
    requires forall j, k :: 0 <= j < k < |leaves| ==> leaves[j].end < leaves[k].end
    requires Parents(parents, leaves, runs, flat)
    requires Ascending(runs)
    ensures forall j, k :: 0 <= j < k < |parents| ==> parents[j].end < parents[k].end
  {
    hide ParentText, Ids;
    forall j, k | 0 <= j < k < |parents| ensures parents[j].end < parents[k].end {
      assert IsParent(parents[j], leaves, runs[j], flat) && IsParent(parents[k], leaves, runs[k], flat);
    }
  }

  lemma MapperInverse(mapper: ChunkIDMapper)
    requires mapper.Valid()
    ensures forall k :: k in mapper.byString ==>
      mapper.byString[k] in mapper.byIDStr && mapper.byIDStr[mapper.byString[k]] == k
  {
  }

  lemma StillOnlyItself(leaves: seq<Chunk>)
    ensures OnlyParents(leaves, leaves)
  {
  }

  lemma StillOnly(a: seq<Chunk>, b: seq<Chunk>, c: seq<Chunk>)
    requires OnlyParents(a, b) && OnlyParents(b, c)
    ensures OnlyParents(a, c)
  {
  }

  /** A parent of the leaves of a run, unless it has no text; the leaves it lists name it. */
  method EmitParent(mapper: ChunkIDMapper, docID: string, leaves: seq<Chunk>, r: Run, flat: bool, parents: seq<Chunk>,
    named: seq<Chunk>) returns (more: seq<Chunk>, filled: seq<Chunk>)
    requires mapper.Valid() && r.first < r.past <= |leaves|
    requires forall i :: 0 <= i < |named| && ListedBy(named[i], parents) ==> NamesParent(named[i], parents)
    modifies mapper
    ensures mapper.Valid() && forall c :: Keyed(old(mapper.byString), docID, c) ==> Keyed(mapper.byString, docID, c)
    ensures ParentText(leaves, flat)(r) == [] ==> more == parents && filled == named
    ensures ParentText(leaves, flat)(r) != [] ==>
      |more| == |parents| + 1 && more[..|parents|] == parents && IsParent(more[|parents|], leaves, r, flat)
      && Keyed(mapper.byString, docID, more[|parents|])
    ensures OnlyParents(named, filled)
    ensures forall i :: 0 <= i < |filled| && ListedBy(filled[i], more) ==> NamesParent(filled[i], more)
  {
    hide ChunkKey, ChunkText, Joined, NamesParent, ListedBy;
    var cur := leaves[r.first..r.past];
    var start, end := cur[0].start, cur[|cur| - 1].end;
    var childIDs, joined := JoinLeaves(cur);
    var text := TextOf(joined, flat);
    if |text| == 0 {
      return parents, named;
    }
    var parentID := mapper.GetOrAssign(ChunkKey(docID, 1, start, end), docID);
    var parent := Chunk(parentID, docID, 1, |parents|, start, end, text, 0, childIDs);
    more := parents + [parent];
    filled := Backfill(named, parents, parent);
  }

  /** The identifiers of the leaves, and their texts with newlines between. */
  method JoinLeaves(cur: seq<Chunk>) returns (childIDs: seq<nat>, b: Text)
    ensures childIDs == Ids(cur) && b == Joined(LeafTexts(cur), 0x0A)
  {
    childIDs, b := [], [];
    for i := 0 to |cur|
      invariant childIDs == Ids(cur)[..i] && b == Joined(LeafTexts(cur)[..i], 0x0A)
    {
      assert LeafTexts(cur)[..i + 1][..i] == LeafTexts(cur)[..i];
      childIDs := childIDs + [cur[i].id];
      if i > 0 {
        b := b + [0x0A];
      }
      b := b + cur[i].text;
    }
    assert LeafTexts(cur)[..|cur|] == LeafTexts(cur);
  }

  lemma NoneListed(leaves: seq<Chunk>)
    ensures forall i :: 0 <= i < |leaves| ==> !ListedBy(leaves[i], [])
  {
  }

  lemma ListsIt(leaves: seq<Chunk>, leaf: Chunk, parents: seq<Chunk>, k: nat, r: Run, i: nat, flat: bool)
    requires k < |parents| && IsParent(parents[k], leaves, r, flat) && r.first <= i < r.past
    requires leaf.id == leaves[i].id
    ensures ListedBy(leaf, parents)
  {
    hide ParentText;
    assert parents[k].childIDs[i - r.first] == leaves[i].id;
  }

  lemma AllListed(leaves: seq<Chunk>, named: seq<Chunk>, lens: seq<nat>, size: nat, overlap: nat, longest: nat,
    runs: seq<Run>, parents: seq<Chunk>, flat: bool)
    requires Packing(lens, size, overlap, longest, |leaves|, runs) && OnlyParents(leaves, named)
    requires Parents(parents, leaves, runs, flat)
    requires forall i :: 0 <= i < |named| && ListedBy(named[i], parents) ==> NamesParent(named[i], parents)
    ensures forall i :: 0 <= i < |named| ==> NamesParent(named[i], parents)
  {
    hide NamesParent, ParentText, Packing, ListedBy;
    forall i | 0 <= i < |named| ensures ListedBy(named[i], parents) {
      LastRun(lens, size, overlap, longest, |leaves|, runs);
      var k := InSomeRun(lens, size, overlap, longest, |leaves|, runs, i, |runs| - 1);
      ListsIt(leaves, named[i], parents, k, runs[k], i, flat);
    }
  }

  lemma LongestSentence(sentences: seq<SentenceSpan>)
    ensures forall k :: 0 <= k < |sentences| ==> |sentences[k].text| < Longest(SentenceLens(sentences))
  {
    var lens := SentenceLens(sentences);
    assert forall k :: 0 <= k < |sentences| ==> lens[k] == |sentences[k].text| + 1;
  }

  lemma LongestLeaf(leaves: seq<Chunk>)
    ensures forall k :: 0 <= k < |leaves| ==> |leaves[k].text| < Longest(LeafLens(leaves))
  {
    var lens := LeafLens(leaves);
    assert forall k :: 0 <= k < |leaves| ==> lens[k] == |leaves[k].text| + 1;
  }

  /**
   * `ChunkDocument`: sentences, leaves of sentences, parents of leaves. The sentences cover the document
   * exactly when its tail is not lost, no run of the packing is left out, and every leaf names a parent
   * that lists it.
   */
  method ChunkDocument(mapper: ChunkIDMapper, docID: string, data: Text, matches: seq<(nat, nat)>, chunkSize: int,
    chunkOverlap: int, parentChunkSize: int, parentOverlap: int, flat: bool)
    returns (leaves: seq<Chunk>, parents: seq<Chunk>, ghost sentences: seq<SentenceSpan>, ghost runs: seq<Run>,
      ghost parentRuns: seq<Run>)
    requires mapper.Valid() && Boundaries(data, matches)
    modifies mapper
    ensures mapper.Valid() && (Covers(data, sentences, |data|) <==> !TailLost(data, matches, DefaultAbbreviations()))
    ensures TailLost(data, matches, DefaultAbbreviations()) ==>
      Covers(data, sentences, TailStart(data, matches, DefaultAbbreviations()))
    ensures PackedInto(sentences, Settings(chunkSize, chunkOverlap, DEFAULT_SIZE), flat, leaves, runs)
    ensures var size := Settings(chunkSize, chunkOverlap, DEFAULT_SIZE).0;
      ParentsInto(leaves, Settings(parentChunkSize, parentOverlap, size * 4), flat, parents, parentRuns)
    ensures forall i :: 0 <= i < |leaves| ==> NamesParent(leaves[i], parents)
    ensures forall j, k :: 0 <= j < k < |leaves| ==> leaves[j].id != leaves[k].id && leaves[j].end < leaves[k].end
    ensures forall j, k :: 0 <= j < k < |parents| ==> parents[j].id != parents[k].id
  {
    hide NamesParent, Packing, Covers, InOrder, Boundaries, Keyed, IsLeaf, ChunkIDMapper.Valid, Emitted, TrimSpace,
      Solid, LeafText, ParentText, DefaultAbbreviations, TailLost, HaveText, OnlyParents;
    var found := SplitSentencesWithSpans(data, matches, DefaultAbbreviations());
    sentences := found;
    leaves, parents, runs, parentRuns := [], [], [], [];
    SentencesReady(data, found, if TailLost(data, matches, DefaultAbbreviations())
      then TailStart(data, matches, DefaultAbbreviations()) else |data|);
    LongestSentence(found);
    leaves, runs := BuildLeafChunks(mapper, docID, found, chunkSize, chunkOverlap, flat, Longest(SentenceLens(found)));
    ghost var built := leaves;
    LongestLeaf(leaves);
    LeavesSolid(leaves, found, runs, flat);
    var leafSize := Settings(chunkSize, chunkOverlap, DEFAULT_SIZE).0;
    parents, leaves, parentRuns := BuildParentChunks(mapper, docID, leaves, leafSize, parentChunkSize, parentOverlap,
      flat, Longest(LeafLens(leaves)));
    LeavesKept(found, built, leaves, runs, flat);
    ParentsKept(built, leaves, parents, parentRuns, flat);
  }

  /** The parents are the packing of the leaves. */
  ghost predicate ParentsInto(leaves: seq<Chunk>, size: (nat, nat), flat: bool, parents: seq<Chunk>, runs: seq<Run>) {
    var lens := LeafLens(leaves);
    Packing(lens, size.0, size.1, Longest(lens), |leaves|, runs) && Parents(parents, leaves, runs, flat)
  }

  /** The parents leaves name make no difference to how they are packed. */
  lemma ParentsKept(before: seq<Chunk>, after: seq<Chunk>, parents: seq<Chunk>, runs: seq<Run>, flat: bool)
    requires OnlyParents(before, after) && Parents(parents, before, runs, flat)
    ensures Parents(parents, after, runs, flat) && LeafLens(after) == LeafLens(before)
  {
    hide ChunkText, Joined;
    forall k | 0 <= k < |parents| ensures IsParent(parents[k], after, runs[k], flat) {
      var r := runs[k];
      assert IsParent(parents[k], before, r, flat);
      assert LeafTexts(after[r.first..r.past]) == LeafTexts(before[r.first..r.past]);
      assert Ids(after[r.first..r.past]) == Ids(before[r.first..r.past]);
    }
  }

  /** The leaves are the packing of the sentences. */
  ghost predicate PackedInto(sentences: seq<SentenceSpan>, size: (nat, nat), flat: bool, leaves: seq<Chunk>,
    runs: seq<Run>)
  {
    var lens := SentenceLens(sentences);
    Packing(lens, size.0, size.1, Longest(lens), |sentences|, runs) && Leaves(leaves, sentences, runs, flat)
  }

  /** Sentences found are in order, and trimming them again leaves their text. */
  lemma SentencesReady(data: Text, sentences: seq<SentenceSpan>, upto: nat)
    requires Covers(data, sentences, upto) && HaveText(sentences)
    ensures InOrder(sentences) && forall s :: s in sentences ==> TrimSpace(s.text) != []
  {
    hide TrimSpace;
    forall s | s in sentences ensures TrimSpace(s.text) != [] {
      var k :| 0 <= k < |sentences| && sentences[k] == s;
      assert Tight(data[..upto], sentences[k]);
      TrimSpaceSolid(data[..upto][s.start..s.end]);
      SolidStays(s.text);
    }
  }

  lemma LeavesSolid(leaves: seq<Chunk>, sentences: seq<SentenceSpan>, runs: seq<Run>, flat: bool)
    requires Leaves(leaves, sentences, runs, flat)
    ensures forall leaf :: leaf in leaves ==> Solid(leaf.text)
  {
    hide Solid, LeafText;
    forall leaf | leaf in leaves ensures Solid(leaf.text) {
      var k :| 0 <= k < |leaves| && leaves[k] == leaf;
      assert IsLeaf(leaves[k], sentences, runs[k], flat);
    }
  }

  lemma LeavesKept(sentences: seq<SentenceSpan>, before: seq<Chunk>, after: seq<Chunk>, runs: seq<Run>, flat: bool)
    requires OnlyParents(before, after) && Leaves(before, sentences, runs, flat)
    ensures Leaves(after, sentences, runs, flat)
    ensures forall k :: 0 <= k < |after| ==> after[k].id == before[k].id && after[k].end == before[k].end
  {
    hide Solid, LeafText;
    forall k | 0 <= k < |after| ensures IsLeaf(after[k], sentences, runs[k], flat) {
      assert IsLeaf(before[k], sentences, runs[k], flat);
    }
  }
}
