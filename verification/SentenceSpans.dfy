/** chunker.go: a document split into sentences. */
module SentenceSpans {
  import opened Keys
  import opened Whitespace

  datatype SentenceSpan = SentenceSpan(start: nat, end: nat, text: Text)

  predicate IsPunctuation(b: Byte) {
    b == 0x2E || b == 0x3F || b == 0x21
  }

  /** Sentence boundaries as the pattern finds them: a byte of punctuation, then white space up to the end. */
  ghost predicate Boundaries(data: Text, matches: seq<(nat, nat)>) {
    && (forall k :: 0 <= k < |matches| ==>
      && matches[k].0 + 1 < matches[k].1 <= |data| && IsPunctuation(data[matches[k].0])
      && forall p :: matches[k].0 < p < matches[k].1 ==> IsSpace(data[p]))
    && (forall j, k :: 0 <= j < k < |matches| ==> matches[j].1 <= matches[k].0)
  }

  /** `trimSpan`: the stretch without the space at its ends. */
  method TrimSpan(data: Text, start: nat, end: nat) returns (s: nat, e: nat)
    requires start <= end <= |data|
    ensures start <= s <= e <= end
    ensures forall p :: start <= p < s || e <= p < end ==> IsSpace(data[p])
    ensures s < e ==> !IsSpace(data[s]) && !IsSpace(data[e - 1])
  {
    s, e := start, end;
    while s < e && IsSpace(data[s])
      invariant start <= s <= e
      invariant forall p :: start <= p < s ==> IsSpace(data[p])
    {
      s := s + 1;
    }
    while e > s && IsSpace(data[e - 1])
      invariant s <= e <= end
      invariant forall p :: e <= p < end ==> IsSpace(data[p])
    {
      e := e - 1;
    }
  }

  ghost predicate Within(out: seq<SentenceSpan>, p: nat) {
    exists k :: 0 <= k < |out| && out[k].start <= p < out[k].end
  }

  /** A span of the data without space at its ends, and its trimmed text. */
  predicate Tight(data: Text, span: SentenceSpan) {
    && span.start < span.end <= |data| && span.text == TrimSpace(data[span.start..span.end])
    && !IsSpace(data[span.start]) && !IsSpace(data[span.end - 1])
  }

  /** Spans in order, none overlapping, none with space at an end, and nothing but space outside them. */
  ghost predicate Covers(data: Text, out: seq<SentenceSpan>, upto: nat) {
    && upto <= |data|
    && (forall k :: 0 <= k < |out| ==> Tight(data[..upto], out[k]))
    && (forall j, k :: 0 <= j < k < |out| ==> out[j].end <= out[k].start)
    && (forall p :: 0 <= p < upto && !IsSpace(data[p]) ==> Within(out, p))
  }

  lemma CoversMore(data: Text, out: seq<SentenceSpan>, start: nat, s: nat, e: nat, upto: nat)
    requires Covers(data, out, start) && start <= s < e <= upto <= |data|
    requires !IsSpace(data[s]) && !IsSpace(data[e - 1])
    requires forall p :: start <= p < s || e <= p < upto ==> IsSpace(data[p])
    ensures Covers(data, out + [SentenceSpan(s, e, TrimSpace(data[s..e]))], upto)
  {
    hide Tight, IsSpace;
    var more := out + [SentenceSpan(s, e, TrimSpace(data[s..e]))];
    NewTight(data, s, e, upto);
    forall k | 0 <= k < |out| ensures Tight(data[..upto], out[k]) && out[k].end <= start {
      StillTight(data, out[k], start, upto);
    }
    forall p | 0 <= p < upto && !IsSpace(data[p]) ensures Within(more, p) {
      if p < start { WithinMore(out, more, p); } else { assert more[|out|].start <= p < more[|out|].end; }
    }
  }

  lemma NewTight(data: Text, s: nat, e: nat, upto: nat)
    requires s < e <= upto <= |data| && !IsSpace(data[s]) && !IsSpace(data[e - 1])
    ensures Tight(data[..upto], SentenceSpan(s, e, TrimSpace(data[s..e])))
  {
    hide TrimSpace, IsSpace;
    assert data[..upto][s..e] == data[s..e];
  }

  lemma StillTight(data: Text, span: SentenceSpan, start: nat, upto: nat)
    requires start <= upto <= |data| && Tight(data[..start], span)
    ensures Tight(data[..upto], span) && span.end <= start
  {
    hide TrimSpace, IsSpace;
    assert data[..start][span.start..span.end] == data[..upto][span.start..span.end];
  }

  lemma WithinMore(out: seq<SentenceSpan>, more: seq<SentenceSpan>, p: nat)
    requires Within(out, p) && out <= more
    ensures Within(more, p)
  {
    var k :| 0 <= k < |out| && out[k].start <= p < out[k].end;
    assert more[k] == out[k];
  }

  /** The spans with any text left. */
  function Kept(out: seq<SentenceSpan>): seq<SentenceSpan> {
    if out == [] then []
    else
      var last := out[|out| - 1];
      Kept(out[..|out| - 1]) + if last.text == [] then [] else [last]
  }

  lemma {:induction false} AllKept(out: seq<SentenceSpan>)
    requires forall k :: 0 <= k < |out| ==> out[k].text != []
    ensures Kept(out) == out
  {
    hide Kept;
    if out == [] {
      KeptNone();
    } else {
      var n := |out| - 1;
      AllKept(out[..n]);
      KeptSnoc(out[..n], out[n]);
      assert out == out[..n] + [out[n]];
    }
  }

  lemma KeptNone()
    ensures Kept([]) == []
  {
  }

  lemma KeptSnoc(front: seq<SentenceSpan>, last: SentenceSpan)
    ensures Kept(front + [last]) == Kept(front) + if last.text == [] then [] else [last]
  {
    assert (front + [last])[..|front|] == front;
  }

  /** Text that ends, but for white space, in one of the abbreviations. */
  predicate Abbreviated(text: Text, abbreviations: seq<Text>) {
    exists k :: 0 <= k < |abbreviations| && EndsIn(TrimSpace(text), abbreviations[k])
  }

  predicate EndsIn(t: Text, suffix: Text) {
    |suffix| <= |t| && t[|t| - |suffix|..] == suffix
  }

  lemma EndsInWhen(front: Text, t: Text, suffix: Text)
    ensures EndsIn(front + suffix, suffix)
    ensures EndsIn(t, suffix) ==> exists f: Text :: t == f + suffix
  {
    assert (front + suffix)[|front|..] == suffix;
    if EndsIn(t, suffix) { assert t == t[..|t| - |suffix|] + suffix; }
  }

  method EndsWithAbbreviation(text: Text, abbreviations: seq<Text>) returns (r: bool)
    ensures r == Abbreviated(text, abbreviations)
  {
    hide EndsIn, TrimSpace;
    var trimmed := TrimSpace(text);
    for k := 0 to |abbreviations|
      invariant forall i :: 0 <= i < k ==> !EndsIn(trimmed, abbreviations[i])
    {
      if EndsIn(trimmed, abbreviations[k]) {
        return true;
      }
    }
    return false;
  }

  /** Mr. Mrs. Dr. Ms. Jr. Sr. Prof. St. */
  function DefaultAbbreviations(): seq<Text> {
    [[0x4D, 0x72, 0x2E], [0x4D, 0x72, 0x73, 0x2E], [0x44, 0x72, 0x2E], [0x4D, 0x73, 0x2E],
     [0x4A, 0x72, 0x2E], [0x53, 0x72, 0x2E], [0x50, 0x72, 0x6F, 0x66, 0x2E], [0x53, 0x74, 0x2E]]
  }

  function Chosen(abbreviations: seq<Text>): seq<Text> {
    if abbreviations == [] then DefaultAbbreviations() else abbreviations
  }

  /** Where the text begins that the first m boundaries leave over: one after an abbreviation ends no sentence. */
  ghost function StartAfter(data: Text, matches: seq<(nat, nat)>, abbreviations: seq<Text>, m: nat): (start: nat)
    requires Boundaries(data, matches) && m <= |matches|
    ensures start <= if m == 0 then 0 else matches[m - 1].1
    decreases m
  {
    if m == 0 then 0
    else
      var from := StartAfter(data, matches, abbreviations, m - 1);
      assert from <= matches[m - 1].0;
      if Abbreviated(data[from..matches[m - 1].0 + 1], abbreviations) then from else matches[m - 1].1
  }

  /** What is left over after the last boundary: the tail. */
  ghost function TailStart(data: Text, matches: seq<(nat, nat)>, abbreviations: seq<Text>): (start: nat)
    requires Boundaries(data, matches)
    ensures start <= |data|
  {
    StartAfter(data, matches, Chosen(abbreviations), |matches|)
  }

  /** The tail is white space, but not only of the one-byte kind that `trimSpan` knows. */
  ghost predicate TailLost(data: Text, matches: seq<(nat, nat)>, abbreviations: seq<Text>)
    requires Boundaries(data, matches)
  {
    Lost(data[TailStart(data, matches, abbreviations)..])
  }

  ghost predicate Lost(tail: Text) {
    TrimSpace(tail) == [] && exists p :: 0 <= p < |tail| && !IsSpace(tail[p])
  }

  /** Trimming white space of one byte first makes no difference to whether any text is left. */
  lemma BlankEitherWay(data: Text, start: nat, s: nat, e: nat, end: nat)
    requires start <= s <= e <= end <= |data|
    requires forall p :: start <= p < s || e <= p < end ==> IsSpace(data[p])
    ensures TrimSpace(data[s..e]) == [] <==> TrimSpace(data[start..end]) == []
  {
    hide TrimSpace, TrimLeft, IsSpace;
    var whole := data[start..end];
    SpacesBefore(whole, s - start);
    assert whole[s - start..] == data[s..end];
    SpacesBehind(data[s..end], e - s);
    assert data[s..end][..e - s] == data[s..e];
    TrimSpaceSolid(whole);
    TrimSpaceSolid(data[s..e]);
  }

  /** White space of one byte before it makes no difference to trimmed text. */
  lemma TrimmedSame(data: Text, start: nat, s: nat, e: nat)
    requires start <= s <= e <= |data| && forall p :: start <= p < s ==> IsSpace(data[p])
    ensures TrimSpace(data[s..e]) == TrimSpace(data[start..e])
  {
    hide TrimRight, TrimLeft, IsSpace;
    var whole := data[start..e];
    SpacesBefore(whole, s - start);
    assert whole[s - start..] == data[s..e];
  }

  lemma SameAbbreviated(data: Text, start: nat, s: nat, e: nat, abbreviations: seq<Text>)
    requires start <= s <= e <= |data| && forall p :: start <= p < s ==> IsSpace(data[p])
    ensures Abbreviated(data[s..e], abbreviations) == Abbreviated(data[start..e], abbreviations)
  {
    TrimmedSame(data, start, s, e);
  }

  /** A sentence that ends in punctuation has text. */
  lemma SentenceStays(data: Text, s: nat, e: nat)
    requires s < e <= |data| && IsPunctuation(data[e - 1])
    ensures TrimSpace(data[s..e]) != []
  {
    EndStays(data[s..e]);
    TrimSpaceSolid(data[s..e]);
  }

  /** A document of one no-break space loses it: two bytes that are not space to `trimSpan`, and no span. */
  lemma NoBreakSpaceLost(abbreviations: seq<Text>)
    ensures var data: Text := [0xC2, 0xA0]; Boundaries(data, []) && TailLost(data, [], abbreviations)
  {
    var data: Text := [0xC2, 0xA0];
    assert SpaceWidth(data) == 2 && data[2..] == [];
    assert TrimLeft(data) == TrimLeft(data[2..]) == [];
    assert data[0..] == data;
    assert !IsSpace(data[0]);
  }

  ghost predicate HaveText(out: seq<SentenceSpan>) {
    forall k :: 0 <= k < |out| ==> out[k].text != [] && out[k].start < out[k].end
  }

  /**
   * `SplitSentencesWithSpans`, given the boundaries the pattern finds: the spans have text and cover every
   * byte that is not space, in order, up to the tail always, and the tail as well exactly when it is not
   * lost.
   */
  method SplitSentencesWithSpans(data: Text, matches: seq<(nat, nat)>, abbreviations: seq<Text>)
    returns (r: seq<SentenceSpan>)
    requires Boundaries(data, matches)
    ensures Covers(data, r, if TailLost(data, matches, abbreviations) then TailStart(data, matches, abbreviations)
      else |data|)
    ensures Covers(data, r, |data|) <==> !TailLost(data, matches, abbreviations)
    ensures HaveText(r)
  {
    hide Covers, Abbreviated, DefaultAbbreviations, TrimSpace, IsSpace, Tight, Lost, Kept;
    var chosen := Chosen(abbreviations);
    var out: seq<SentenceSpan>, start: nat := [], 0;
    NothingCovered(data);
    for m := 0 to |matches|
      invariant start <= |data| && Covers(data, out, start) && HaveText(out)
      invariant start == StartAfter(data, matches, chosen, m)
      invariant forall k :: m <= k < |matches| ==> start <= matches[k].0
    {
      var rawEnd, past := matches[m].0 + 1, matches[m].1;
      if rawEnd <= start {
        continue;
      }
      var s, e := TrimSpan(data, start, rawEnd);
      PunctuationStays(data, s, e, rawEnd);
      if e <= s {
        start := past;
        continue;
      }
      var text := data[s..e];
      SameAbbreviated(data, start, s, e, chosen);
      var short := EndsWithAbbreviation(text, chosen);
      if short {
        continue;
      }
      SentenceStays(data, s, e);
      CoversMore(data, out, start, s, e, past);
      out := out + [SentenceSpan(s, e, TrimSpace(text))];
      start := past;
    }
    out := TakeTail(data, out, start);
    r := DropEmpties(out);
  }

  /** The tail's span, if it has any. */
  method TakeTail(data: Text, sentences: seq<SentenceSpan>, start: nat) returns (out: seq<SentenceSpan>)
    requires Covers(data, sentences, start) && HaveText(sentences) && start <= |data|
    ensures Covers(data, Kept(out), if Lost(data[start..]) then start else |data|)
    ensures Covers(data, Kept(out), |data|) <==> !Lost(data[start..])
    ensures HaveText(Kept(out)) && forall k :: 0 <= k < |out| ==> out[k].start < out[k].end
  {
    hide Covers, Kept, TrimSpace, IsSpace;
    out := sentences;
    TextKept(sentences);
    if start < |data| {
      var s, e := TrimSpan(data, start, |data|);
      if e > s {
        TailKept(data, sentences, start, s, e);
        out := out + [SentenceSpan(s, e, TrimSpace(data[s..e]))];
      } else {
        OnlySpace(data, sentences, start, |data|);
      }
    }
  }

  /** What punctuation ends is not trimmed away. */
  lemma PunctuationStays(data: Text, s: nat, e: nat, rawEnd: nat)
    requires 0 < rawEnd <= |data| && s <= e <= rawEnd && IsPunctuation(data[rawEnd - 1])
    requires s == e ==> IsSpace(data[rawEnd - 1])
    requires forall p :: e <= p < rawEnd ==> IsSpace(data[p])
    ensures s < e == rawEnd
  {
  }

  lemma TextKept(out: seq<SentenceSpan>)
    requires HaveText(out)
    ensures Kept(out) == out
  {
    AllKept(out);
  }

  /** The tail is dropped exactly when it is white space, and what is left does not cover the data then. */
  lemma TailKept(data: Text, out: seq<SentenceSpan>, start: nat, s: nat, e: nat)
    requires Covers(data, out, start) && HaveText(out) && start <= s < e <= |data|
    requires !IsSpace(data[s]) && !IsSpace(data[e - 1])
    requires forall p :: start <= p < s || e <= p < |data| ==> IsSpace(data[p])
    ensures var more, lost := out + [SentenceSpan(s, e, TrimSpace(data[s..e]))], TrimSpace(data[start..]) == [];
      && Covers(data, more, |data|) && Kept(more) == (if lost then out else more)
      && (lost ==> !Covers(data, out, |data|)) && (!lost ==> HaveText(more)) && !IsSpace(data[start..][s - start])
  {
    hide TrimSpace, Kept, IsSpace, Tight;
    var span := SentenceSpan(s, e, TrimSpace(data[s..e]));
    CoversMore(data, out, start, s, e, |data|);
    BlankEitherWay(data, start, s, e, |data|);
    assert data[start..|data|] == data[start..];
    TextKept(out);
    KeptSnoc(out, span);
    forall k | 0 <= k < |out| ensures out[k].end <= start {
      StillTight(data, out[k], start, |data|);
    }
    assert !Within(out, s);
  }

  lemma NoneEmpty(data: Text, out: seq<SentenceSpan>)
    requires Covers(data, out, |data|)
    ensures forall k :: 0 <= k < |out| ==> out[k].start < out[k].end
  {
  }

  lemma NothingCovered(data: Text)
    ensures Covers(data, [], 0)
  {
  }

  lemma OnlySpace(data: Text, out: seq<SentenceSpan>, start: nat, upto: nat)
    requires Covers(data, out, start) && start <= upto <= |data|
    requires forall p :: start <= p < upto ==> IsSpace(data[p])
    ensures Covers(data, out, upto)
  {
    hide Tight;
    forall k | 0 <= k < |out| ensures Tight(data[..upto], out[k]) && out[k].end <= start {
      StillTight(data, out[k], start, upto);
    }
  }

  /** The final cleanup, in place. */
  method DropEmpties(out: seq<SentenceSpan>) returns (r: seq<SentenceSpan>)
    requires forall k :: 0 <= k < |out| ==> out[k].start < out[k].end
    ensures r == Kept(out)
  {
    var kept := out;
    var j := 0;
    for i := 0 to |out|
      invariant j <= i && |kept| == |out| && kept[i..] == out[i..]
      invariant kept[..j] == Kept(out[..i])
    {
      var ss := kept[i];
      assert ss == kept[i..][0] == out[i..][0];
      assert out[..i + 1][..i] == out[..i];
      if |ss.text| == 0 || ss.end <= ss.start {
        continue;
      }
      assert kept[j := ss][..j + 1] == kept[..j] + [ss];
      assert kept[j := ss][i + 1..] == out[i + 1..] by { assert kept[i..][1..] == out[i..][1..]; }
      kept := kept[j := ss];
      j := j + 1;
    }
    assert out[..|out|] == out;
    return kept[..j];
  }
}
