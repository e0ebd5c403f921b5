/** chunker.go: pieces packed into runs, as leaves and parents both are. */
module ChunkPacking {
  import opened Whitespace

  function Total(lens: seq<nat>): nat {
    if lens == [] then 0 else Total(lens[..|lens| - 1]) + lens[|lens| - 1]
  }

  /** The pieces from one place up to another. */
  datatype Run = Run(first: nat, past: nat)

  /** The length of the pieces of a run. */
  function Packed(lens: seq<nat>, first: int, past: int): nat {
    if 0 <= first <= past <= |lens| then Total(lens[first..past]) else 0
  }

  /** One run: not empty, and no longer than the size or one piece on top of an overlap. */
  ghost predicate Fits(lens: seq<nat>, size: nat, overlap: nat, longest: nat, n: nat, r: Run) {
    && r.first < r.past <= n
    && (Packed(lens, r.first, r.past) <= size || Packed(lens, r.first, r.past) <= overlap + longest)
  }

  /**
   * The next run: it begins as far back within the one before as the overlap allows, and ends later. The
   * one before was full: with its next piece it would have been longer than the size. This one is not
   * longer, unless it has only one piece more.
   */
  ghost predicate Follows(lens: seq<nat>, size: nat, overlap: nat, before: Run, r: Run) {
    && before.first <= r.first <= before.past < r.past && Packed(lens, r.first, before.past) <= overlap
    && (r.first > before.first ==> Packed(lens, r.first - 1, before.past) > overlap)
    && Packed(lens, before.first, before.past + 1) > size
    && (r.past > before.past + 1 ==> Packed(lens, r.first, r.past) <= size)
  }

  /** The runs of the first n pieces. */
  ghost predicate Packing(lens: seq<nat>, size: nat, overlap: nat, longest: nat, n: nat, runs: seq<Run>) {
    && (forall k :: 0 <= k < |runs| ==> Fits(lens, size, overlap, longest, n, runs[k]))
    && (forall k :: 0 < k < |runs| ==> Follows(lens, size, overlap, runs[k - 1], runs[k]))
    && (runs != [] ==> runs[0].first == 0 && runs[|runs| - 1].past == n)
    && (runs != [] && runs[0].past > 1 ==> Packed(lens, 0, runs[0].past) <= size)
    && (runs == [] <==> n == 0)
  }

  lemma PackedSnoc(lens: seq<nat>, first: nat, past: nat)
    requires first <= past < |lens|
    ensures Packed(lens, first, past + 1) == Packed(lens, first, past) + lens[past]
  {
    assert lens[first..past + 1][..past - first] == lens[first..past];
  }

  lemma {:induction false} PackedFront(lens: seq<nat>, first: nat, past: nat)
    requires first < past <= |lens|
    ensures Packed(lens, first, past) == lens[first] + Packed(lens, first + 1, past)
    decreases past
  {
    if first + 1 == past {
      PackedSnoc(lens, first, first);
    } else {
      PackedFront(lens, first, past - 1);
      PackedSnoc(lens, first, past - 1);
      PackedSnoc(lens, first + 1, past - 1);
    }
  }

  /** Where the tail that is kept begins: as far back as the overlap allows. */
  method TailFrom(lens: seq<nat>, first: nat, past: nat, overlap: nat) returns (startIndex: nat, overlapLen: nat)
    requires first <= past <= |lens|
    ensures first <= startIndex <= past && overlapLen == Packed(lens, startIndex, past) <= overlap
    ensures startIndex > first ==> Packed(lens, startIndex - 1, past) > overlap
  {
    overlapLen, startIndex := 0, past;
    var j := past;
    while j > first
      invariant first <= j == startIndex <= past && overlapLen == Packed(lens, startIndex, past) <= overlap
    {
      var l := lens[j - 1];
      PackedFront(lens, j - 1, past);
      if overlapLen + l > overlap {
        break;
      }
      overlapLen := overlapLen + l;
      j := j - 1;
      startIndex := j;
    }
  }

  /** The runs emitted so far, and the pieces from where to i that are still being gathered. */
  ghost predicate Gathering(lens: seq<nat>, size: nat, overlap: nat, longest: nat, i: nat, runs: seq<Run>, first: nat) {
    && first <= i <= |lens|
    && if runs == [] then first == 0 && (i > 1 ==> Packed(lens, 0, i) <= size) else
         Packing(lens, size, overlap, longest, runs[|runs| - 1].past, runs)
         && Continues(lens, size, overlap, i, runs[|runs| - 1], first)
  }

  /** What is being gathered after the last run. */
  ghost predicate Continues(lens: seq<nat>, size: nat, overlap: nat, i: nat, last: Run, first: nat) {
    && last.first <= first <= last.past <= i <= |lens| && Packed(lens, first, last.past) <= overlap
    && (first > last.first ==> Packed(lens, first - 1, last.past) > overlap)
    && (last.past < |lens| ==> Packed(lens, last.first, last.past + 1) > size)
    && (i > last.past + 1 ==> Packed(lens, first, i) <= size)
    && (first < i ==> last.past < i)
  }

  /** What is gathered becomes a run. */
  lemma RunAdded(lens: seq<nat>, size: nat, overlap: nat, longest: nat, i: nat, runs: seq<Run>, first: nat)
    requires Gathering(lens, size, overlap, longest, i, runs, first) && first < i
    requires Packed(lens, first, i) <= size || Packed(lens, first, i) <= overlap + longest
    ensures Packing(lens, size, overlap, longest, i, runs + [Run(first, i)])
  {
    hide Packed;
    var more := runs + [Run(first, i)];
    forall k | 0 <= k < |more| ensures Fits(lens, size, overlap, longest, i, more[k]) {
      if k < |runs| { assert Fits(lens, size, overlap, longest, runs[|runs| - 1].past, runs[k]); }
    }
  }

  /** After a full run, the tail of it that the overlap allows is gathered with the next piece. */
  lemma GoesOn(lens: seq<nat>, size: nat, overlap: nat, longest: nat, i: nat, runs: seq<Run>, last: Run, first: nat)
    requires Packing(lens, size, overlap, longest, i, runs) && 0 < i < |lens|
    requires runs != [] && runs[|runs| - 1] == last && last.first <= first <= i && Packed(lens, first, i) <= overlap
    requires first > last.first ==> Packed(lens, first - 1, i) > overlap
    requires Packed(lens, last.first, i + 1) > size
    ensures Gathering(lens, size, overlap, longest, i + 1, runs, first)
  {
    hide Packed, Fits, Follows;
  }

  /** A piece longer than the size, emitted alone: nothing of it is gathered. */
  lemma Alone(lens: seq<nat>, size: nat, overlap: nat, longest: nat, i: nat, runs: seq<Run>)
    requires Packing(lens, size, overlap, longest, i + 1, runs) && i < |lens| && overlap < size < lens[i]
    requires runs != [] && runs[|runs| - 1] == Run(i, i + 1)
    ensures Gathering(lens, size, overlap, longest, i + 1, runs, i + 1)
  {
    hide Fits, Follows, Packing;
    PackedNone(lens);
    PackedSnoc(lens, i, i);
    if i + 1 < |lens| { PackedSnoc(lens, i, i + 1); }
  }

  /** Nothing emitted: the piece joins those gathered. */
  lemma Joins(lens: seq<nat>, size: nat, overlap: nat, longest: nat, i: nat, runs: seq<Run>, first: nat)
    requires Gathering(lens, size, overlap, longest, i, runs, first) && i < |lens|
    requires first < i ==> Packed(lens, first, i + 1) <= size
    ensures Gathering(lens, size, overlap, longest, i + 1, runs, first)
  {
    hide Packed, Packing;
  }

  /** What is gathered at the end is the last run; nothing is when the last run was a piece alone. */
  lemma AllPacked(lens: seq<nat>, size: nat, overlap: nat, longest: nat, runs: seq<Run>, first: nat)
    requires Gathering(lens, size, overlap, longest, |lens|, runs, first) && first == |lens|
    ensures Packing(lens, size, overlap, longest, |lens|, runs)
  {
    hide Packed;
  }

  /**
   * The packing that leaves and parents share, the chunks emitted collected as runs. A piece larger than
   * the size is allowed alone.
   */
  method Pack(lens: seq<nat>, size: nat, overlap: nat, ghost longest: nat) returns (runs: seq<Run>)
    requires overlap < size && forall k :: 0 <= k < |lens| ==> 0 < lens[k] <= longest
    ensures Packing(lens, size, overlap, longest, |lens|, runs)
  {
    hide Packed, Packing, Continues;
    runs := [];
    var first, curLen := 0, 0;
    var i := 0;
    PackedNone(lens);
    while i < |lens|
      invariant i <= |lens| && Gathering(lens, size, overlap, longest, i, runs, first)
      invariant curLen == Packed(lens, first, i)
      invariant first < i ==> curLen <= size || curLen <= overlap + longest
      invariant first == i <==> curLen == 0
    {
      var sLen := lens[i];
      PackedSnoc(lens, first, i);
      if curLen > 0 && curLen + sLen > size {
        RunAdded(lens, size, overlap, longest, i, runs, first);
        ghost var last := Run(first, i);
        runs := runs + [Run(first, i)];
        var startIndex, overlapLen := TailFrom(lens, first, i, overlap);
        first, curLen := startIndex, overlapLen;
        PackedSnoc(lens, first, i);
        GoesOn(lens, size, overlap, longest, i, runs, last, first);
        if first == i && sLen > size {
          RunAdded(lens, size, overlap, longest, i + 1, runs, i);
          Alone(lens, size, overlap, longest, i, runs + [Run(i, i + 1)]);
          runs := runs + [Run(i, i + 1)];
          i := i + 1;
          first, curLen := i, 0;
          continue;
        }
      } else {
        Joins(lens, size, overlap, longest, i, runs, first);
      }
      curLen := curLen + sLen;
      i := i + 1;
    }
    if first < i {
      RunAdded(lens, size, overlap, longest, i, runs, first);
      runs := runs + [Run(first, i)];
    } else {
      AllPacked(lens, size, overlap, longest, runs, first);
    }
  }

  /** Fewer pieces are no longer. */
  lemma {:induction false} PackedWithin(lens: seq<nat>, a: nat, b: nat, c: nat, d: nat)
    requires a <= b <= c <= d <= |lens|
    ensures Packed(lens, b, c) <= Packed(lens, a, d)
    decreases d - a
  {
    if c < d {
      PackedSnoc(lens, a, d - 1);
      PackedWithin(lens, a, b, c, d - 1);
    } else if a < b {
      PackedFront(lens, a, d);
      PackedWithin(lens, a + 1, b, c, d);
    }
  }

  /** After the same run, two packings go on with the same one. */
  lemma SameNext(lens: seq<nat>, size: nat, overlap: nat, n: nat, before: Run, r: Run, s: Run)
    requires n <= |lens| && Follows(lens, size, overlap, before, r) && Follows(lens, size, overlap, before, s)
    requires r.past <= n && s.past <= n
    requires r.past < n ==> Packed(lens, r.first, r.past + 1) > size
    requires s.past < n ==> Packed(lens, s.first, s.past + 1) > size
    ensures r == s
  {
    hide Packed;
    if r.first < s.first { PackedWithin(lens, r.first, s.first - 1, before.past, before.past); }
    if s.first < r.first { PackedWithin(lens, s.first, r.first - 1, before.past, before.past); }
    if r.past < s.past { PackedWithin(lens, r.first, r.first, r.past + 1, s.past); }
    if s.past < r.past { PackedWithin(lens, s.first, s.first, s.past + 1, r.past); }
  }

  /** A run that is not the last is full. */
  lemma FullRun(lens: seq<nat>, size: nat, overlap: nat, longest: nat, n: nat, runs: seq<Run>, k: nat)
    requires Packing(lens, size, overlap, longest, n, runs) && k < |runs|
    ensures runs[k].past <= n && (runs[k].past < n ==> Packed(lens, runs[k].first, runs[k].past + 1) > size)
    ensures k > 0 ==> Follows(lens, size, overlap, runs[k - 1], runs[k])
    ensures k + 1 == |runs| <==> runs[k].past == n
  {
    hide Packed;
    assert Fits(lens, size, overlap, longest, n, runs[k]);
    if k + 1 < |runs| {
      assert Follows(lens, size, overlap, runs[k], runs[k + 1]);
      assert Fits(lens, size, overlap, longest, n, runs[k + 1]);
    }
  }

  lemma {:induction false} SameRun(lens: seq<nat>, size: nat, overlap: nat, l: nat, m: nat, n: nat, a: seq<Run>,
    b: seq<Run>, k: nat)
    requires n <= |lens| && Packing(lens, size, overlap, l, n, a) && Packing(lens, size, overlap, m, n, b)
    requires k < |a| && k < |b|
    ensures a[k] == b[k]
  {
    hide Packed, Packing, Follows;
    FullRun(lens, size, overlap, l, n, a, k);
    FullRun(lens, size, overlap, m, n, b, k);
    if k > 0 {
      SameRun(lens, size, overlap, l, m, n, a, b, k - 1);
      SameNext(lens, size, overlap, n, a[k - 1], a[k], b[k]);
    } else {
      FirstRun(lens, size, overlap, l, n, a);
      FirstRun(lens, size, overlap, m, n, b);
      if a[0].past < b[0].past { PackedWithin(lens, 0, 0, a[0].past + 1, b[0].past); }
      if b[0].past < a[0].past { PackedWithin(lens, 0, 0, b[0].past + 1, a[0].past); }
    }
  }

  lemma FirstRun(lens: seq<nat>, size: nat, overlap: nat, longest: nat, n: nat, runs: seq<Run>)
    requires Packing(lens, size, overlap, longest, n, runs) && runs != []
    ensures runs[0].first == 0 < runs[0].past && (runs[0].past > 1 ==> Packed(lens, 0, runs[0].past) <= size)
  {
    hide Packed;
    assert Fits(lens, size, overlap, longest, n, runs[0]);
  }

  /** A packing is determined by the lengths, the size and the overlap. */
  lemma PackingUnique(lens: seq<nat>, size: nat, overlap: nat, l: nat, m: nat, n: nat, a: seq<Run>, b: seq<Run>)
    requires n <= |lens| && Packing(lens, size, overlap, l, n, a) && Packing(lens, size, overlap, m, n, b)
    ensures a == b
  {
    hide Packed, Fits, Follows;
    if n > 0 {
      var k := if |a| < |b| then |a| - 1 else |b| - 1;
      SameRun(lens, size, overlap, l, m, n, a, b, k);
      FullRun(lens, size, overlap, l, n, a, k);
      FullRun(lens, size, overlap, m, n, b, k);
      forall j | 0 <= j < |a| ensures a[j] == b[j] { SameRun(lens, size, overlap, l, m, n, a, b, j); }
    }
  }

  lemma PackedNone(lens: seq<nat>)
    ensures forall k :: 0 <= k <= |lens| ==> Packed(lens, k, k) == 0
  {
  }

  lemma {:induction false} PastAscends(lens: seq<nat>, size: nat, overlap: nat, longest: nat, n: nat, runs: seq<Run>,
    j: nat, k: nat)
    requires Packing(lens, size, overlap, longest, n, runs) && j < k < |runs|
    ensures runs[j].past < runs[k].past
    decreases k
  {
    assert Follows(lens, size, overlap, runs[k - 1], runs[k]);
    if j < k - 1 { PastAscends(lens, size, overlap, longest, n, runs, j, k - 1); }
  }

  ghost predicate Ascending(runs: seq<Run>) {
    forall j, k :: 0 <= j < k < |runs| ==> runs[j].past < runs[k].past
  }

  lemma RunsInside(lens: seq<nat>, size: nat, overlap: nat, longest: nat, n: nat, runs: seq<Run>)
    requires Packing(lens, size, overlap, longest, n, runs)
    ensures forall k :: 0 <= k < |runs| ==> runs[k].first < runs[k].past <= n
    ensures Ascending(runs)
  {
    forall k | 0 <= k < |runs| ensures runs[k].first < runs[k].past <= n {
      assert Fits(lens, size, overlap, longest, n, runs[k]);
    }
    forall j, k | 0 <= j < k < |runs| ensures runs[j].past < runs[k].past {
      PastAscends(lens, size, overlap, longest, n, runs, j, k);
    }
  }

  /** No gaps: every piece is in some run. */
  lemma {:induction false} InSomeRun(lens: seq<nat>, size: nat, overlap: nat, longest: nat, n: nat, runs: seq<Run>,
    i: nat, k: nat) returns (r: nat)
    requires Packing(lens, size, overlap, longest, n, runs) && k < |runs| && i < runs[k].past
    ensures r <= k && runs[r].first <= i < runs[r].past
    decreases k
  {
    if runs[k].first <= i {
      r := k;
    } else {
      assert Follows(lens, size, overlap, runs[k - 1], runs[k]);
      r := InSomeRun(lens, size, overlap, longest, n, runs, i, k - 1);
    }
  }

  lemma LastRun(lens: seq<nat>, size: nat, overlap: nat, longest: nat, n: nat, runs: seq<Run>)
    requires Packing(lens, size, overlap, longest, n, runs) && n > 0
    ensures runs != [] && runs[|runs| - 1].past == n
  {
  }

  /** The runs that become chunks: those with any text. */
  function Emitted(runs: seq<Run>, text: Run -> Text): seq<Run> {
    if runs == [] then []
    else
      var last := runs[|runs| - 1];
      Emitted(runs[..|runs| - 1], text) + if text(last) == [] then [] else [last]
  }

  lemma EmittedSnoc(runs: seq<Run>, k: nat, text: Run -> Text)
    requires k < |runs|
    ensures Emitted(runs[..k + 1], text) == Emitted(runs[..k], text) + if text(runs[k]) == [] then [] else [runs[k]]
  {
    assert runs[..k + 1][..k] == runs[..k];
  }

  lemma {:induction false} EmittedMembers(runs: seq<Run>, text: Run -> Text)
    ensures forall k :: 0 <= k < |Emitted(runs, text)| ==> Emitted(runs, text)[k] in runs
  {
    if runs != [] { EmittedMembers(runs[..|runs| - 1], text); }
  }

  lemma {:induction false} EmittedAscend(runs: seq<Run>, text: Run -> Text)
    requires Ascending(runs)
    ensures Ascending(Emitted(runs, text))
  {
    if runs != [] {
      var n := |runs| - 1;
      var front := Emitted(runs[..n], text);
      EmittedAscend(runs[..n], text);
      EmittedMembers(runs[..n], text);
      forall j | 0 <= j < |front| ensures front[j].past < runs[n].past {
        assert front[j] in runs[..n];
      }
    }
  }

  lemma {:induction false} AllEmitted(runs: seq<Run>, text: Run -> Text)
    requires forall k :: 0 <= k < |runs| ==> text(runs[k]) != []
    ensures Emitted(runs, text) == runs
  {
    if runs != [] {
      var n := |runs| - 1;
      AllEmitted(runs[..n], text);
      assert runs == runs[..n] + [runs[n]];
    }
  }

  lemma EmittedNone(text: Run -> Text)
    ensures forall runs: seq<Run> :: Emitted(runs[..0], text) == []
  {
  }

  function Longest(lens: seq<nat>): (m: nat)
    ensures forall k :: 0 <= k < |lens| ==> lens[k] <= m
  {
    if lens == [] then 0
    else
      var m := Longest(lens[..|lens| - 1]);
      var last := lens[|lens| - 1];
      assert forall k :: 0 <= k < |lens| - 1 ==> lens[k] == lens[..|lens| - 1][k];
      if m < last then last else m
  }

  /** The size and overlap packing really uses. */
  function Settings(size: int, overlap: int, default': nat): (r: (nat, nat))
    requires default' > 0
    ensures r.0 > 0 && r.1 < r.0
    ensures size > 0 ==> r.0 == size
    ensures 0 <= overlap < r.0 ==> r.1 == overlap
  {
    var s := if size <= 0 then default' else size;
    var o := if overlap < 0 then 0 else overlap;
    (s, if o >= s then s / 4 else o)
  }
}
