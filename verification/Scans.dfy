/** Whole scans: everything in a range, everything with a prefix. */
module Scans {
  import opened Keys
  import opened Transducer
  import opened Fst
  import opened FstIterator
  import opened Automata

  /** The keys are listed in strictly ascending order, with the values m has for them. */
  ghost predicate Lists(m: map<Key, U64>, ks: seq<Key>, vs: seq<U64>) {
    && |ks| == |vs|
    && (forall i, j :: 0 <= i < j < |ks| ==> Less(ks[i], ks[j]))
    && (forall j :: 0 <= j < |ks| ==> ks[j] in m && vs[j] == m[ks[j]])
  }

  lemma ListsSnoc(m: map<Key, U64>, ks: seq<Key>, vs: seq<U64>, k: Key)
    requires Lists(m, ks, vs) && k in m && forall j :: 0 <= j < |ks| ==> Less(ks[j], k)
    ensures Lists(m, ks + [k], vs + [m[k]])
  {
    hide Less;
  }

  /** A scan that has reached cur: what it lists are the wanted keys from start up to cur. */
  ghost predicate Reached(m: map<Key, U64>, aut: Automaton, start: Key, cur: Key, ks: seq<Key>, vs: seq<U64>) {
    && Lists(m, ks, vs)
    && forall k: Key :: k in ks <==> Wanted(m, aut, k) && AtMost(start, k) && Less(k, cur)
  }

  lemma ReachedNext(m: map<Key, U64>, aut: Automaton, start: Key, cur: Key, next: Key, ks: seq<Key>, vs: seq<U64>)
    requires Reached(m, aut, start, cur, ks, vs) && Wanted(m, aut, cur) && AtMost(start, cur) && Less(cur, next)
    requires forall k: Key :: Wanted(m, aut, k) && Less(cur, k) ==> AtMost(next, k)
    ensures Reached(m, aut, start, next, ks + [cur], vs + [m[cur]])
  {
    hide Less;
    ListsSnoc(m, ks, vs, cur);
    forall k: Key ensures k in ks + [cur] <==> Wanted(m, aut, k) && AtMost(start, k) && Less(k, next) {
      Trichotomy(k, cur);
      Trichotomy(k, next);
      if Less(k, cur) { LessTransitive(k, cur, next); }
    }
  }

  lemma ReachedFirst(m: map<Key, U64>, aut: Automaton, start: Key, cur: Key)
    requires forall k: Key :: Wanted(m, aut, k) && AtMost(start, k) ==> AtMost(cur, k)
    ensures Reached(m, aut, start, cur, [], [])
  {
    forall k: Key | Wanted(m, aut, k) && AtMost(start, k) && Less(k, cur) ensures false {
      Trichotomy(k, cur);
    }
  }

  /** The last key of a scan that ends for good. */
  lemma ReachedLast(m: map<Key, U64>, aut: Automaton, start: Key, cur: Key, end: Option<Key>, ks: seq<Key>,
    vs: seq<U64>)
    requires Reached(m, aut, start, cur, ks, vs) && Wanted(m, aut, cur) && AtMost(start, cur)
    requires Before(cur, end)
    requires forall k: Key :: Wanted(m, aut, k) && Less(cur, k) ==> end.Some? && AtMost(end.value, k)
    ensures Lists(m, ks + [cur], vs + [m[cur]])
    ensures forall k: Key :: k in ks + [cur] <==> Wanted(m, aut, k) && AtMost(start, k) && Before(k, end)
  {
    hide Less;
    ListsSnoc(m, ks, vs, cur);
    forall k: Key ensures k in ks + [cur] <==> Wanted(m, aut, k) && AtMost(start, k) && Before(k, end) {
      Trichotomy(k, cur);
      if end.Some? {
        Trichotomy(k, end.value);
        if Less(k, cur) { LessTransitive(k, cur, end.value); }
      }
    }
  }

  predicate Before(k: Key, end: Option<Key>) {
    end.Some? ==> Less(k, end.value)
  }

  /** How many keys of m lie after k. */
  ghost function KeysAfter(m: map<Key, U64>, k: Key): nat {
    |set x | x in m && Less(k, x)|
  }

  lemma FewerAfter(m: map<Key, U64>, k: Key, l: Key)
    requires l in m && Less(k, l)
    ensures KeysAfter(m, l) < KeysAfter(m, k)
  {
    hide Less;
    var a, b := set x | x in m && Less(l, x), set x | x in m && Less(k, x);
    forall x | x in a ensures x in b { LessTransitive(k, l, x); }
    Trichotomy(l, l);
    Smaller(a, b, l);
  }

  lemma Smaller<T>(a: set<T>, b: set<T>, x: T)
    requires a <= b && x in b && x !in a
    ensures |a| < |b|
  {
    var c := b - a;
    assert b == a + c && x in c;
  }

  /**
   * A range scan, as users of an iterator write it: exactly the accepted keys in [start, end), each
   * once, ascending, with their values.
   */
  method Range(f: FST, start: Key, end: Option<Key>, aut: Option<Automaton>) returns (ks: seq<Key>, vs: seq<U64>)
    requires f.Valid() && (aut.Some? ==> Sound(aut.value)) && Before(start, end)
    ensures Lists(f.content, ks, vs)
    ensures var a := if aut == None then AlwaysMatch else aut.value;
      forall k: Key :: k in ks <==> Wanted(f.content, a, k) && AtMost(start, k) && Before(k, end)
  {
    hide FST.Valid, FSTIterator.Valid, Less, Wanted, Lists, Reached, Sound, FSTIterator.PastEnd, Before;
    ghost var a := if aut == None then AlwaysMatch else aut.value;
    var i, ok := NewIterator(f, start, end, aut);
    ks, vs := [], [];
    StartUnclamped(i, end);
    if !ok {
      NothingListed(f.content, a, start, end);
      return;
    }
    ReachedFirst(f.content, a, start, i.keysStack);
    while true
      invariant i.Valid() && i.f == f && i.aut == a && i.endKeyExclusive == end && fresh(i)
      invariant Wanted(f.content, a, i.keysStack) && AtMost(start, i.keysStack) && Before(i.keysStack, end)
      invariant Reached(f.content, a, start, i.keysStack, ks, vs)
      decreases KeysAfter(f.content, i.keysStack)
    {
      ghost var cur, seen, seenVals := i.keysStack, ks, vs;
      WantedThere(f.content, a, cur);
      var key, val := i.Current();
      ks, vs := ks + [if key == None then [] else key.value], vs + [val];
      ok := i.Next();
      PastEndIs(i, end);
      if !ok {
        ReachedLast(f.content, a, start, cur, end, seen, seenVals);
        return;
      }
      ReachedNext(f.content, a, start, cur, i.keysStack, seen, seenVals);
      AtMostTransitive(start, cur, i.keysStack);
      WantedThere(f.content, a, i.keysStack);
      FewerAfter(f.content, cur, i.keysStack);
    }
  }

  lemma WantedThere(m: map<Key, U64>, a: Automaton, k: Key)
    requires Wanted(m, a, k)
    ensures k in m
  {
  }

  lemma PastEndIs(i: FSTIterator, end: Option<Key>)
    requires i.endKeyExclusive == end
    ensures forall k: Key {:trigger i.PastEnd(k)} {:trigger Before(k, end)} :: i.PastEnd(k) <==> !Before(k, end)
    ensures forall k: Key :: !Before(k, end) ==> end.Some? && AtMost(end.value, k)
  {
    hide Less;
    forall k: Key ensures i.PastEnd(k) <==> !Before(k, end) {
      if end.Some? { Trichotomy(k, end.value); }
    }
  }

  lemma StartUnclamped(i: FSTIterator, end: Option<Key>)
    requires i.endKeyExclusive == end && Before(i.startKeyInclusive, end)
    ensures i.Clamped(i.startKeyInclusive) == i.startKeyInclusive
    ensures forall k: Key {:trigger i.PastEnd(k)} {:trigger Before(k, end)} :: i.PastEnd(k) <==> !Before(k, end)
    ensures Before(i.startKeyInclusive, end)
  {
    PastEndIs(i, end);
    Trichotomy(i.startKeyInclusive, i.startKeyInclusive);
    if end.Some? { Trichotomy(i.startKeyInclusive, end.value); }
  }

  lemma NothingListed(m: map<Key, U64>, aut: Automaton, start: Key, end: Option<Key>)
    requires forall k: Key :: Wanted(m, aut, k) && AtMost(start, k) ==> !Before(k, end)
    ensures Lists(m, [], [])
    ensures forall k: Key :: k in [] <==> Wanted(m, aut, k) && AtMost(start, k) && Before(k, end)
  {
  }
}
