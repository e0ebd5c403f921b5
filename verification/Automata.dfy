/** automaton.go: the contract scans are filtered by. */
module Automata {
  import opened Keys
  import opened Transducer

  /** An automaton over bytes, its states numbered by ints. */
  datatype Automaton = Automaton(start: int, isMatch: int -> bool, canMatch: int -> bool, accept: (int, Byte) -> int)

  function Run(a: Automaton, s: int, k: Key): int
    decreases |k|
  {
    if k == [] then s else Run(a, a.accept(s, k[0]), k[1..])
  }

  predicate Accepts(a: Automaton, k: Key) {
    a.isMatch(Run(a, a.start, k))
  }

  /** What `CanMatch` promises: a state it rules out is on the way to no match. */
  ghost predicate Sound(a: Automaton) {
    forall s: int, k: Key :: a.isMatch(Run(a, s, k)) ==> a.canMatch(s)
  }

  lemma {:induction false} RunSnoc(a: Automaton, s: int, k: Key, c: Byte)
    ensures Run(a, s, k + [c]) == a.accept(Run(a, s, k), c)
    decreases |k|
  {
    if k == [] {
      assert ([] + [c])[1..] == [];
    } else {
      assert (k + [c])[1..] == k[1..] + [c];
      RunSnoc(a, a.accept(s, k[0]), k[1..], c);
    }
  }

  lemma {:induction false} RunOn(a: Automaton, s: int, k: Key, l: Key)
    ensures Run(a, s, k + l) == Run(a, Run(a, s, k), l)
    decreases |k|
  {
    if k == [] {
      assert [] + l == l;
    } else {
      assert (k + l)[1..] == k[1..] + l;
      RunOn(a, a.accept(s, k[0]), k[1..], l);
    }
  }

  /** The automaton used when none is given. */
  const AlwaysMatch: Automaton := Automaton(0, _ => true, _ => true, (_, _) => 0)

  lemma AlwaysMatchSound()
    ensures Sound(AlwaysMatch) && forall k: Key :: Accepts(AlwaysMatch, k)
  {
  }

  /** The run of k from s is never in the state transducers use for none. */
  predicate NeverNone(a: Automaton, s: int, k: Key)
    decreases |k|
  {
    k == [] || (a.accept(s, k[0]) != NONE_ADDR && NeverNone(a, a.accept(s, k[0]), k[1..]))
  }

  /** An automaton whose none state is hopeless loses nothing by stopping there. */
  lemma {:induction false} NeverNoneIfHopeless(a: Automaton, s: int, k: Key)
    requires Sound(a) && !a.canMatch(NONE_ADDR) && a.isMatch(Run(a, s, k))
    ensures NeverNone(a, s, k)
    decreases |k|
  {
    if k != [] {
      NeverNoneIfHopeless(a, a.accept(s, k[0]), k[1..]);
    }
  }

  /** What `AutomatonContains` answers: membership, but a run into the none state stops for good. */
  predicate Contains(a: Automaton, k: Key) {
    Accepts(a, k) && NeverNone(a, a.start, k)
  }

  lemma {:induction false} NeverNoneFront(a: Automaton, s: int, p: Key, l: Key)
    requires NeverNone(a, s, p + l) && p != []
    ensures Run(a, s, p) != NONE_ADDR
    decreases |p|
  {
    assert (p + l)[1..] == p[1..] + l;
    if |p| > 1 { NeverNoneFront(a, a.accept(s, p[0]), p[1..], l); }
  }

  /** Where a run gets into the none state. */
  lemma {:induction false} NoneAfter(a: Automaton, s: int, k: Key) returns (p: Key, l: Key)
    requires !NeverNone(a, s, k)
    ensures p != [] && k == p + l && Run(a, s, p) == NONE_ADDR
    decreases |k|
  {
    var next := a.accept(s, k[0]);
    if next == NONE_ADDR {
      p, l := [k[0]], k[1..];
      assert p[1..] == [];
    } else {
      p, l := NoneAfter(a, next, k[1..]);
      p := [k[0]] + p;
      assert p[1..] + l == k[1..];
    }
  }

  /** It is membership of every key exactly when no key gets into the none state and on to a match. */
  lemma ContainsWhen(a: Automaton)
    ensures (forall k: Key :: Contains(a, k) <==> Accepts(a, k)) <==>
      forall p: Key, l: Key :: p != [] && Run(a, a.start, p) == NONE_ADDR ==> !a.isMatch(Run(a, NONE_ADDR, l))
  {
    if forall k: Key :: Contains(a, k) <==> Accepts(a, k) {
      forall p: Key, l: Key | p != [] && Run(a, a.start, p) == NONE_ADDR ensures !a.isMatch(Run(a, NONE_ADDR, l)) {
        RunOn(a, a.start, p, l);
        if Accepts(a, p + l) {
          assert Contains(a, p + l);
          NeverNoneFront(a, a.start, p, l);
          assert false;
        }
      }
    } else {
      var k: Key :| Accepts(a, k) && !Contains(a, k);
      var p, l := NoneAfter(a, a.start, k);
      RunOn(a, a.start, p, l);
    }
  }

  /** An automaton that matches everything, and goes into the none state at the first byte: it is stopped there. */
  lemma StoppedAtNone(c: Byte)
    ensures var a := Automaton(0, _ => true, _ => true, (_, _) => NONE_ADDR);
      Sound(a) && Accepts(a, [c]) && !Contains(a, [c])
  {
    var a := Automaton(0, _ => true, _ => true, (_, _) => NONE_ADDR);
    assert a.accept(0, [c][0]) == NONE_ADDR;
  }

  /** `AutomatonContains`: membership, except that the run stops for good in the none state. */
  method AutomatonContains(a: Automaton, k: Key) returns (r: bool)
    requires Sound(a)
    ensures r <==> Contains(a, k)
    ensures !a.canMatch(NONE_ADDR) ==> (r <==> Accepts(a, k))
  {
    if !a.canMatch(NONE_ADDR) && Accepts(a, k) {
      NeverNoneIfHopeless(a, a.start, k);
    }
    var i := 0;
    var curr := a.start;
    while a.canMatch(curr) && i < |k|
      invariant 0 <= i <= |k|
      invariant Run(a, a.start, k) == Run(a, curr, k[i..])
      invariant NeverNone(a, a.start, k) == NeverNone(a, curr, k[i..])
      decreases |k| - i
    {
      assert k[i..][1..] == k[i + 1..];
      curr := a.accept(curr, k[i]);
      if curr == NONE_ADDR {
        break;
      }
      i := i + 1;
    }
    if i != |k| {
      return false;
    }
    return a.isMatch(curr);
  }
}
