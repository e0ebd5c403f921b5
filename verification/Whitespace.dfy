/** White space in UTF-8 text, as `strings.TrimSpace` and `unicode.IsSpace` see it. */
module Whitespace {
  import opened Keys
  import opened Sequences

  type Text = seq<Byte>

  /** The bytes `trimSpan` removes: the white space of one byte. */
  predicate IsSpace(b: Byte) {
    b == 0x20 || 0x09 <= b <= 0x0D
  }

  /** White space of three bytes: U+1680, U+2000 to U+200A, U+2028, U+2029, U+202F, U+205F and U+3000. */
  predicate WideSpace(a: Byte, b: Byte, c: Byte) {
    || (a == 0xE1 && b == 0x9A && c == 0x80)
    || (a == 0xE2 && b == 0x80 && (0x80 <= c <= 0x8A || c == 0xA8 || c == 0xA9 || c == 0xAF))
    || (a == 0xE2 && b == 0x81 && c == 0x9F)
    || (a == 0xE3 && b == 0x80 && c == 0x80)
  }

  /** How many bytes the white space character takes that t begins with; 0 when it begins with none. */
  function SpaceWidth(t: Text): (n: nat)
    ensures n <= |t| && n <= 3
  {
    if |t| >= 1 && IsSpace(t[0]) then 1
    else if |t| >= 2 && t[0] == 0xC2 && (t[1] == 0x85 || t[1] == 0xA0) then 2
    else if |t| >= 3 && WideSpace(t[0], t[1], t[2]) then 3
    else 0
  }

  /** The same for the character t ends with. */
  function EndWidth(t: Text): (n: nat)
    ensures n <= |t| && (n > 0 ==> SpaceWidth(t[|t| - n..]) == n)
  {
    if |t| >= 1 && SpaceWidth(t[|t| - 1..]) == 1 then 1
    else if |t| >= 2 && SpaceWidth(t[|t| - 2..]) == 2 then 2
    else if |t| >= 3 && SpaceWidth(t[|t| - 3..]) == 3 then 3
    else 0
  }

  function TrimLeft(t: Text): Text {
    var n := SpaceWidth(t);
    if n == 0 then t else TrimLeft(t[n..])
  }

  function TrimRight(t: Text): Text {
    var n := EndWidth(t);
    if n == 0 then t else TrimRight(t[..|t| - n])
  }

  /** `strings.TrimSpace`. */
  function TrimSpace(t: Text): Text {
    TrimRight(TrimLeft(t))
  }

  /** Text that begins with a character that is not white space. */
  predicate Solid(t: Text) {
    t != [] && SpaceWidth(t) == 0
  }

  /** Nothing put after it makes solid text begin with white space, if it does not go on a character. */
  lemma SolidFront(t: Text, sep: Byte, rest: Text)
    requires Solid(t) && sep < 0x80
    ensures Solid(t + [sep] + rest)
  {
    var u := t + [sep] + rest;
    assert u[0] == t[0] && u[1] == if |t| > 1 then t[1] else sep;
    assert |t| > 1 && |u| > 2 ==> u[2] == if |t| > 2 then t[2] else sep;
  }

  lemma {:induction false} TrimLeftSolid(t: Text)
    ensures TrimLeft(t) == [] || Solid(TrimLeft(t))
    decreases |t|
  {
    if SpaceWidth(t) > 0 { TrimLeftSolid(t[SpaceWidth(t)..]); }
  }

  lemma {:induction false} TrimRightPrefix(t: Text)
    ensures TrimRight(t) <= t
    decreases |t|
  {
    if EndWidth(t) > 0 { TrimRightPrefix(t[..|t| - EndWidth(t)]); }
  }

  /** What begins with white space still does with more behind it. */
  lemma SpaceWidthGrows(t: Text, u: Text)
    requires t <= u && SpaceWidth(t) > 0
    ensures SpaceWidth(u) > 0
  {
    assert forall i :: 0 <= i < |t| ==> u[i] == t[i];
  }

  /** Trimming the end takes nothing but white space, so it leaves some of a solid text. */
  lemma {:induction false} TrimRightLeaves(t: Text)
    requires Solid(t)
    ensures Solid(TrimRight(t))
    decreases |t|
  {
    var n := EndWidth(t);
    if n > 0 {
      var front := t[..|t| - n];
      if front != [] {
        if SpaceWidth(front) > 0 { SpaceWidthGrows(front, t); }
        TrimRightLeaves(front);
      }
    }
  }

  /** Trimmed text is empty or solid, and empty exactly when nothing is left from the front. */
  lemma TrimSpaceSolid(t: Text)
    ensures TrimSpace(t) == [] <==> TrimLeft(t) == []
    ensures TrimSpace(t) == [] || Solid(TrimSpace(t))
  {
    hide SpaceWidth;
    TrimLeftSolid(t);
    if TrimLeft(t) != [] { TrimRightLeaves(TrimLeft(t)); }
  }

  /** Solid text is not trimmed away. */
  lemma SolidStays(t: Text)
    requires Solid(t)
    ensures Solid(TrimSpace(t))
  {
    TrimRightLeaves(t);
  }

  /** Nothing but characters of white space. */
  predicate Blank(t: Text) {
    t == [] || (SpaceWidth(t) > 0 && Blank(t[SpaceWidth(t)..]))
  }

  lemma SpaceWidthKeeps(a: Text, b: Text)
    requires SpaceWidth(a) > 0
    ensures SpaceWidth(a + b) == SpaceWidth(a)
  {
    assert forall i :: 0 <= i < |a| ==> (a + b)[i] == a[i];
  }

  lemma {:induction false} BlankBoth(a: Text, b: Text)
    requires Blank(a) && Blank(b)
    ensures Blank(a + b)
  {
    if a == [] {
      assert a + b == b;
    } else {
      hide SpaceWidth;
      var n := SpaceWidth(a);
      BlankBoth(a[n..], b);
      SpaceWidthKeeps(a, b);
      assert (a + b)[n..] == a[n..] + b;
    }
  }

  lemma OneBlank(t: Text)
    requires SpaceWidth(t) > 0
    ensures Blank(t[..SpaceWidth(t)])
  {
    var n := SpaceWidth(t);
    assert forall i :: 0 <= i < n ==> t[..n][i] == t[i];
    assert SpaceWidth(t[..n]) == n;
  }

  lemma {:induction false} TrimLeftCuts(t: Text) returns (front: Text)
    ensures t == front + TrimLeft(t) && Blank(front) && SpaceWidth(TrimLeft(t)) == 0
    decreases |t|
  {
    hide SpaceWidth, Blank;
    var n := SpaceWidth(t);
    if n == 0 {
      front := [];
      NothingBlank();
    } else {
      var rest := TrimLeftCuts(t[n..]);
      OneBlank(t);
      BlankBoth(t[..n], rest);
      front := t[..n] + rest;
      Concat(t[..n], rest, TrimLeft(t[n..]));
      assert t == t[..n] + t[n..];
    }
  }

  lemma {:induction false} TrimRightCuts(t: Text) returns (back: Text)
    ensures t == TrimRight(t) + back && Blank(back) && EndWidth(TrimRight(t)) == 0
    decreases |t|
  {
    hide SpaceWidth, EndWidth, Blank;
    var n := EndWidth(t);
    if n == 0 {
      back := [];
      NothingBlank();
    } else {
      var m := |t| - n;
      var rest := TrimRightCuts(t[..m]);
      OneBlank(t[m..]);
      assert t[m..][..n] == t[m..];
      BlankBoth(rest, t[m..]);
      back := rest + t[m..];
      Concat(TrimRight(t[..m]), rest, t[m..]);
      assert t == t[..m] + t[m..];
    }
  }

  lemma NothingBlank()
    ensures Blank([])
  {
  }

  /** Trimming takes white space off both ends, and all of it. */
  lemma TrimSpaceCuts(t: Text) returns (front: Text, back: Text)
    ensures t == front + TrimSpace(t) + back && Blank(front) && Blank(back)
    ensures SpaceWidth(TrimSpace(t)) == 0 && EndWidth(TrimSpace(t)) == 0
  {
    hide SpaceWidth, EndWidth, Blank, TrimLeft, TrimRight;
    front := TrimLeftCuts(t);
    back := TrimRightCuts(TrimLeft(t));
    TrimSpaceSolid(t);
    NoWidth();
    Concat(front, TrimSpace(t), back);
  }

  lemma NoWidth()
    ensures SpaceWidth([]) == 0
  {
  }

  lemma TrimmedWhen(t: Text)
    ensures TrimSpace(t) == t <==> SpaceWidth(t) == 0 && EndWidth(t) == 0
  {
    hide SpaceWidth, EndWidth;
    if TrimSpace(t) == t { var front, back := TrimSpaceCuts(t); }
  }

  lemma WholeWidth(c: Text)
    ensures |c| == 1 ==> (SpaceWidth(c) == 1 <==> IsSpace(c[0]))
    ensures |c| == 2 ==> (SpaceWidth(c) == 2 <==> c[0] == 0xC2 && (c[1] == 0x85 || c[1] == 0xA0))
    ensures |c| == 3 ==> (SpaceWidth(c) == 3 <==> WideSpace(c[0], c[1], c[2]))
  {
  }

  /** A byte below 0x80 is not within a longer character of white space. */
  lemma NotWide(before: Text, sep: Byte, t: Text)
    requires sep < 0x80
    ensures |t| == 1 ==> SpaceWidth([sep] + t) != 2
    ensures |t| == 2 ==> SpaceWidth([sep] + t) != 3
    ensures |t| == 1 && |before| == 1 ==> SpaceWidth(before + [sep] + t) != 3
  {
    WholeWidth([sep] + t);
    WholeWidth(before + [sep] + t);
  }

  lemma NoEndWidth(t: Text)
    ensures EndWidth(t) == 0 <==>
      && (|t| >= 1 ==> SpaceWidth(t[|t| - 1..]) != 1)
      && (|t| >= 2 ==> SpaceWidth(t[|t| - 2..]) != 2)
      && (|t| >= 3 ==> SpaceWidth(t[|t| - 3..]) != 3)
  {
    hide SpaceWidth;
  }

  lemma TailOf(front: Text, tail: Text, k: nat)
    requires k <= |tail|
    ensures (front + tail)[|front + tail| - k..] == tail[|tail| - k..]
    ensures k == |tail| ==> tail[|tail| - k..] == tail
  {
  }

  /** Text that does not end in white space does not after more has been put before it. */
  lemma EndKept(front: Text, sep: Byte, t: Text)
    requires t != [] && sep < 0x80 && EndWidth(t) == 0
    ensures EndWidth(front + [sep] + t) == 0
  {
    hide SpaceWidth, EndWidth;
    var u, parted := front + [sep] + t, [sep] + t;
    Concat(front, [sep], t);
    NoEndWidth(t);
    NotWide([], sep, t);
    TailOf(front + [sep], t, 1);
    TailOf(front, parted, 2);
    if |t| >= 2 { TailOf(front + [sep], t, 2); }
    EndKeptWide(front, sep, t);
    NoEndWidth(u);
  }

  lemma EndKeptWide(front: Text, sep: Byte, t: Text)
    requires t != [] && sep < 0x80 && EndWidth(t) == 0
    ensures var u := front + [sep] + t; |u| >= 3 ==> SpaceWidth(u[|u| - 3..]) != 3
  {
    hide SpaceWidth, EndWidth;
    NoEndWidth(t);
    if |t| >= 3 {
      TailOf(front + [sep], t, 3);
    } else if |t| == 2 {
      Concat(front, [sep], t);
      TailOf(front, [sep] + t, 3);
      NotWide([], sep, t);
    } else if front != [] {
      LastByte(front, sep, t);
    }
  }

  lemma LastByte(front: Text, sep: Byte, t: Text)
    requires front != [] && |t| == 1 && sep < 0x80
    ensures var u := front + [sep] + t; SpaceWidth(u[|u| - 3..]) != 3
  {
    hide SpaceWidth;
    var n := |front| - 1;
    var last := front[n..];
    NotWide(last, sep, t);
    assert front == front[..n] + last;
    Concat(front[..n], last, [sep]);
    Concat(front[..n], last + [sep], t);
    TailOf(front[..n], last + [sep] + t, 3);
  }

  /** White space of one byte at the front makes no difference. */
  lemma {:induction false} SpacesBefore(t: Text, n: nat)
    requires n <= |t| && forall p :: 0 <= p < n ==> IsSpace(t[p])
    ensures TrimLeft(t) == TrimLeft(t[n..])
    decreases n
  {
    if n == 0 {
      assert t[0..] == t;
    } else {
      SpacesBefore(t[1..], n - 1);
      assert t[1..][n - 1..] == t[n..];
    }
  }

  /** White space of one byte at the end makes no difference to whether anything is left. */
  lemma {:induction false} SpaceBehind(t: Text, c: Byte)
    requires IsSpace(c)
    ensures TrimLeft(t + [c]) == [] <==> TrimLeft(t) == []
    decreases |t|
  {
    var n := SpaceWidth(t);
    if t == [] {
      assert t + [c] == [c] && [c][1..] == [];
    } else if n > 0 {
      SpaceWidthSame(t, c);
      SpaceBehind(t[n..], c);
      assert (t + [c])[n..] == t[n..] + [c];
    } else {
      SolidFront(t, c, []);
      assert t + [c] + [] == t + [c];
    }
  }

  lemma SpaceWidthSame(t: Text, c: Byte)
    requires SpaceWidth(t) > 0
    ensures SpaceWidth(t + [c]) == SpaceWidth(t)
  {
    assert forall i :: 0 <= i < |t| ==> (t + [c])[i] == t[i];
  }

  lemma {:induction false} SpacesBehind(t: Text, e: nat)
    requires e <= |t| && forall p :: e <= p < |t| ==> IsSpace(t[p])
    ensures TrimLeft(t) == [] <==> TrimLeft(t[..e]) == []
    decreases |t|
  {
    if e == |t| {
      assert t[..e] == t;
    } else {
      var n := |t| - 1;
      SpacesBehind(t[..n], e);
      assert t[..n][..e] == t[..e];
      SpaceBehind(t[..n], t[n]);
      assert t == t[..n] + [t[n]];
    }
  }

  /** Text that ends in a byte that is no white space, and no part of a longer character, is not trimmed away. */
  lemma {:induction false} EndStays(t: Text)
    requires t != [] && t[|t| - 1] < 0x80 && !IsSpace(t[|t| - 1])
    ensures TrimLeft(t) != []
    decreases |t|
  {
    var n := SpaceWidth(t);
    if n > 0 { EndStays(t[n..]); }
  }

  /** How many bytes the character takes that t begins with; 0 when these bytes are no UTF-8. */
  function RuneWidth(t: Text): (n: nat)
    requires t != []
    ensures n <= |t|
  {
    if t[0] < 0x80 then 1
    else if 0xC2 <= t[0] <= 0xDF && Continues(t, 2) then 2
    else if 0xE0 <= t[0] <= 0xEF && Continues(t, 3)
      && (t[0] == 0xE0 ==> t[1] >= 0xA0) && (t[0] == 0xED ==> t[1] <= 0x9F) then 3
    else if 0xF0 <= t[0] <= 0xF4 && Continues(t, 4)
      && (t[0] == 0xF0 ==> t[1] >= 0x90) && (t[0] == 0xF4 ==> t[1] <= 0x8F) then 4
    else 0
  }

  predicate Continues(t: Text, n: nat) {
    |t| >= n && forall i :: 1 <= i < n ==> 0x80 <= t[i] <= 0xBF
  }

  /** What is written for a character other than white space: itself, or the replacement character. */
  function Rune(t: Text): (r: Text)
    requires t != []
    ensures r != []
  {
    if RuneWidth(t) == 0 then [0xEF, 0xBF, 0xBD] else t[..RuneWidth(t)]
  }

  function RuneSize(t: Text): (n: nat)
    requires t != []
    ensures 0 < n <= |t|
  {
    if RuneWidth(t) == 0 then 1 else RuneWidth(t)
  }

  /** Every run of white space as one blank; space says whether one has just been written. */
  function Flat(t: Text, space: bool): Text
    decreases |t|
  {
    if t == [] then []
    else if SpaceWidth(t) > 0 then (if space then [] else [0x20]) + Flat(t[SpaceWidth(t)..], true)
    else Rune(t) + Flat(t[RuneSize(t)..], false)
  }

  /** The characters before the first white space, and what comes after them. */
  function FirstWord(t: Text): Text
    decreases |t|
  {
    if t == [] || SpaceWidth(t) > 0 then [] else Rune(t) + FirstWord(t[RuneSize(t)..])
  }

  function AfterWord(t: Text): Text
    decreases |t|
  {
    if t == [] || SpaceWidth(t) > 0 then t else AfterWord(t[RuneSize(t)..])
  }

  /** A word stays as it is up to the white space after it. */
  lemma {:induction false} FlatWord(t: Text, space: bool)
    requires t != [] && SpaceWidth(t) == 0
    ensures Flat(t, space) == FirstWord(t) + Flat(AfterWord(t), false)
    ensures AfterWord(t) == [] || SpaceWidth(AfterWord(t)) > 0
    decreases |t|
  {
    hide SpaceWidth, Rune, RuneSize;
    var rest := t[RuneSize(t)..];
    if rest == [] || SpaceWidth(rest) > 0 {
      assert AfterWord(rest) == rest && FirstWord(rest) == [];
      assert Rune(t) + [] == Rune(t);
    } else {
      FlatWord(rest, false);
      Concat(Rune(t), FirstWord(rest), Flat(AfterWord(rest), false));
    }
  }

  /** The white space between two words is one blank, however long it is. */
  lemma {:induction false} FlatGap(t: Text)
    requires t != [] && SpaceWidth(t) > 0
    ensures Flat(t, false) == [0x20] + Flat(TrimLeft(t), false)
    ensures Flat(t, true) == Flat(TrimLeft(t), false)
    ensures TrimLeft(t) == [] || SpaceWidth(TrimLeft(t)) == 0
    decreases |t|
  {
    hide SpaceWidth, Rune, RuneSize;
    var rest := t[SpaceWidth(t)..];
    if rest != [] && SpaceWidth(rest) > 0 {
      FlatGap(rest);
    } else {
      assert TrimLeft(rest) == rest && Flat(rest, true) == Flat(rest, false);
    }
  }

  /** No white space of one byte is left but blanks. */
  lemma {:induction false} FlatBlanks(t: Text, space: bool)
    ensures forall i :: 0 <= i < |Flat(t, space)| && IsSpace(Flat(t, space)[i]) ==> Flat(t, space)[i] == 0x20
    decreases |t|
  {
    if t != [] {
      if SpaceWidth(t) > 0 { FlatBlanks(t[SpaceWidth(t)..], true); } else { FlatBlanks(t[RuneSize(t)..], false); }
    }
  }

  lemma FlatSpace(b: Text, t: Text, space: bool)
    requires SpaceWidth(t) > 0
    ensures b + Flat(t, space) == (if space then b else b + [0x20]) + Flat(t[SpaceWidth(t)..], true)
  {
    hide SpaceWidth;
    var rest := Flat(t[SpaceWidth(t)..], true);
    if space {
      assert [] + rest == rest;
    } else {
      Concat(b, [0x20], rest);
    }
  }

  lemma FlatRune(b: Text, t: Text, space: bool)
    requires Solid(t)
    ensures b + Flat(t, space) == b + Rune(t) + Flat(t[RuneSize(t)..], false)
  {
    hide SpaceWidth, Rune, RuneSize;
    Concat(b, Rune(t), Flat(t[RuneSize(t)..], false));
  }

  /** `removeNewlines`: the loop writes the flattened text, which is then trimmed. */
  method RemoveNewlines(t: Text) returns (r: Text)
    ensures r == TrimSpace(Flat(t, false))
  {
    hide SpaceWidth, Rune, RuneSize, TrimSpace;
    var b: Text := [];
    var space := false;
    var rest := t;
    assert b + Flat(rest, space) == Flat(t, false);
    while rest != []
      invariant b + Flat(rest, space) == Flat(t, false)
      decreases |rest|
    {
      var n := SpaceWidth(rest);
      if n > 0 {
        FlatSpace(b, rest, space);
        if !space {
          b := b + [0x20];
          space := true;
        }
        rest := rest[n..];
      } else {
        FlatRune(b, rest, space);
        space := false;
        b := b + Rune(rest);
        rest := rest[RuneSize(rest)..];
      }
    }
    assert b + Flat(rest, space) == b;
    r := TrimSpace(b);
  }

  /** Flattening leaves some of a solid text. */
  lemma FlatLeaves(t: Text)
    requires Solid(t)
    ensures Solid(Flat(t, false)) && Solid(TrimSpace(Flat(t, false)))
  {
    hide SpaceWidth, Rune, RuneSize, TrimSpace;
    var r, rest := Rune(t), Flat(t[RuneSize(t)..], false);
    RuneSolid(t, rest);
    SolidStays(r + rest);
  }

  lemma RuneSolid(t: Text, rest: Text)
    requires Solid(t)
    ensures Solid(Rune(t) + rest)
  {
    var r := Rune(t);
    assert forall i :: 0 <= i < |r| ==> (r + rest)[i] == r[i];
  }
}
