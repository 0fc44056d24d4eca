/** auto_decompose's text step: split a description on `\s+(?:and|then|also|while)\s+`,
    ignoring case, strip the pieces and drop the empty ones. */
module Conjunctions {
  import opened Wrappers
  import opened Sequences

  const KEYWORDS: seq<string> := ["and", "then", "also", "while"]

  /** str.isspace, which both \s and strip use. */
  predicate IsSpace(c: char) {
    || '\U{9}' <= c <= '\U{D}' || '\U{1C}' <= c <= '\U{20}' || c == '\U{85}' || c == '\U{A0}'
    || c == '\U{1680}' || '\U{2000}' <= c <= '\U{200A}' || c == '\U{2028}' || c == '\U{2029}'
    || c == '\U{202F}' || c == '\U{205F}' || c == '\U{3000}'
  }

  /** The letter that IGNORECASE compares: ASCII upper case, dotted and dotless i, long s. */
  function Fold(c: char): char {
    if 'A' <= c <= 'Z' then c + ('a' - 'A')
    else if c == '\U{130}' || c == '\U{131}' then 'i'
    else if c == '\U{17F}' then 's'
    else c
  }

  predicate AllSpace(u: string) {
    forall k :: 0 <= k < |u| ==> IsSpace(u[k])
  }

  predicate IsKeyword(u: string) {
    exists w :: w in KEYWORDS && |u| == |w| && forall k :: 0 <= k < |w| ==> Fold(u[k]) == w[k]
  }

  /** A letter of a conjunction is matched by itself in either case, an i also by the dotted and
      the dotless one, and an s by the long one. */
  lemma LettersExactly(c: char, letter: char)
    requires letter in "andthenalsowhile"
    ensures Fold(c) == letter <==>
      || c == letter || c == letter - ('a' - 'A') || (letter == 'i' && c in "\U{130}\U{131}")
      || (letter == 's' && c == '\U{17F}')
  {
  }

  function Folded(u: string): string {
    seq(|u|, i requires 0 <= i < |u| => Fold(u[i]))
  }

  /** The conjunctions are these four, in any letter case. */
  lemma KeywordsExactly(u: string)
    ensures IsKeyword(u) <==> Folded(u) in {"and", "then", "also", "while"}
  {
    forall w: string ensures |u| == |w| && (forall k :: 0 <= k < |w| ==> Fold(u[k]) == w[k]) <==> Folded(u) == w {
    }
    hide Fold, Folded;
    assert forall w :: w in KEYWORDS <==> w in {"and", "then", "also", "while"};
  }

  /** u is matched by the whole pattern: spaces, a conjunction, spaces. */
  ghost predicate Separator(u: string) {
    exists a, b :: 0 < a <= b < |u| && AllSpace(u[..a]) && IsKeyword(u[a..b]) && AllSpace(u[b..])
  }

  /** No substring of p is a separator. */
  ghost predicate Conjunctionless(p: string) {
    forall a, b :: 0 <= a <= b <= |p| ==> !Separator(p[a..b])
  }

  // ----- Matching at a position -----

  function SpaceEnd(t: string, i: nat): (e: nat)
    requires i <= |t|
    ensures i <= e <= |t| && AllSpace(t[i..e]) && (e < |t| ==> !IsSpace(t[e]))
    decreases |t| - i
  {
    if i < |t| && IsSpace(t[i]) then SpaceEnd(t, i + 1) else i
  }

  /** The end of a conjunction starting at j that white space follows. */
  function KeywordEnd(t: string, j: nat): (r: Option<nat>)
    requires j <= |t|
    ensures r.Some? ==> j < r.value < |t|
  {
    if j + 3 < |t| && IsKeyword(t[j..j + 3]) && IsSpace(t[j + 3]) then Some(j + 3)
    else if j + 4 < |t| && IsKeyword(t[j..j + 4]) && IsSpace(t[j + 4]) then Some(j + 4)
    else if j + 5 < |t| && IsKeyword(t[j..j + 5]) && IsSpace(t[j + 5]) then Some(j + 5)
    else None
  }

  lemma KeywordShape(u: string)
    requires IsKeyword(u)
    ensures 3 <= |u| <= 5 && !IsSpace(u[0])
  {
  }

  lemma KeywordFound(t: string, j: nat)
    requires j <= |t| && KeywordEnd(t, j).Some?
    ensures IsKeyword(t[j..KeywordEnd(t, j).value]) && IsSpace(t[KeywordEnd(t, j).value])
  {
    hide IsKeyword, IsSpace;
  }

  lemma KeywordNotMissed(t: string, j: nat, b: nat)
    requires j <= b < |t| && IsKeyword(t[j..b]) && IsSpace(t[b])
    ensures KeywordEnd(t, j).Some?
  {
    KeywordShape(t[j..b]);
    hide IsKeyword, IsSpace;
    assert b == j + 3 || b == j + 4 || b == j + 5;
  }

  /** Where the greedy match starting at i ends, if there is one. */
  function MatchEnd(t: string, i: nat): Option<nat>
    requires i <= |t|
  {
    var j := SpaceEnd(t, i);
    if j == i then None
    else
      match KeywordEnd(t, j)
      case None => None
      case Some(b) => Some(SpaceEnd(t, b))
  }

  lemma SliceOfSlice(t: string, i: nat, e: nat, a: nat, b: nat)
    requires i <= e <= |t| && a <= b <= e - i
    ensures t[i..e][a..b] == t[i + a..i + b]
  {
    var u := t[i..e];
    assert forall k :: 0 <= k < b - a ==> u[a..b][k] == u[a + k] == t[i + a + k];
  }

  lemma MakeSeparator(t: string, i: nat, a: nat, b: nat, e: nat)
    requires i < a <= b < e <= |t| && AllSpace(t[i..a]) && IsKeyword(t[a..b]) && AllSpace(t[b..e])
    ensures Separator(t[i..e])
  {
    hide AllSpace, IsKeyword;
    SliceOfSlice(t, i, e, 0, a - i);
    SliceOfSlice(t, i, e, a - i, b - i);
    SliceOfSlice(t, i, e, b - i, e - i);
    var u := t[i..e];
    assert u[..a - i] == u[0..a - i] && u[b - i..] == u[b - i..e - i];
  }

  lemma MatchIsSeparator(t: string, i: nat)
    requires i <= |t| && MatchEnd(t, i).Some?
    ensures i < MatchEnd(t, i).value <= |t| && Separator(t[i..MatchEnd(t, i).value])
  {
    var j := SpaceEnd(t, i);
    var b := KeywordEnd(t, j).value;
    KeywordFound(t, j);
    hide IsKeyword, KeywordEnd, Separator;
    MakeSeparator(t, i, j, b, SpaceEnd(t, b));
  }

  /** Where the three parts of a separator lie in the text. */
  lemma SeparatorShape(t: string, i: nat, e: nat) returns (a: nat, b: nat)
    requires i <= e <= |t| && Separator(t[i..e])
    ensures i < a <= b < e && IsKeyword(t[a..b]) && IsSpace(t[b])
    ensures forall k :: i <= k < a ==> IsSpace(t[k])
  {
    hide IsKeyword;
    var u := t[i..e];
    var c, d :| 0 < c <= d < |u| && AllSpace(u[..c]) && IsKeyword(u[c..d]) && AllSpace(u[d..]);
    a, b := i + c, i + d;
    SliceOfSlice(t, i, e, c, d);
    forall k | i <= k < a ensures IsSpace(t[k]) {
      assert IsSpace(u[..c][k - i]);
    }
    assert IsSpace(u[d..][0]);
  }

  lemma {:induction false} SpaceEndIs(t: string, i: nat, a: nat)
    requires i <= a < |t| && !IsSpace(t[a]) && forall k :: i <= k < a ==> IsSpace(t[k])
    ensures SpaceEnd(t, i) == a
    decreases a - i
  {
    if i < a {
      SpaceEndIs(t, i + 1, a);
    }
  }

  lemma SeparatorMatches(t: string, i: nat, e: nat)
    requires i <= e <= |t| && Separator(t[i..e])
    ensures i < e && MatchEnd(t, i).Some?
  {
    var a, b := SeparatorShape(t, i, e);
    KeywordShape(t[a..b]);
    SpaceEndIs(t, i, a);
    KeywordNotMissed(t, a, b);
  }

  // ----- re.split -----

  /** The pieces and the separators between them; `start` is where the current piece
      began and i is how far the search for the next match has come. */
  function Split(t: string, start: nat, i: nat): (r: (seq<string>, seq<string>))
    requires start <= i <= |t|
    ensures |r.0| == |r.1| + 1
    decreases |t| - i
  {
    if i == |t| then ([t[start..]], [])
    else
      match MatchEnd(t, i)
      case None => Split(t, start, i + 1)
      case Some(e) =>
        MatchIsSeparator(t, i);
        var rest := Split(t, e, e);
        ([t[start..i]] + rest.0, [t[i..e]] + rest.1)
  }

  function Interleave(pieces: seq<string>, seps: seq<string>): string
    requires |pieces| == |seps| + 1
  {
    if seps == [] then pieces[0] else pieces[0] + seps[0] + Interleave(pieces[1..], seps[1..])
  }

  lemma InterleaveCons(p: string, sep: string, pieces: seq<string>, seps: seq<string>)
    requires |pieces| == |seps| + 1
    ensures Interleave([p] + pieces, [sep] + seps) == p + sep + Interleave(pieces, seps)
  {
    assert ([p] + pieces)[1..] == pieces && ([sep] + seps)[1..] == seps;
  }

  /** Splitting loses nothing. */
  lemma {:induction false} SplitLossless(t: string, start: nat, i: nat)
    requires start <= i <= |t|
    ensures Interleave(Split(t, start, i).0, Split(t, start, i).1) == t[start..]
    decreases |t| - i
  {
    hide Separator, MatchEnd;
    if i < |t| {
      match MatchEnd(t, i)
      case None => SplitLossless(t, start, i + 1);
      case Some(e) =>
        MatchIsSeparator(t, i);
        SplitLossless(t, e, e);
        InterleaveCons(t[start..i], t[i..e], Split(t, e, e).0, Split(t, e, e).1);
        assert t[start..] == t[start..i] + t[i..e] + t[e..];
    }
  }

  /** It cuts only at separators. */
  lemma {:induction false} SplitCutsAtSeparators(t: string, start: nat, i: nat)
    requires start <= i <= |t|
    ensures forall k :: 0 <= k < |Split(t, start, i).1| ==> Separator(Split(t, start, i).1[k])
    decreases |t| - i
  {
    hide Separator, MatchEnd;
    if i < |t| {
      match MatchEnd(t, i)
      case None => SplitCutsAtSeparators(t, start, i + 1);
      case Some(e) =>
        MatchIsSeparator(t, i);
        SplitCutsAtSeparators(t, e, e);
    }
  }

  lemma NoMatchNoSeparator(t: string, start: nat, i: nat)
    requires start <= i <= |t|
    requires forall p :: start <= p < i ==> MatchEnd(t, p).None?
    ensures Conjunctionless(t[start..i])
  {
    forall a, b | 0 <= a <= b <= i - start ensures !Separator(t[start..i][a..b]) {
      SliceOfSlice(t, start, i, a, b);
      if Separator(t[start + a..start + b]) {
        SeparatorMatches(t, start + a, start + b);
      }
    }
  }

  /** Leftmost matching leaves no separator inside a piece. */
  lemma {:induction false} SplitPieces(t: string, start: nat, i: nat)
    requires start <= i <= |t|
    requires forall p :: start <= p < i ==> MatchEnd(t, p).None?
    ensures forall k :: 0 <= k < |Split(t, start, i).0| ==> Conjunctionless(Split(t, start, i).0[k])
    decreases |t| - i
  {
    hide Conjunctionless, MatchEnd;
    if i == |t| {
      NoMatchNoSeparator(t, start, i);
      assert t[start..] == t[start..i];
    } else {
      match MatchEnd(t, i)
      case None => SplitPieces(t, start, i + 1);
      case Some(e) =>
        MatchIsSeparator(t, i);
        NoMatchNoSeparator(t, start, i);
        SplitPieces(t, e, e);
    }
  }

  lemma {:induction false} SplitNothing(p: string, i: nat)
    requires i <= |p| && Conjunctionless(p)
    ensures Split(p, 0, i).0 == [p]
    decreases |p| - i
  {
    if i < |p| {
      if MatchEnd(p, i).Some? {
        MatchIsSeparator(p, i);
        assert false;
      }
      SplitNothing(p, i + 1);
    }
  }

  // ----- strip, filter, slice -----

  function StripLeft(p: string): string {
    p[SpaceEnd(p, 0)..]
  }

  lemma BlankConcat(u: string, v: string)
    requires AllSpace(u) && AllSpace(v)
    ensures AllSpace(u + v)
  {
  }

  function StripRight(p: string): (q: string)
    ensures q <= p && (q != [] ==> !IsSpace(q[|q| - 1])) && AllSpace(p[|q|..])
  {
    if p != [] && IsSpace(p[|p| - 1]) then
      var q := StripRight(p[..|p| - 1]);
      assert p[|q|..] == p[..|p| - 1][|q|..] + [p[|p| - 1]];
      BlankConcat(p[..|p| - 1][|q|..], [p[|p| - 1]]);
      q
    else p
  }

  function Strip(p: string): string {
    StripRight(StripLeft(p))
  }

  function Stripped(pieces: seq<string>): seq<string> {
    if pieces == [] then []
    else
      var p := Strip(pieces[|pieces| - 1]);
      Stripped(pieces[..|pieces| - 1]) + if p == [] then [] else [p]
  }

  /** Python's parts[:m]. */
  function Slice<T>(parts: seq<T>, m: int): seq<T> {
    if m < 0 then if |parts| + m < 0 then [] else parts[..|parts| + m]
    else if m < |parts| then parts[..m]
    else parts
  }

  function Parts(description: string, maxSubgoals: int): seq<string> {
    Slice(Stripped(Split(description, 0, 0).0), maxSubgoals)
  }

  lemma StripIsSlice(p: string) returns (a: nat)
    ensures a + |Strip(p)| <= |p| && Strip(p) == p[a..a + |Strip(p)|]
  {
    a := SpaceEnd(p, 0);
    hide IsSpace, AllSpace;
    assert forall k :: 0 <= k < |Strip(p)| ==> Strip(p)[k] == p[a..][k] == p[a + k];
  }

  lemma StripKeeps(p: string)
    requires Conjunctionless(p)
    ensures Conjunctionless(Strip(p))
  {
    var a := StripIsSlice(p);
    var q := Strip(p);
    hide Separator, Strip;
    forall i, j | 0 <= i <= j <= |q| ensures !Separator(q[i..j]) {
      SliceOfSlice(p, a, a + |q|, i, j);
    }
  }

  lemma {:induction false} StrippedKeeps(pieces: seq<string>)
    requires forall k :: 0 <= k < |pieces| ==> Conjunctionless(pieces[k])
    ensures forall k :: 0 <= k < |Stripped(pieces)| ==> Conjunctionless(Stripped(pieces)[k])
    ensures |Stripped(pieces)| <= |pieces|
  {
    if pieces == [] {
    } else {
      StripKeeps(pieces[|pieces| - 1]);
      StrippedKeeps(pieces[..|pieces| - 1]);
    }
  }

  /** Stripping takes away white space at both ends, and all of it. */
  lemma StripExactly(p: string) returns (a: nat, b: nat)
    ensures a <= b <= |p| && Strip(p) == p[a..b] && AllSpace(p[..a]) && AllSpace(p[b..])
    ensures a < b ==> !IsSpace(p[a]) && !IsSpace(p[b - 1])
    ensures a == b <==> AllSpace(p)
  {
    a := SpaceEnd(p, 0);
    var rest := StripLeft(p);
    b := a + |Strip(p)|;
    assert p[..a] == p[0..a];
    assert rest[|Strip(p)|..] == p[b..] && rest == p[a..];
    if a < b {
      assert Strip(p)[|Strip(p)| - 1] == p[b - 1];
      assert !IsSpace(p[a]);
      assert !AllSpace(p);
    } else {
      BlankConcat(p[..a], p[b..]);
      assert p == p[..a] + p[b..];
    }
  }

  lemma EmptyWhenBlank(p: string)
    ensures Strip(p) == [] <==> AllSpace(p)
  {
    var a, b := StripExactly(p);
  }

  lemma {:induction false} StrippedIsFiltered(pieces: seq<string>)
    ensures var kept := Filter(pieces, (p: string) => !AllSpace(p));
      |Stripped(pieces)| == |kept| && forall k :: 0 <= k < |kept| ==> Stripped(pieces)[k] == Strip(kept[k])
  {
    hide Strip, AllSpace;
    if pieces == [] {
    } else {
      StrippedIsFiltered(pieces[..|pieces| - 1]);
      EmptyWhenBlank(pieces[|pieces| - 1]);
    }
  }

  /** How many parts a limit leaves of n; a negative one takes that many away. */
  function Limited(n: nat, m: int): int {
    if m < 0 then if n + m < 0 then 0 else n + m
    else if m < n then m else n
  }

  /** The parts are the first pieces that are not blank, stripped, in order. */
  lemma PartsInOrder(description: string, maxSubgoals: int) returns (pos: seq<nat>)
    ensures var pieces, parts := Split(description, 0, 0).0, Parts(description, maxSubgoals);
      && Lists(pos, pieces, (p: string) => !AllSpace(p))
      && |parts| == Limited(|pos|, maxSubgoals) <= |pos|
      && forall k :: 0 <= k < |parts| ==> pos[k] < |pieces| && parts[k] == Strip(pieces[pos[k]])
  {
    hide Strip, AllSpace, Split;
    var pieces := Split(description, 0, 0).0;
    StrippedIsFiltered(pieces);
    pos := FilterInOrder(pieces, (p: string) => !AllSpace(p));
  }

  /** Every part is free of conjunctions, whatever the description. */
  lemma PartsAreConjunctionless(description: string, maxSubgoals: int)
    ensures forall k :: 0 <= k < |Parts(description, maxSubgoals)| ==>
      Conjunctionless(Parts(description, maxSubgoals)[k])
    ensures maxSubgoals >= 0 ==> |Parts(description, maxSubgoals)| <= maxSubgoals
  {
    SplitPieces(description, 0, 0);
    StrippedKeeps(Split(description, 0, 0).0);
  }

  /** A description without conjunctions has at most one part. */
  lemma ConjunctionlessHasOnePart(p: string, maxSubgoals: int)
    requires Conjunctionless(p)
    ensures |Parts(p, maxSubgoals)| <= 1
  {
    SplitNothing(p, 0);
    StrippedKeeps([p]);
  }
}
