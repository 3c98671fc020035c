/**
 * Phrases: fixed words in order with whitespace between them, as the vendor
 * and address checks of app.py write them (`e\s*m\s*...`, `134\s*Bethridge\s*Rd\s*,?\s*...`).
 * A phrase pattern is built from its words and, for each gap, whether the gap
 * may hold a comma; the lemmas tie its language to a reading in terms of
 * words and gaps alone.
 */
module Phrases {
  import opened Chars
  import opened Regex

  /** `\s*` */
  const Spaces: Atom := Rep([Space], 0, Unbounded)

  /** `,?` */
  const OptComma: Atom := Rep([Char(',')], 0, AtMost(1))

  /** The atoms between two words: `\s*`, or `\s*,?\s*` where a comma may stand. */
  function GapAtoms(comma: bool): Pattern {
    if comma then [Spaces, OptComma, Spaces] else [Spaces]
  }

  /** The words as literals, each gap between them as GapAtoms. */
  function PhrasePattern(words: seq<string>, commas: seq<bool>): Pattern
    requires |words| == |commas| + 1
    decreases |commas|
  {
    if commas == [] then [Lit(words[0])]
    else [Lit(words[0])] + (GapAtoms(commas[0]) + PhrasePattern(words[1..], commas[1..]))
  }

  /** g may stand between two words: whitespace only, except for at most one
      comma where the gap allows one. */
  predicate IsGap(g: string, comma: bool) {
    (forall k :: 0 <= k < |g| ==> IsSpace(g[k]) || (comma && g[k] == ','))
    && forall k1, k2 :: 0 <= k1 < k2 < |g| ==> g[k1] != ',' || g[k2] != ','
  }

  /** u spells the words in order, ignoring the case of letters, with a gap
      after each word but the last. */
  ghost predicate Spaced(u: string, words: seq<string>, commas: seq<bool>)
    requires |words| == |commas| + 1
    decreases |commas|
  {
    if commas == [] then FoldEq(u, words[0])
    else exists i: nat, j: nat ::
      i <= j <= |u| && FoldEq(u[..i], words[0]) && IsGap(u[i..j], commas[0]) && Spaced(u[j..], words[1..], commas[1..])
  }

  /** A literal matches exactly the strings equal to its word up to case. */
  lemma LitMatches(w: string, u: string)
    ensures Matches([Lit(w)], u) <==> FoldEq(u, w)
  {
    if FoldEq(u, w) {
      assert Parse([Lit(w)], u, [|u|]) by {
        assert u[..|u|] == u;
        assert [Lit(w)][1..] == [];
      }
    }
    if Matches([Lit(w)], u) {
      var t :| Parse([Lit(w)], u, t);
      ParseLength([Lit(w)], u, t);
      assert t == [t[0]] + [];
      assert u[..t[0]] == u;
    }
  }

  /** A comma is the only character the class `[,]` holds, case or no case. */
  lemma CommaClass(c: char)
    ensures InClass(c, [Char(',')]) <==> c == ','
  {
    assert ItemMatches([Char(',')][0], c) <==> Lower(c) == ',';
  }

  /** `\s*` matches exactly the all-whitespace strings. */
  lemma SpacesMatches(g: string)
    ensures Matches([Spaces], g) <==> AllSpace(g)
  {
    assert forall c :: InClass(c, [Space]) <==> ItemMatches([Space][0], c);
    if AllSpace(g) {
      assert Parse([Spaces], g, [|g|]) by {
        assert g[..|g|] == g;
        assert [Spaces][1..] == [];
      }
    }
    if Matches([Spaces], g) {
      var t :| Parse([Spaces], g, t);
      ParseLength([Spaces], g, t);
      assert t == [t[0]] + [];
      assert g[..t[0]] == g;
    }
  }

  /** What `\s*,?\s*` matches may stand in a gap that allows a comma. */
  lemma CommaGapSound(g: string, t: seq<nat>)
    requires Parse(GapAtoms(true), g, t)
    ensures IsGap(g, true)
  {
    var p := GapAtoms(true);
    ParseToSpans(p, g, t);
    SumPrefix(t, 0);
    SumPrefix(t, 1);
    SumPrefix(t, 2);
    assert t[..0] == [] && t[..3] == t;
    var a, b := t[0], t[1];
    assert AtomMatches(Spaces, g[..a]) && AtomMatches(OptComma, g[a..a + b]);
    assert AtomMatches(Spaces, g[a + b..]);
    forall k | 0 <= k < |g|
      ensures IsSpace(g[k]) || g[k] == ','
      ensures g[k] == ',' ==> k == a
    {
      assert forall c :: InClass(c, [Space]) <==> ItemMatches([Space][0], c);
      if k < a {
        assert g[..a][k] == g[k];
      } else if k < a + b {
        assert g[a..a + b][k - a] == g[k];
        CommaClass(g[k]);
      } else {
        assert g[a + b..][k - a - b] == g[k];
      }
    }
  }

  /** `\s*,?\s*` matches every gap that allows a comma. */
  lemma CommaGapComplete(g: string)
    requires IsGap(g, true)
    ensures Matches(GapAtoms(true), g)
  {
    var p := GapAtoms(true);
    var c: seq<nat>;
    if exists k :: 0 <= k < |g| && g[k] == ',' {
      var k :| 0 <= k < |g| && g[k] == ',';
      c := [0, k, k + 1, |g|];
      CommaClass(g[k]);
      assert g[k..k + 1][0] == g[k];
    } else {
      c := [0, |g|, |g|, |g|];
    }
    assert forall x :: InClass(x, [Space]) <==> ItemMatches([Space][0], x);
    assert forall x :: 0 <= x < 3 ==> PieceMatches(p, g, c, x);
    CutsParse(p, g, c);
  }

  /** The atoms of a gap match exactly the strings that may stand in it. */
  lemma GapMatches(comma: bool, g: string)
    ensures Matches(GapAtoms(comma), g) <==> IsGap(g, comma)
  {
    if comma {
      if Matches(GapAtoms(true), g) {
        var t :| Parse(GapAtoms(true), g, t);
        CommaGapSound(g, t);
      }
      if IsGap(g, true) {
        CommaGapComplete(g);
      }
    } else {
      SpacesMatches(g);
    }
  }

  /** A string a phrase pattern matches spells its words with admissible gaps. */
  lemma {:induction false} PhraseSound(words: seq<string>, commas: seq<bool>, u: string)
    requires |words| == |commas| + 1
    requires Matches(PhrasePattern(words, commas), u)
    ensures Spaced(u, words, commas)
    decreases |commas|
  {
    if commas == [] {
      LitMatches(words[0], u);
    } else {
      var g := GapAtoms(commas[0]);
      var rest := PhrasePattern(words[1..], commas[1..]);
      var i := MatchesSplit([Lit(words[0])], g + rest, u);
      LitMatches(words[0], u[..i]);
      var m := MatchesSplit(g, rest, u[i..]);
      var j := i + m;
      assert u[i..][..m] == u[i..j] && u[i..][m..] == u[j..];
      GapMatches(commas[0], u[i..j]);
      PhraseSound(words[1..], commas[1..], u[j..]);
    }
  }

  /** A phrase pattern matches every string that spells its words with admissible gaps. */
  lemma {:induction false} PhraseComplete(words: seq<string>, commas: seq<bool>, u: string)
    requires |words| == |commas| + 1
    requires Spaced(u, words, commas)
    ensures Matches(PhrasePattern(words, commas), u)
    decreases |commas|
  {
    if commas == [] {
      LitMatches(words[0], u);
    } else {
      var g := GapAtoms(commas[0]);
      var rest := PhrasePattern(words[1..], commas[1..]);
      var i: nat, j: nat :| i <= j <= |u| && FoldEq(u[..i], words[0]) && IsGap(u[i..j], commas[0])
        && Spaced(u[j..], words[1..], commas[1..]);
      LitMatches(words[0], u[..i]);
      GapMatches(commas[0], u[i..j]);
      PhraseComplete(words[1..], commas[1..], u[j..]);
      MatchesThree([Lit(words[0])], g, rest, u, i, j);
    }
  }

  /** Three patterns matching three consecutive pieces of u match u together. */
  lemma MatchesThree(p1: Pattern, p2: Pattern, p3: Pattern, u: string, i: nat, j: nat)
    requires i <= j <= |u|
    requires Matches(p1, u[..i]) && Matches(p2, u[i..j]) && Matches(p3, u[j..])
    ensures Matches(p1 + (p2 + p3), u)
  {
    var x, y, z := u[..i], u[i..j], u[j..];
    var t1 :| Parse(p1, x, t1);
    var t2 :| Parse(p2, y, t2);
    var t3 :| Parse(p3, z, t3);
    ParseConcat(p2, p3, y, z, t2, t3);
    ParseConcat(p1, p2 + p3, x, y + z, t1, t2 + t3);
    ThreePieces(u, i, j);
  }

  lemma ThreePieces(u: string, i: nat, j: nat)
    requires i <= j <= |u|
    ensures u[..i] + (u[i..j] + u[j..]) == u
  {
  }

  /** A phrase pattern matches exactly the strings that spell its words with
      admissible gaps between them. */
  lemma PhraseMatchesIff(words: seq<string>, commas: seq<bool>, u: string)
    requires |words| == |commas| + 1
    ensures Matches(PhrasePattern(words, commas), u) <==> Spaced(u, words, commas)
  {
    if Matches(PhrasePattern(words, commas), u) {
      PhraseSound(words, commas, u);
    }
    if Spaced(u, words, commas) {
      PhraseComplete(words, commas, u);
    }
  }
}
