/**
 * The part of Python's `re` module that the invoice extractor relies on:
 * patterns that are a sequence of atoms (a literal word, a greedy
 * repetition of a character class, an alternation of literal words),
 * compiled with `re.IGNORECASE` and run with `Pattern.search`.
 *
 * A pattern is read in two ways. `Parse` is its language: which strings it
 * matches and how such a string splits into one span per atom. `Match` is
 * the backtracking matcher: it tries the choices in the order the `re`
 * engine does (a repetition longest first, alternatives left to right) and
 * returns the spans of the first choice that succeeds, and `Search` tries
 * the start positions from the left. The lemmas connect the two readings.
 */
module Regex {
  import opened Chars
  import opened Options

  /** One member of a character class: `\d`, `\s`, a range `a-z` or a single character. */
  datatype ClassItem = Digit | Space | Range(lo: char, hi: char) | Char(c: char)

  /** A bracket expression `[...]`; a one-member class stands for `\d`, `\s` or a literal. */
  type CharClass = seq<ClassItem>

  /** The upper bound of a repetition: `*` and `+` have none. */
  datatype Bound = Unbounded | AtMost(n: nat)

  datatype Atom =
    | Lit(word: string)                        // a literal word, such as `corporation`
    | Rep(cls: CharClass, lo: nat, hi: Bound)  // `cls{lo,hi}`, greedy: `*`, `+`, `?`, `{n}`
    | Alt(words: seq<string>)                  // `(w1|w2|...)`, tried left to right

  type Pattern = seq<Atom>

  /** Whether c matches one class member under IGNORECASE (ASCII folding). */
  predicate ItemMatches(item: ClassItem, c: char) {
    match item
    case Digit => IsDigit(c)
    case Space => IsSpace(c)
    case Range(lo, hi) => lo <= c <= hi || lo <= Lower(c) <= hi || lo <= Upper(c) <= hi
    case Char(x) => Lower(c) == Lower(x)
  }

  predicate InClass(c: char, cls: CharClass) {
    exists k :: 0 <= k < |cls| && ItemMatches(cls[k], c)
  }

  predicate Allows(hi: Bound, n: nat) {
    hi.Unbounded? || n <= hi.n
  }

  /** The bound left for the rest of a repetition once one character is taken. */
  function Less(hi: Bound): Bound {
    if hi.AtMost? && hi.n > 0 then AtMost(hi.n - 1) else hi
  }

  /** How far a greedy repetition of cls bounded by hi reaches at the start of s:
      the longest run of class characters, cut at the bound. */
  function RunLen(cls: CharClass, s: string, hi: Bound): (n: nat)
    ensures n <= |s| && Allows(hi, n)
    ensures forall i :: 0 <= i < n ==> InClass(s[i], cls)
    ensures n < |s| && Allows(hi, n + 1) ==> !InClass(s[n], cls)
  {
    if s == [] || !Allows(hi, 1) || !InClass(s[0], cls) then 0
    else 1 + RunLen(cls, s[1..], Less(hi))
  }

  /** Whether s begins with word, up to case. */
  predicate HasPrefix(s: string, word: string) {
    |word| <= |s| && FoldEq(s[..|word|], word)
  }

  function Sum(t: seq<nat>): nat {
    if t == [] then 0 else t[0] + Sum(t[1..])
  }

  /** The backtracking matcher: matches p against a prefix of s and returns the
      length each atom took, choosing as the `re` engine does. */
  function Match(p: Pattern, s: string): (r: Option<seq<nat>>)
    ensures r.Some? ==> |r.value| == |p| && Sum(r.value) <= |s|
    decreases |p|, 1, 0
  {
    if p == [] then Some([])
    else match p[0]
      case Lit(w) =>
        if !HasPrefix(s, w) then None
        else (match Match(p[1..], s[|w|..])
              case Some(t) => Some([|w|] + t)
              case None => None)
      case Rep(cls, lo, hi) =>
        var run := RunLen(cls, s, hi);
        if run < lo then None else TryRep(p[1..], s, lo, run)
      case Alt(ws) => TryAlt(ws, p[1..], s)
  }

  /** A repetition at the start of s takes k characters, then k - 1, ... down to
      lo, until the rest of the pattern matches what follows. */
  function TryRep(rest: Pattern, s: string, lo: nat, k: nat): (r: Option<seq<nat>>)
    requires lo <= k <= |s|
    ensures r.Some? ==> |r.value| == |rest| + 1 && lo <= r.value[0] <= k && Sum(r.value) <= |s|
    decreases |rest| + 1, 0, k
  {
    match Match(rest, s[k..])
    case Some(t) => Some([k] + t)
    case None => if k == lo then None else TryRep(rest, s, lo, k - 1)
  }

  /** An alternation tries its words from the left; the first word that starts s
      and after which the rest of the pattern matches wins. */
  function TryAlt(ws: seq<string>, rest: Pattern, s: string): (r: Option<seq<nat>>)
    ensures r.Some? ==> |r.value| == |rest| + 1 && Sum(r.value) <= |s|
    decreases |rest| + 1, 0, |ws|
  {
    if ws == [] then None
    else if HasPrefix(s, ws[0]) && Match(rest, s[|ws[0]|..]).Some? then
      Some([|ws[0]|] + Match(rest, s[|ws[0]|..]).value)
    else TryAlt(ws[1..], rest, s)
  }

  /** A match found by Search: where it starts and the length of each atom's span. */
  datatype Found = Found(start: nat, spans: seq<nat>)

  function End(f: Found): nat {
    f.start + Sum(f.spans)
  }

  /** `Pattern.search` from position i on: the first start at which Match succeeds. */
  function SearchFrom(p: Pattern, text: string, i: nat): (r: Option<Found>)
    requires i <= |text|
    ensures r.Some? ==> i <= r.value.start && End(r.value) <= |text| && |r.value.spans| == |p|
    decreases |text| - i
  {
    match Match(p, text[i..])
    case Some(t) => Some(Found(i, t))
    case None => if i == |text| then None else SearchFrom(p, text, i + 1)
  }

  /** `Pattern.search(text)`. */
  function Search(p: Pattern, text: string): (r: Option<Found>)
    ensures r.Some? ==> End(r.value) <= |text| && |r.value.spans| == |p|
  {
    SearchFrom(p, text, 0)
  }

  /** The span of capture group k of a match: the text atom k took. */
  function Group(text: string, f: Found, k: nat): (g: string)
    requires k < |f.spans| && End(f) <= |text|
    ensures |g| == f.spans[k]
  {
    SumPrefix(f.spans, k);
    text[f.start + Sum(f.spans[..k]) .. f.start + Sum(f.spans[..k]) + f.spans[k]]
  }

  // ----- The language of a pattern -----

  /** Whether one atom matches the whole of w. */
  ghost predicate AtomMatches(a: Atom, w: string) {
    match a
    case Lit(word) => FoldEq(w, word)
    case Rep(cls, lo, hi) => lo <= |w| && Allows(hi, |w|) && forall i :: 0 <= i < |w| ==> InClass(w[i], cls)
    case Alt(words) => exists k :: 0 <= k < |words| && FoldEq(w, words[k])
  }

  /** t cuts u into consecutive spans, span k matched by atom k: a parse of u by p. */
  ghost predicate Parse(p: Pattern, u: string, t: seq<nat>)
    decreases |p|
  {
    |t| == |p| &&
    if p == [] then u == []
    else t[0] <= |u| && AtomMatches(p[0], u[..t[0]]) && Parse(p[1..], u[t[0]..], t[1..])
  }

  /** u belongs to the language of p. */
  ghost predicate Matches(p: Pattern, u: string) {
    exists t :: Parse(p, u, t)
  }

  /** text[i..j] matches p. */
  ghost predicate MatchAt(p: Pattern, text: string, i: nat, j: nat) {
    i <= j <= |text| && Matches(p, text[i..j])
  }

  /** Some piece of text matches p. */
  ghost predicate Occurs(p: Pattern, text: string) {
    exists i: nat, j: nat :: MatchAt(p, text, i, j)
  }

  /** No piece of text starting before i matches p. */
  ghost predicate NoMatchBefore(p: Pattern, text: string, i: nat) {
    forall a: nat, b: nat :: a < i ==> !MatchAt(p, text, a, b)
  }

  /** f is a parse of a piece of text and no match starts further left. */
  ghost predicate IsLeftmost(p: Pattern, text: string, f: Found) {
    End(f) <= |text| && Parse(p, text[f.start..End(f)], f.spans) && NoMatchBefore(p, text, f.start)
  }

  /** The same parse, told span by span: span k of u, which starts after the
      first k spans, is matched by atom k. */
  ghost predicate SpansMatch(p: Pattern, u: string, t: seq<nat>) {
    |t| == |p| && Sum(t) == |u| &&
    forall k :: 0 <= k < |p| ==> Sum(t[..k]) + t[k] <= |u| && AtomMatches(p[k], u[Sum(t[..k])..Sum(t[..k]) + t[k]])
  }

  // ----- Lemmas -----

  lemma {:induction false} SumPrefix(t: seq<nat>, k: nat)
    requires k < |t|
    ensures Sum(t[..k]) + t[k] <= Sum(t)
    ensures Sum(t[..k + 1]) == Sum(t[..k]) + t[k]
  {
    if k > 0 {
      SumPrefix(t[1..], k - 1);
      assert t[..k][1..] == t[1..][..k - 1];
      assert t[..k + 1][1..] == t[1..][..k];
    } else {
      assert t[..1][1..] == [];
    }
  }

  lemma {:induction false} SumCons(k: nat, t: seq<nat>)
    ensures Sum([k] + t) == k + Sum(t)
  {
    assert ([k] + t)[1..] == t;
  }

  /** A parse covers the whole string. */
  lemma {:induction false} ParseLength(p: Pattern, u: string, t: seq<nat>)
    requires Parse(p, u, t)
    ensures Sum(t) == |u|
    decreases |p|
  {
    if p != [] {
      ParseLength(p[1..], u[t[0]..], t[1..]);
    }
  }

  lemma SumShift(t: seq<nat>, k: nat)
    requires 1 <= k <= |t|
    ensures Sum(t[..k]) == t[0] + Sum(t[1..][..k - 1])
  {
    assert t[..k] == [t[0]] + t[1..][..k - 1];
    SumCons(t[0], t[1..][..k - 1]);
  }

  lemma {:induction false} ParseToSpans(p: Pattern, u: string, t: seq<nat>)
    requires Parse(p, u, t)
    ensures SpansMatch(p, u, t)
    decreases |p|
  {
    ParseLength(p, u, t);
    if p != [] {
      var k0 := t[0];
      ParseToSpans(p[1..], u[k0..], t[1..]);
      forall k | 0 <= k < |p|
        ensures Sum(t[..k]) + t[k] <= |u| && AtomMatches(p[k], u[Sum(t[..k])..Sum(t[..k]) + t[k]])
      {
        if k > 0 {
          SpansHead(p, u, t, k);
        } else {
          assert t[..0] == [];
          assert u[..k0] == u[0..k0];
        }
      }
    }
  }

  /** Span k of a parse, read back from the spans of the parse of its tail. */
  lemma SpansHead(p: Pattern, u: string, t: seq<nat>, k: nat)
    requires |t| == |p| && 0 < k < |p| && t[0] <= |u| && SpansMatch(p[1..], u[t[0]..], t[1..])
    ensures Sum(t[..k]) + t[k] <= |u| && AtomMatches(p[k], u[Sum(t[..k])..Sum(t[..k]) + t[k]])
  {
    SumShift(t, k);
    var a := Sum(t[1..][..k - 1]);
    assert p[k] == p[1..][k - 1] && t[k] == t[1..][k - 1];
    assert a + t[k] <= |u[t[0]..]|;
    SliceOfSlice(u, t[0], |u|, a, a + t[k]);
    assert u[t[0]..] == u[t[0]..|u|];
  }

  lemma {:induction false} SpansToParse(p: Pattern, u: string, t: seq<nat>)
    requires SpansMatch(p, u, t)
    ensures Parse(p, u, t)
    decreases |p|
  {
    if p != [] {
      SpansUncons(p, u, t);
      SpansToParse(p[1..], u[t[0]..], t[1..]);
    }
  }

  /** The first span of a split, and the split of what follows it. */
  lemma SpansUncons(p: Pattern, u: string, t: seq<nat>)
    requires SpansMatch(p, u, t) && p != []
    ensures t[0] <= |u| && AtomMatches(p[0], u[..t[0]]) && SpansMatch(p[1..], u[t[0]..], t[1..])
  {
    var k0 := t[0];
    SumCons(k0, t[1..]);
    assert t == [k0] + t[1..];
    assert t[..0] == [];
    assert u[..k0] == u[0..k0];
    forall k | 0 <= k < |p[1..]|
      ensures Sum(t[1..][..k]) + t[1..][k] <= |u[k0..]|
      ensures AtomMatches(p[1..][k], u[k0..][Sum(t[1..][..k])..Sum(t[1..][..k]) + t[1..][k]])
    {
      SpansTail(p, u, t, k);
    }
  }


  /** Span k + 1 of a split of u is span k of the split of what follows span 0. */
  lemma SpansTail(p: Pattern, u: string, t: seq<nat>, k: nat)
    requires SpansMatch(p, u, t) && k + 1 < |p|
    ensures t[0] <= |u|
    ensures Sum(t[1..][..k]) + t[1..][k] <= |u[t[0]..]|
    ensures AtomMatches(p[1..][k], u[t[0]..][Sum(t[1..][..k])..Sum(t[1..][..k]) + t[1..][k]])
  {
    var k0 := t[0];
    SumShift(t, k + 1);
    var a := Sum(t[1..][..k]);
    assert p[1..][k] == p[k + 1] && t[1..][k] == t[k + 1];
    assert Sum(t[..k + 1]) == k0 + a;
    assert Sum(t[..k + 1]) + t[k + 1] <= |u|;
    assert t[..0] == [] && Sum(t[..0]) + t[0] <= |u|;
    SliceOfSlice(u, k0, |u|, a, a + t[k + 1]);
    assert u[k0..] == u[k0..|u|];
  }

  /** Cut points 0 = c[0] <= c[1] <= ... <= c[|p|] = |u| such that atom k
      matches the piece of u between cut k and cut k + 1. */
  ghost predicate CutsMatch(p: Pattern, u: string, c: seq<nat>) {
    |c| == |p| + 1 && c[0] == 0 && c[|p|] == |u| &&
    forall k :: 0 <= k < |p| ==> PieceMatches(p, u, c, k)
  }

  ghost predicate PieceMatches(p: Pattern, u: string, c: seq<nat>, k: nat)
    requires k < |p| && |c| == |p| + 1
  {
    c[k] <= c[k + 1] <= |u| && AtomMatches(p[k], u[c[k]..c[k + 1]])
  }

  lemma {:induction false} CutsParseFrom(p: Pattern, u: string, c: seq<nat>, k: nat)
    requires CutsMatch(p, u, c) && k <= |p|
    ensures c[k] <= |u| && Matches(p[k..], u[c[k]..])
    decreases |p| - k
  {
    if k == |p| {
      assert Parse(p[k..], u[c[k]..], []);
    } else {
      CutsParseFrom(p, u, c, k + 1);
      assert PieceMatches(p, u, c, k);
      var t :| Parse(p[k + 1..], u[c[k + 1]..], t);
      var d := c[k + 1] - c[k];
      assert p[k..][1..] == p[k + 1..];
      assert ([d] + t)[1..] == t;
      assert u[c[k]..][..d] == u[c[k]..c[k + 1]];
      assert u[c[k]..][d..] == u[c[k + 1]..];
      assert Parse(p[k..], u[c[k]..], [d] + t);
    }
  }

  /** Pieces that the atoms match one after the other make up a string of the language. */
  lemma CutsParse(p: Pattern, u: string, c: seq<nat>)
    requires CutsMatch(p, u, c)
    ensures Matches(p, u)
  {
    CutsParseFrom(p, u, c, 0);
    assert p[0..] == p && u[c[0]..] == u;
  }

  /** A parse gives cut points: cut k is where span k begins. */
  lemma ParseCuts(p: Pattern, u: string, t: seq<nat>) returns (c: seq<nat>)
    requires Parse(p, u, t)
    ensures CutsMatch(p, u, c) && |t| == |p|
    ensures forall k :: 0 <= k < |p| ==> c[k] + t[k] == c[k + 1]
  {
    ParseToSpans(p, u, t);
    c := seq(|p| + 1, k requires 0 <= k <= |p| => Sum(t[..k]));
    forall k | 0 <= k < |p|
      ensures c[k] + t[k] == c[k + 1] && PieceMatches(p, u, c, k)
    {
      SumPrefix(t, k);
    }
    assert t[..0] == [] && t[..|p|] == t;
  }

  /** Any run of class characters the bound allows is within the greedy reach. */
  lemma {:induction false} RunLenReaches(cls: CharClass, s: string, hi: Bound, k: nat)
    requires k <= |s| && Allows(hi, k)
    requires forall i :: 0 <= i < k ==> InClass(s[i], cls)
    ensures k <= RunLen(cls, s, hi)
    decreases k
  {
    if k > 0 {
      RunLenReaches(cls, s[1..], Less(hi), k - 1);
    }
  }

  /** What TryRep returns: a length between lo and k after which the rest matches. */
  lemma {:induction false} TryRepResult(rest: Pattern, s: string, lo: nat, k: nat)
    requires lo <= k <= |s| && TryRep(rest, s, lo, k).Some?
    ensures var t := TryRep(rest, s, lo, k).value;
      lo <= t[0] <= k && Match(rest, s[t[0]..]) == Some(t[1..])
    decreases k
  {
    match Match(rest, s[k..])
    case Some(t) => assert ([k] + t)[1..] == t;
    case None => TryRepResult(rest, s, lo, k - 1);
  }

  /** If the rest matches after some length between lo and k, TryRep succeeds. */
  lemma {:induction false} TryRepFinds(rest: Pattern, s: string, lo: nat, k: nat, m: nat)
    requires lo <= m <= k <= |s| && Match(rest, s[m..]).Some?
    ensures TryRep(rest, s, lo, k).Some?
    decreases k
  {
    if Match(rest, s[k..]).None? {
      TryRepFinds(rest, s, lo, k - 1, m);
    }
  }

  /** What TryAlt returns: the length of a word that starts s, after which the rest matches. */
  lemma {:induction false} TryAltResult(ws: seq<string>, rest: Pattern, s: string) returns (j: nat)
    requires TryAlt(ws, rest, s).Some?
    ensures var t := TryAlt(ws, rest, s).value;
      j < |ws| && HasPrefix(s, ws[j]) && t[0] == |ws[j]| && Match(rest, s[t[0]..]) == Some(t[1..])
    decreases |ws|
  {
    if HasPrefix(s, ws[0]) && Match(rest, s[|ws[0]|..]).Some? {
      j := 0;
      var t := Match(rest, s[|ws[0]|..]).value;
      assert ([|ws[0]|] + t)[1..] == t;
    } else {
      j := TryAltResult(ws[1..], rest, s);
      j := j + 1;
    }
  }

  /** If some word starts s and the rest matches after it, TryAlt succeeds. */
  lemma {:induction false} TryAltFinds(ws: seq<string>, rest: Pattern, s: string, j: nat)
    requires j < |ws| && HasPrefix(s, ws[j]) && Match(rest, s[|ws[j]|..]).Some?
    ensures TryAlt(ws, rest, s).Some?
    decreases j
  {
    if j > 0 && !(HasPrefix(s, ws[0]) && Match(rest, s[|ws[0]|..]).Some?) {
      TryAltFinds(ws[1..], rest, s, j - 1);
    }
  }

  /** One step of a successful Match: the first atom takes a piece of s that it
      matches, and the matcher then succeeds on the rest. */
  lemma MatchStep(p: Pattern, s: string) returns (k: nat)
    requires p != [] && Match(p, s).Some?
    ensures k <= |s| && AtomMatches(p[0], s[..k])
    ensures Match(p[1..], s[k..]).Some? && Match(p, s).value == [k] + Match(p[1..], s[k..]).value
  {
    var t := Match(p, s).value;
    match p[0]
    case Lit(w) =>
      k := |w|;
      assert ([k] + Match(p[1..], s[k..]).value)[1..] == Match(p[1..], s[k..]).value;
    case Rep(cls, lo, hi) =>
      TryRepResult(p[1..], s, lo, RunLen(cls, s, hi));
      k := t[0];
      assert t == [k] + t[1..];
    case Alt(ws) =>
      var j := TryAltResult(ws, p[1..], s);
      k := t[0];
      assert t == [k] + t[1..];
  }

  /** Soundness: what the matcher returns is a parse of the prefix it consumed. */
  lemma {:induction false} MatchSound(p: Pattern, s: string)
    requires Match(p, s).Some?
    ensures Parse(p, s[..Sum(Match(p, s).value)], Match(p, s).value)
    decreases |p|
  {
    var t := Match(p, s).value;
    if p != [] {
      var k := MatchStep(p, s);
      MatchSound(p[1..], s[k..]);
      SumCons(k, t[1..]);
      assert t == [k] + t[1..];
      var u := s[..Sum(t)];
      assert u[..k] == s[..k];
      assert u[k..] == s[k..][..Sum(t[1..])];
    }
  }

  /** Completeness: if a prefix of s is in the language, the matcher succeeds. */
  lemma {:induction false} MatchComplete(p: Pattern, s: string, n: nat, t: seq<nat>)
    ensures n <= |s| && Parse(p, s[..n], t) ==> Match(p, s).Some?
    decreases |p|
  {
    if p != [] && n <= |s| && Parse(p, s[..n], t) {
      var k := t[0];
      var u := s[..n];
      assert u[k..] == s[k..][..n - k];
      assert u[..k] == s[..k];
      MatchComplete(p[1..], s[k..], n - k, t[1..]);
      match p[0]
      case Lit(w) =>
      case Rep(cls, lo, hi) =>
        RunLenReaches(cls, s, hi, k);
        TryRepFinds(p[1..], s, lo, RunLen(cls, s, hi), k);
      case Alt(ws) =>
        var j :| 0 <= j < |ws| && FoldEq(u[..k], ws[j]);
        TryAltFinds(ws, p[1..], s, j);
    }
  }

  /** The matcher fails at i exactly when no piece of text starting at i matches. */
  lemma NoMatchAt(p: Pattern, text: string, i: nat)
    requires i <= |text| && Match(p, text[i..]).None?
    ensures forall b: nat :: !MatchAt(p, text, i, b)
  {
    forall b | i <= b <= |text|
      ensures !Matches(p, text[i..b])
    {
      forall t
        ensures !Parse(p, text[i..b], t)
      {
        assert text[i..b] == text[i..][..b - i];
        MatchComplete(p, text[i..], b - i, t);
      }
    }
  }

  lemma {:induction false} SearchFromCorrect(p: Pattern, text: string, i: nat)
    requires i <= |text| && NoMatchBefore(p, text, i)
    ensures SearchFrom(p, text, i).None? <==> !Occurs(p, text)
    ensures SearchFrom(p, text, i).Some? ==> IsLeftmost(p, text, SearchFrom(p, text, i).value)
    ensures SearchFrom(p, text, i).Some? ==>
      var f := SearchFrom(p, text, i).value; Match(p, text[f.start..]) == Some(f.spans)
    decreases |text| - i
  {
    match Match(p, text[i..])
    case Some(t) =>
      MatchSound(p, text[i..]);
      assert text[i..][..Sum(t)] == text[i..i + Sum(t)];
      assert MatchAt(p, text, i, i + Sum(t));
    case None =>
      NoMatchAt(p, text, i);
      if i < |text| {
        SearchFromCorrect(p, text, i + 1);
      }
  }

  /** Search returns None exactly when nothing in text matches, and otherwise a
      parse of a piece of text that starts where the leftmost match starts,
      taken as the matcher takes it at that start. */
  lemma SearchCorrect(p: Pattern, text: string)
    ensures Search(p, text).None? <==> !Occurs(p, text)
    ensures Search(p, text).Some? ==> IsLeftmost(p, text, Search(p, text).value)
    ensures Search(p, text).Some? ==>
      var f := Search(p, text).value; Match(p, text[f.start..]) == Some(f.spans)
  {
    SearchFromCorrect(p, text, 0);
  }

  /** An unbounded repetition at the end of a pattern takes the whole run of
      class characters in front of it: the matcher stops it only at the first
      character outside the class. */
  lemma {:induction false} GreedyLast(q: Pattern, cls: CharClass, lo: nat, s: string)
    requires Match(q + [Rep(cls, lo, Unbounded)], s).Some?
    ensures var t := Match(q + [Rep(cls, lo, Unbounded)], s).value;
      Sum(t[..|q|]) <= |s| && t[|q|] == RunLen(cls, s[Sum(t[..|q|])..], Unbounded)
    decreases |q|
  {
    var p := q + [Rep(cls, lo, Unbounded)];
    var t := Match(p, s).value;
    if q == [] {
      var run := RunLen(cls, s, Unbounded);
      assert p[1..] == [];
      assert Match(p[1..], s[run..]) == Some([]);
      assert t == [run];
      assert s[Sum(t[..0])..] == s;
    } else {
      var k := MatchStep(p, s);
      assert p[1..] == q[1..] + [Rep(cls, lo, Unbounded)];
      GreedyLast(q[1..], cls, lo, s[k..]);
      var t' := Match(p[1..], s[k..]).value;
      assert t[..|q|] == [k] + t'[..|q| - 1];
      SumCons(k, t'[..|q| - 1]);
      assert s[k..][Sum(t'[..|q| - 1])..] == s[Sum(t[..|q|])..];
    }
  }

  /** What the search finds is a parse of the text it spans, the one the
      matcher builds at its start. */
  lemma SearchFound(p: Pattern, text: string)
    requires Search(p, text).Some?
    ensures var f := Search(p, text).value;
      End(f) <= |text| && Parse(p, text[f.start..End(f)], f.spans)
      && Match(p, text[f.start..]) == Some(f.spans)
  {
    SearchCorrect(p, text);
  }

  /** Atom k of a parse matches span k. */
  lemma SpanMatches(p: Pattern, u: string, t: seq<nat>, k: nat)
    requires Parse(p, u, t) && k < |p|
    ensures |t| == |p| && Sum(t[..k]) + t[k] <= |u|
    ensures AtomMatches(p[k], u[Sum(t[..k])..Sum(t[..k]) + t[k]])
  {
    ParseToSpans(p, u, t);
  }

  /** Group k is span k of the piece of text the match covers. */
  lemma GroupIsSpan(text: string, f: Found, k: nat)
    requires k < |f.spans| && End(f) <= |text|
    ensures Sum(f.spans[..k]) + f.spans[k] <= Sum(f.spans)
    ensures Group(text, f, k) == text[f.start..End(f)][Sum(f.spans[..k])..Sum(f.spans[..k]) + f.spans[k]]
  {
    SumPrefix(f.spans, k);
    SliceOfSlice(text, f.start, End(f), Sum(f.spans[..k]), Sum(f.spans[..k]) + f.spans[k]);
  }

  /** A piece of a piece of text is a piece of the text. */
  lemma SliceOfSlice(text: string, i: nat, j: nat, a: nat, b: nat)
    requires i <= j <= |text| && a <= b <= j - i
    ensures text[i..j][a..b] == text[i + a..i + b]
  {
    assert forall x :: 0 <= x < b - a ==> text[i..j][a..b][x] == text[i + a + x];
  }

  /** Atom k of a parse of the piece of text a match covers matches group k. */
  lemma GroupMatches(p: Pattern, text: string, f: Found, k: nat)
    requires k < |p| && End(f) <= |text| && Parse(p, text[f.start..End(f)], f.spans)
    ensures |f.spans| == |p| && AtomMatches(p[k], Group(text, f, k))
  {
    SpanMatches(p, text[f.start..End(f)], f.spans, k);
    GroupIsSpan(text, f, k);
  }

  /** The last group of a match ends the piece of text the match covers. */
  lemma LastGroupEnds(text: string, f: Found)
    requires |f.spans| > 0 && End(f) <= |text|
    ensures var g := Group(text, f, |f.spans| - 1);
      |g| <= End(f) - f.start && g == text[End(f) - |g|..End(f)]
  {
    var k := |f.spans| - 1;
    SumPrefix(f.spans, k);
    assert f.spans[..k + 1] == f.spans;
  }

  /** The character after a match the matcher finds, if any, cannot extend a
      final unbounded repetition. */
  lemma LastGroupStop(q: Pattern, cls: CharClass, lo: nat, text: string, f: Found)
    requires f.start <= |text| && Match(q + [Rep(cls, lo, Unbounded)], text[f.start..]) == Some(f.spans)
    ensures End(f) == |text| || !InClass(text[End(f)], cls)
  {
    GreedyLast(q, cls, lo, text[f.start..]);
    RunEnds(cls, text, f.start, f.spans, |q|);
  }

  /** When the last span is a maximal run of class characters, the spans end
      at the end of the text or in front of a character outside the class. */
  lemma RunEnds(cls: CharClass, text: string, start: nat, t: seq<nat>, m: nat)
    requires start <= |text| && |t| == m + 1 && Sum(t) <= |text| - start
    requires Sum(t[..m]) <= |text[start..]|
    requires t[m] == RunLen(cls, text[start..][Sum(t[..m])..], Unbounded)
    ensures start + Sum(t) == |text| || !InClass(text[start + Sum(t)], cls)
  {
    LastSpan(t, m);
    var at := Sum(t[..m]);
    RunStop(cls, text[start..], at, t[m]);
    if start + Sum(t) < |text| {
      assert text[start..][at + t[m]] == text[start + Sum(t)];
    }
  }

  /** The sum of spans is the sum before the last span plus the last span. */
  lemma LastSpan(t: seq<nat>, m: nat)
    requires |t| == m + 1
    ensures Sum(t) == Sum(t[..m]) + t[m]
  {
    SumPrefix(t, m);
    assert t[..m + 1] == t;
  }

  /** An unbounded run ends the string or stops in front of a character outside the class. */
  lemma RunStop(cls: CharClass, s: string, at: nat, n: nat)
    requires at <= |s| && n == RunLen(cls, s[at..], Unbounded)
    ensures at + n <= |s|
    ensures at + n == |s| || !InClass(s[at + n], cls)
  {
    if at + n < |s| {
      assert s[at..][n] == s[at + n];
    }
  }

  /** The group of a final unbounded repetition in a match the search finds:
      a run of at least `lo` class characters that ends the match, and the
      character after the match, if any, is outside the class. */
  lemma LastGroup(q: Pattern, cls: CharClass, lo: nat, text: string)
    requires Search(q + [Rep(cls, lo, Unbounded)], text).Some?
    ensures var f := Search(q + [Rep(cls, lo, Unbounded)], text).value;
      var g := Group(text, f, |q|);
      lo <= |g| && f.start + |g| <= End(f) && g == text[End(f) - |g|..End(f)]
      && (forall k :: 0 <= k < |g| ==> InClass(g[k], cls))
      && (End(f) == |text| || !InClass(text[End(f)], cls))
  {
    SearchFound(q + [Rep(cls, lo, Unbounded)], text);
    var f := Search(q + [Rep(cls, lo, Unbounded)], text).value;
    GroupMatches(q + [Rep(cls, lo, Unbounded)], text, f, |q|);
    LastGroupEnds(text, f);
    LastGroupStop(q, cls, lo, text, f);
  }

  /** Parses of two strings by two patterns make a parse of the joined string
      by the joined pattern. */
  lemma {:induction false} ParseConcat(p1: Pattern, p2: Pattern, x: string, y: string, t1: seq<nat>, t2: seq<nat>)
    requires Parse(p1, x, t1) && Parse(p2, y, t2)
    ensures Parse(p1 + p2, x + y, t1 + t2)
    decreases |p1|
  {
    if p1 == [] {
      assert p1 + p2 == p2 && x + y == y && t1 + t2 == t2;
    } else {
      ParseConcat(p1[1..], p2, x[t1[0]..], y, t1[1..], t2);
      assert (p1 + p2)[0] == p1[0] && (p1 + p2)[1..] == p1[1..] + p2;
      assert (t1 + t2)[0] == t1[0] && (t1 + t2)[1..] == t1[1..] + t2;
      assert (x + y)[..t1[0]] == x[..t1[0]];
      assert (x + y)[t1[0]..] == x[t1[0]..] + y;
    }
  }

  /** A parse by a joined pattern splits into parses of two consecutive pieces. */
  lemma {:induction false} ParseSplit(p1: Pattern, p2: Pattern, u: string, t: seq<nat>) returns (k: nat)
    requires Parse(p1 + p2, u, t)
    ensures k <= |u| && Parse(p1, u[..k], t[..|p1|]) && Parse(p2, u[k..], t[|p1|..])
    decreases |p1|
  {
    if p1 == [] {
      k := 0;
      assert p1 + p2 == p2 && u[0..] == u && t[0..] == t;
    } else {
      assert (p1 + p2)[1..] == p1[1..] + p2;
      var k' := ParseSplit(p1[1..], p2, u[t[0]..], t[1..]);
      k := t[0] + k';
      assert u[t[0]..][..k'] == u[..k][t[0]..];
      assert u[t[0]..][k'..] == u[k..];
      assert t[1..][..|p1| - 1] == t[..|p1|][1..];
      assert t[1..][|p1| - 1..] == t[|p1|..];
      assert u[..k][..t[0]] == u[..t[0]];
    }
  }

  /** A string the joined pattern matches splits into a string each pattern matches. */
  lemma MatchesSplit(p1: Pattern, p2: Pattern, u: string) returns (k: nat)
    requires Matches(p1 + p2, u)
    ensures k <= |u| && Matches(p1, u[..k]) && Matches(p2, u[k..])
  {
    var t :| Parse(p1 + p2, u, t);
    k := ParseSplit(p1, p2, u, t);
  }
}
