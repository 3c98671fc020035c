/**
 * `extract_invoice_info` of app.py (lines 13-53) once the document text is
 * known: four independent, case-insensitive searches over the text and the
 * four-field record built from their outcomes.
 */
module InvoiceExtractor {
  import opened Chars
  import opened Options
  import opened Regex
  import opened Phrases

  /** `\s?` */
  const OptSpace: Atom := Rep([Space], 0, AtMost(1))

  /** The words of the vendor name, with plain whitespace gaps between them. */
  const EmileWords: seq<string> := ["e", "m", "i", "l", "e", "corporation"]
  const EmileGaps: seq<bool> := [false, false, false, false, false]

  /** `e\s*m\s*i\s*l\s*e\s*corporation` */
  const EmilePattern: Pattern := PhrasePattern(EmileWords, EmileGaps)

  /** The words of the street address; a comma may follow Rd, Etobicoke and ON. */
  const AddressWords: seq<string> := ["134", "Bethridge", "Rd", "Etobicoke", "ON", "M9W", "1N3"]
  const AddressGaps: seq<bool> := [false, false, true, true, true, false]

  /** `134\s*Bethridge\s*Rd\s*,?\s*Etobicoke\s*,?\s*ON\s*,?\s*M9W\s*1N3` */
  const AddressPattern: Pattern := PhrasePattern(AddressWords, AddressGaps)

  /** `\d{9}\s?[A-Z]{2}\s?\d{4}` */
  const GstHstPattern: Pattern :=
    [Rep([Digit], 9, AtMost(9)), OptSpace, Rep([Range('A', 'Z')], 2, AtMost(2)), OptSpace, Rep([Digit], 4, AtMost(4))]

  /** `[0-9\-/._\[\]()]`: the characters an invoice number may consist of. */
  const InvoiceNumberClass: CharClass :=
    [Range('0', '9'), Char('-'), Char('/'), Char('.'), Char('_'), Char('['), Char(']'), Char('('), Char(')')]

  /** `(invoice\s*(number|no\.|#)\s*[:#]?\s*([0-9\-/._\[\]()]+))` */
  const InvoicePattern: Pattern :=
    [Lit("invoice"), Spaces, Alt(["number", "no.", "#"]), Spaces, Rep([Char(':'), Char('#')], 0, AtMost(1)), Spaces,
     Rep(InvoiceNumberClass, 1, Unbounded)]

  /** The atom of InvoicePattern that is its capture group 3, the number itself. */
  const InvoiceNumberGroup: nat := 6

  /** The record `extract_invoice_info` returns, one field per key. */
  datatype InvoiceInfo = InvoiceInfo(
    emileCorporationFound: bool,    // 'Emile Corporation Found'
    addressFound: bool,             // 'Address Found'
    gstHstNumber: Option<string>,   // 'GST/HST Number'
    invoiceNumber: Option<string>)  // 'Invoice Number'

  /** The four checks of `extract_invoice_info` over the document text: each
      field is absent exactly when its pattern occurs nowhere in the text. */
  function ExtractInvoiceInfo(text: string): (r: InvoiceInfo)
    ensures r.emileCorporationFound <==> Occurs(EmilePattern, text)
    ensures r.addressFound <==> Occurs(AddressPattern, text)
    ensures r.gstHstNumber.None? <==> !Occurs(GstHstPattern, text)
    ensures r.invoiceNumber.None? <==> !Occurs(InvoicePattern, text)
  {
    SearchCorrect(EmilePattern, text);
    SearchCorrect(AddressPattern, text);
    InvoiceInfo(Search(EmilePattern, text).Some?, Search(AddressPattern, text).Some?,
                GstHstNumber(text), InvoiceNumber(text))
  }

  /** The GST/HST check: the leftmost match, stripped. */
  function GstHstNumber(text: string): (r: Option<string>)
    ensures r.None? <==> !Occurs(GstHstPattern, text)
  {
    SearchCorrect(GstHstPattern, text);
    match Search(GstHstPattern, text)
    case Some(f) => Some(Strip(text[f.start..End(f)]))
    case None => None
  }

  /** The invoice-number check: group 3 of the leftmost match, stripped, or
      "Blank" when stripping leaves nothing. */
  function InvoiceNumber(text: string): (r: Option<string>)
    ensures r.None? <==> !Occurs(InvoicePattern, text)
  {
    SearchCorrect(InvoicePattern, text);
    match Search(InvoicePattern, text)
    case Some(f) =>
      var n := Strip(Group(text, f, InvoiceNumberGroup));
      Some(if n == [] then "Blank" else n)
    case None => None
  }

  // ----- The vendor and the address -----

  /** w names the vendor: e, m, i, l, e, corporation in either case, with any
      whitespace between consecutive letters of "emile" and before "corporation". */
  ghost predicate IsVendorName(w: string) {
    Spaced(w, EmileWords, EmileGaps)
  }

  /** w is the street address: 134, Bethridge, Rd, Etobicoke, ON, M9W, 1N3 in
      either case, any whitespace between them, and at most one comma after
      each of Rd, Etobicoke and ON. */
  ghost predicate IsAddress(w: string) {
    Spaced(w, AddressWords, AddressGaps)
  }

  /** The vendor flag is set exactly when some piece of the text names the vendor. */
  lemma VendorFlagIff(text: string)
    ensures ExtractInvoiceInfo(text).emileCorporationFound <==>
      exists i: nat, j: nat :: i <= j <= |text| && IsVendorName(text[i..j])
  {
    forall i: nat, j: nat | i <= j <= |text|
      ensures MatchAt(EmilePattern, text, i, j) <==> IsVendorName(text[i..j])
    {
      PhraseMatchesIff(EmileWords, EmileGaps, text[i..j]);
    }
  }

  /** The address flag is set exactly when some piece of the text is the address. */
  lemma AddressFlagIff(text: string)
    ensures ExtractInvoiceInfo(text).addressFound <==>
      exists i: nat, j: nat :: i <= j <= |text| && IsAddress(text[i..j])
  {
    forall i: nat, j: nat | i <= j <= |text|
      ensures MatchAt(AddressPattern, text, i, j) <==> IsAddress(text[i..j])
    {
      PhraseMatchesIff(AddressWords, AddressGaps, text[i..j]);
    }
  }

  // ----- The GST/HST number -----

  predicate AllDigits(s: string) {
    forall i :: 0 <= i < |s| ==> IsDigit(s[i])
  }

  /** Two letters of either case, with at most one whitespace character on each side. */
  predicate IsLetterPart(m: string) {
    || (|m| == 2 && IsLetter(m[0]) && IsLetter(m[1]))
    || (|m| == 3 && IsSpace(m[0]) && IsLetter(m[1]) && IsLetter(m[2]))
    || (|m| == 3 && IsLetter(m[0]) && IsLetter(m[1]) && IsSpace(m[2]))
    || (|m| == 4 && IsSpace(m[0]) && IsLetter(m[1]) && IsLetter(m[2]) && IsSpace(m[3]))
  }

  /** The shape of a Canadian GST/HST business number as the extractor accepts
      it: nine digits, the letter part, four digits. */
  predicate IsGstHstShape(v: string) {
    15 <= |v| <= 17 && AllDigits(v[..9]) && AllDigits(v[|v| - 4..]) && IsLetterPart(v[9..|v| - 4])
  }

  /** `\d`, `\s` and `[A-Z]` under IGNORECASE are digits, whitespace and letters. */
  lemma ClassFacts(c: char)
    ensures InClass(c, [Digit]) <==> IsDigit(c)
    ensures InClass(c, [Space]) <==> IsSpace(c)
    ensures InClass(c, [Range('A', 'Z')]) <==> IsLetter(c)
  {
    assert ItemMatches([Digit][0], c) <==> IsDigit(c);
    assert ItemMatches([Space][0], c) <==> IsSpace(c);
    assert ItemMatches([Range('A', 'Z')][0], c) <==> IsLetter(c);
  }

  /** The lengths of the spans of a parse of the GST/HST pattern, told span by span. */
  lemma GstHstSpanLengths(p: Pattern, v: string, t: seq<nat>)
    requires p == GstHstPattern && SpansMatch(p, v, t)
    ensures |t| == 5 && t[0] == 9 && t[1] <= 1 && t[2] == 2 && t[3] <= 1 && t[4] == 4
    ensures Sum(t[..1]) == 9 && Sum(t[..2]) == 9 + t[1] && Sum(t[..3]) == 11 + t[1]
    ensures Sum(t[..4]) == 11 + t[1] + t[3] && |v| == 15 + t[1] + t[3]
  {
    SumPrefix(t, 0);
    SumPrefix(t, 1);
    SumPrefix(t, 2);
    SumPrefix(t, 3);
    SumPrefix(t, 4);
    assert t[..0] == [] && t[..5] == t;
    assert forall k :: 0 <= k < 5 ==> AtomMatches(p[k], v[Sum(t[..k])..Sum(t[..k]) + t[k]]);
  }

  /** The pieces a parse of the GST/HST pattern, told span by span, cuts a string into. */
  lemma GstHstSpans(p: Pattern, v: string, t: seq<nat>) returns (a: nat, b: nat)
    requires p == GstHstPattern && SpansMatch(p, v, t)
    ensures a <= 1 && b <= 1 && |v| == 15 + a + b
    ensures AtomMatches(p[0], v[..9])
    ensures AtomMatches(p[1], v[9..9 + a])
    ensures AtomMatches(p[2], v[9 + a..11 + a])
    ensures AtomMatches(p[3], v[11 + a..11 + a + b])
    ensures AtomMatches(p[4], v[11 + a + b..])
  {
    GstHstSpanLengths(p, v, t);
    a, b := t[1], t[3];
    assert t[..0] == [];
    assert AtomMatches(p[0], v[Sum(t[..0])..Sum(t[..0]) + t[0]]);
    assert AtomMatches(p[1], v[Sum(t[..1])..Sum(t[..1]) + t[1]]);
    assert AtomMatches(p[2], v[Sum(t[..2])..Sum(t[..2]) + t[2]]);
    assert AtomMatches(p[3], v[Sum(t[..3])..Sum(t[..3]) + t[3]]);
    assert AtomMatches(p[4], v[Sum(t[..4])..Sum(t[..4]) + t[4]]);
    assert v[0..9] == v[..9] && v[11 + a + b..15 + a + b] == v[11 + a + b..];
  }

  /** The characters of those pieces. */
  lemma GstHstAtomsPieces(v: string, a: nat, b: nat)
    requires a <= 1 && b <= 1 && |v| == 15 + a + b
    requires AtomMatches(GstHstPattern[0], v[..9])
    requires AtomMatches(GstHstPattern[1], v[9..9 + a])
    requires AtomMatches(GstHstPattern[2], v[9 + a..11 + a])
    requires AtomMatches(GstHstPattern[3], v[11 + a..11 + a + b])
    requires AtomMatches(GstHstPattern[4], v[11 + a + b..])
    ensures AllDigits(v[..9]) && AllDigits(v[11 + a + b..])
    ensures a == 1 ==> IsSpace(v[9])
    ensures IsLetter(v[9 + a]) && IsLetter(v[10 + a])
    ensures b == 1 ==> IsSpace(v[11 + a])
  {
    var w0, w1, w2, w3, w4 := v[..9], v[9..9 + a], v[9 + a..11 + a], v[11 + a..11 + a + b], v[11 + a + b..];
    forall i | 0 <= i < 9
      ensures IsDigit(w0[i])
    {
      ClassFacts(w0[i]);
    }
    forall i | 0 <= i < 4
      ensures IsDigit(w4[i])
    {
      ClassFacts(w4[i]);
    }
    ClassFacts(v[9 + a]);
    ClassFacts(v[10 + a]);
    assert w2[0] == v[9 + a] && w2[1] == v[10 + a];
    if a == 1 {
      assert w1[0] == v[9];
      ClassFacts(v[9]);
    }
    if b == 1 {
      assert w3[0] == v[11 + a];
      ClassFacts(v[11 + a]);
    }
  }

  /** Pieces of those characters make a string of business-number shape. */
  lemma GstHstPiecesShape(v: string, a: nat, b: nat)
    requires a <= 1 && b <= 1 && |v| == 15 + a + b
    requires AllDigits(v[..9]) && AllDigits(v[11 + a + b..])
    requires a == 1 ==> IsSpace(v[9])
    requires IsLetter(v[9 + a]) && IsLetter(v[10 + a])
    requires b == 1 ==> IsSpace(v[11 + a])
    ensures IsGstHstShape(v)
  {
    assert v[|v| - 4..] == v[11 + a + b..];
    var m := v[9..|v| - 4];
    assert m[0] == v[9] && m[1] == v[10] && (|m| > 2 ==> m[2] == v[11]) && (|m| > 3 ==> m[3] == v[12]);
  }

  /** A string that the GST/HST pattern matches has the business-number shape. */
  lemma GstHstParseShape(v: string, t: seq<nat>)
    requires Parse(GstHstPattern, v, t)
    ensures IsGstHstShape(v)
  {
    ParseToSpans(GstHstPattern, v, t);
    var a, b := GstHstSpans(GstHstPattern, v, t);
    GstHstAtomsPieces(v, a, b);
    GstHstPiecesShape(v, a, b);
  }

  /** The pieces of a string of business-number shape: whether a whitespace
      character stands before (a) and after (b) the two letters. */
  lemma GstHstPieces(v: string) returns (a: nat, b: nat)
    requires IsGstHstShape(v)
    ensures a <= 1 && b <= 1 && |v| == 15 + a + b
    ensures AllDigits(v[..9]) && AllDigits(v[11 + a + b..])
    ensures a == 1 ==> IsSpace(v[9])
    ensures IsLetter(v[9 + a]) && IsLetter(v[10 + a])
    ensures b == 1 ==> IsSpace(v[11 + a])
  {
    a := if IsSpace(v[9]) then 1 else 0;
    b := |v| - 15 - a;
    var m := v[9..|v| - 4];
    assert m[0] == v[9] && m[1] == v[10] && (|m| > 2 ==> m[2] == v[11]) && (|m| > 3 ==> m[3] == v[12]);
    assert v[11 + a + b..] == v[|v| - 4..];
  }

  /** Each piece of a string of business-number shape is matched by its atom of
      the GST/HST pattern. */
  lemma GstHstPieceAtoms(v: string, a: nat, b: nat)
    requires a <= 1 && b <= 1 && |v| == 15 + a + b
    requires AllDigits(v[..9]) && AllDigits(v[11 + a + b..])
    requires a == 1 ==> IsSpace(v[9])
    requires IsLetter(v[9 + a]) && IsLetter(v[10 + a])
    requires b == 1 ==> IsSpace(v[11 + a])
    ensures AtomMatches(GstHstPattern[0], v[..9])
    ensures AtomMatches(GstHstPattern[1], v[9..9 + a])
    ensures AtomMatches(GstHstPattern[2], v[9 + a..11 + a])
    ensures AtomMatches(GstHstPattern[3], v[11 + a..11 + a + b])
    ensures AtomMatches(GstHstPattern[4], v[11 + a + b..])
  {
    var w0, w1, w2, w3, w4 := v[..9], v[9..9 + a], v[9 + a..11 + a], v[11 + a..11 + a + b], v[11 + a + b..];
    forall i | 0 <= i < 9
      ensures InClass(w0[i], [Digit])
    {
      ClassFacts(w0[i]);
    }
    ClassFacts(v[9]);
    if a == 1 {
      assert w1[0] == v[9];
    }
    ClassFacts(v[9 + a]);
    ClassFacts(v[10 + a]);
    assert w2[0] == v[9 + a] && w2[1] == v[10 + a];
    ClassFacts(v[11 + a]);
    if b == 1 {
      assert w3[0] == v[11 + a];
    }
    forall i | 0 <= i < 4
      ensures InClass(w4[i], [Digit])
    {
      ClassFacts(w4[i]);
    }
  }

  /** Those pieces, in order, make a string the GST/HST pattern matches. */
  lemma GstHstPiecesParse(v: string, a: nat, b: nat)
    requires a <= 1 && b <= 1 && |v| == 15 + a + b
    requires AtomMatches(GstHstPattern[0], v[..9])
    requires AtomMatches(GstHstPattern[1], v[9..9 + a])
    requires AtomMatches(GstHstPattern[2], v[9 + a..11 + a])
    requires AtomMatches(GstHstPattern[3], v[11 + a..11 + a + b])
    requires AtomMatches(GstHstPattern[4], v[11 + a + b..])
    ensures Matches(GstHstPattern, v)
  {
    var c: seq<nat> := [0, 9, 9 + a, 11 + a, 11 + a + b, |v|];
    assert v[..9] == v[c[0]..c[1]] && v[11 + a + b..] == v[c[4]..c[5]];
    assert forall k :: 0 <= k < 5 ==> PieceMatches(GstHstPattern, v, c, k);
    CutsParse(GstHstPattern, v, c);
  }

  /** The GST/HST pattern matches exactly the strings of business-number shape. */
  lemma GstHstMatchesIff(v: string)
    ensures Matches(GstHstPattern, v) <==> IsGstHstShape(v)
  {
    if Matches(GstHstPattern, v) {
      var t :| Parse(GstHstPattern, v, t);
      GstHstParseShape(v, t);
    }
    if IsGstHstShape(v) {
      var a, b := GstHstPieces(v);
      GstHstPieceAtoms(v, a, b);
      GstHstPiecesParse(v, a, b);
    }
  }

  /** At a given start at most one piece of text has the business-number shape:
      the text itself decides whether whitespace follows the digits and the letters. */
  lemma GstHstShapeUnique(s: string, n1: nat, n2: nat)
    requires n1 <= |s| && n2 <= |s|
    requires IsGstHstShape(s[..n1]) && IsGstHstShape(s[..n2])
    ensures n1 == n2
  {
    var v1, v2 := s[..n1], s[..n2];
    var a1, b1 := GstHstPieces(v1);
    var a2, b2 := GstHstPieces(v2);
    assert v1[9] == s[9] == v2[9];
    assert a1 == a2 by {
      assert v1[9 + a1] == s[9 + a1] && v2[9 + a2] == s[9 + a2];
    }
    assert v1[11 + a1] == s[11 + a1] == v2[11 + a2];
    assert b1 == 0 ==> IsDigit(v1[11 + a1]) by {
      assert b1 == 0 ==> v1[11 + a1 + b1..][0] == v1[11 + a1];
    }
    assert b2 == 0 ==> IsDigit(v2[11 + a2]) by {
      assert b2 == 0 ==> v2[11 + a2 + b2..][0] == v2[11 + a2];
    }
  }

  /** v is what the GST/HST check reports: the piece of text of business-number
      shape at the leftmost place one starts, and the only match starting there. */
  ghost predicate IsFirstGstHstNumber(text: string, i: nat, v: string) {
    i + |v| <= |text| && text[i..i + |v|] == v && IsGstHstShape(v)
    && NoMatchBefore(GstHstPattern, text, i)
    && forall j: nat :: MatchAt(GstHstPattern, text, i, j) ==> j == i + |v|
  }

  /** The GST/HST pattern occurs in a text exactly when a piece of it has the
      business-number shape. */
  lemma GstHstOccursIff(text: string)
    ensures Occurs(GstHstPattern, text) <==>
      exists i: nat, j: nat :: i <= j <= |text| && IsGstHstShape(text[i..j])
  {
    forall i: nat, j: nat | i <= j <= |text|
      ensures IsGstHstShape(text[i..j]) <==> MatchAt(GstHstPattern, text, i, j)
    {
      GstHstMatchesIff(text[i..j]);
    }
  }

  /** The match the search finds is the leftmost piece of business-number shape,
      the only match starting there, and `strip()` leaves it as it is. */
  lemma GstHstFirst(text: string)
    requires Search(GstHstPattern, text).Some?
    ensures var f := Search(GstHstPattern, text).value;
      IsFirstGstHstNumber(text, f.start, text[f.start..End(f)])
  {
    SearchCorrect(GstHstPattern, text);
    var f := Search(GstHstPattern, text).value;
    var v := text[f.start..End(f)];
    assert Matches(GstHstPattern, v);
    GstHstMatchesIff(v);
    forall j: nat | MatchAt(GstHstPattern, text, f.start, j)
      ensures j == f.start + |v|
    {
      var s := text[f.start..];
      assert s[..|v|] == v;
      assert s[..j - f.start] == text[f.start..j];
      GstHstMatchesIff(text[f.start..j]);
      GstHstShapeUnique(s, |v|, j - f.start);
    }
  }

  /** `strip()` leaves a string of business-number shape as it is. */
  lemma StripGstHst(v: string)
    requires IsGstHstShape(v)
    ensures Strip(v) == v
  {
    assert v[..9][0] == v[0];
    assert v[|v| - 4..][3] == v[|v| - 1];
    StripUnchanged(v);
  }

  /** The GST/HST check reports the text of the match the search finds. */
  lemma GstHstNumberValue(text: string)
    requires Search(GstHstPattern, text).Some?
    ensures var f := Search(GstHstPattern, text).value;
      End(f) <= |text| && GstHstNumber(text) == Some(text[f.start..End(f)])
  {
    SearchFound(GstHstPattern, text);
    var f := Search(GstHstPattern, text).value;
    var v := text[f.start..End(f)];
    GstHstParseShape(v, f.spans);
    StripGstHst(v);
  }

  /** The GST/HST number is None exactly when no piece of the text has the
      business-number shape. */
  lemma GstHstNumberNoneIff(text: string)
    ensures GstHstNumber(text).None? <==>
      forall i: nat, j: nat :: i <= j <= |text| ==> !IsGstHstShape(text[i..j])
  {
    GstHstOccursIff(text);
  }

  /** Otherwise it is the leftmost such piece, which `strip()` leaves as it is. */
  lemma GstHstNumberSpec(text: string)
    ensures GstHstNumber(text).Some? ==> exists i: nat :: IsFirstGstHstNumber(text, i, GstHstNumber(text).value)
  {
    if Search(GstHstPattern, text).Some? {
      var f := Search(GstHstPattern, text).value;
      GstHstFirst(text);
      GstHstNumberValue(text);
      assert IsFirstGstHstNumber(text, f.start, GstHstNumber(text).value);
    }
  }

  // ----- The invoice number -----

  /** A character an invoice number may consist of: a digit or one of - / . _ [ ] ( ). */
  predicate IsInvoiceNumberChar(c: char) {
    IsDigit(c) || c == '-' || c == '/' || c == '.' || c == '_' || c == '[' || c == ']' || c == '(' || c == ')'
  }

  /** The bracket expression of the invoice pattern, under IGNORECASE, holds
      exactly those characters. */
  lemma InvoiceNumberClassIff(c: char)
    ensures InClass(c, InvoiceNumberClass) <==> IsInvoiceNumberChar(c)
  {
    if IsInvoiceNumberChar(c) {
      var k := if IsDigit(c) then 0 else if c == '-' then 1 else if c == '/' then 2 else if c == '.' then 3
        else if c == '_' then 4 else if c == '[' then 5 else if c == ']' then 6 else if c == '(' then 7 else 8;
      assert ItemMatches(InvoiceNumberClass[k], c);
    }
  }

  /** A character right before which an invoice number can begin: the end of
      the label ("number", "no." or "#"), the optional ':' or '#', or whitespace. */
  predicate MayPrecedeInvoiceNumber(c: char) {
    IsSpace(c) || c == ':' || c == '#' || c == '.' || Lower(c) == 'r'
  }

  /** The last character of a string matched by an atom of the invoice pattern
      in front of the number, when that string is not empty. */
  lemma InvoiceAtomLastChar(k: nat, w: string)
    requires 2 <= k <= 5 && AtomMatches(InvoicePattern[k], w) && w != []
    ensures MayPrecedeInvoiceNumber(w[|w| - 1])
  {
    var c := w[|w| - 1];
    if k == 2 {
      var n :| 0 <= n < 3 && FoldEq(w, ["number", "no.", "#"][n]);
      assert n == 0 ==> Lower(c) == Lower("number"[5]);
      assert n == 1 ==> Lower(c) == Lower("no."[2]);
      assert n == 2 ==> Lower(c) == Lower("#"[0]);
    } else if k == 4 {
      assert InClass(c, [Char(':'), Char('#')]);
      var n :| 0 <= n < 2 && ItemMatches([Char(':'), Char('#')][n], c);
    } else {
      assert InClass(c, [Space]);
      assert ItemMatches([Space][0], c);
    }
  }

  /** The last non-empty piece in front of the number: the label, or one of
      the optional parts after it. */
  lemma InvoicePieceBeforeNumber(p: Pattern, u: string, t: seq<nat>) returns (k: nat)
    requires p == InvoicePattern && Parse(p, u, t)
    ensures |t| == 7 && 2 <= k <= 5 && t[k] > 0
    ensures Sum(t[..k]) + t[k] == Sum(t[..6]) && Sum(t[..6]) + t[6] == |u|
  {
    ParseLength(p, u, t);
    assert t[2] > 0 by {
      SpanMatches(p, u, t, 2);
    }
    k := LastNonEmpty(t);
  }

  /** Among spans 2 to 5 of seven, the last non-empty one, given that span 2 is non-empty. */
  lemma LastNonEmpty(t: seq<nat>) returns (k: nat)
    requires |t| == 7 && t[2] > 0
    ensures 2 <= k <= 5 && t[k] > 0
    ensures Sum(t[..k]) + t[k] == Sum(t[..6]) && Sum(t[..6]) + t[6] == Sum(t)
  {
    assert t[..7] == t;
    SumPrefix(t, 2);
    SumPrefix(t, 3);
    SumPrefix(t, 4);
    SumPrefix(t, 5);
    SumPrefix(t, 6);
    k := if t[5] > 0 then 5 else if t[4] > 0 then 4 else if t[3] > 0 then 3 else 2;
  }

  /** In any string the invoice pattern matches, the number runs to the end of
      the string, begins with an invoice-number character, and has in front of
      it a character before which an invoice number can begin. */
  lemma InvoiceNumberStart(u: string, t: seq<nat>)
    requires Parse(InvoicePattern, u, t)
    ensures |t| == 7 && 0 < |u| - t[6] < |u|
    ensures IsInvoiceNumberChar(u[|u| - t[6]]) && MayPrecedeInvoiceNumber(u[|u| - t[6] - 1])
  {
    InvoiceNumberStartOf(InvoicePattern, u, t);
  }

  /** InvoiceNumberStart with the pattern passed as a variable, so that the
      verifier does not unfold Parse over the constant pattern. */
  lemma InvoiceNumberStartOf(p: Pattern, u: string, t: seq<nat>)
    requires p == InvoicePattern && Parse(p, u, t)
    ensures |t| == 7 && 0 < |u| - t[6] < |u|
    ensures IsInvoiceNumberChar(u[|u| - t[6]]) && MayPrecedeInvoiceNumber(u[|u| - t[6] - 1])
  {
    var k := InvoicePieceBeforeNumber(p, u, t);
    InvoiceCaptureFirstChar(p, u, t);
    InvoicePieceLastChar(p, u, t, k);
    assert Sum(t[..k]) + t[k] - 1 == |u| - t[6] - 1;
  }

  /** The capture of a parse by the invoice pattern begins with an invoice-number character. */
  lemma InvoiceCaptureFirstChar(p: Pattern, u: string, t: seq<nat>)
    requires p == InvoicePattern && Parse(p, u, t)
    ensures |t| == 7 && 0 < t[6] <= |u| && IsInvoiceNumberChar(u[|u| - t[6]])
  {
    var c := Sum(t[..6]);
    SpanMatches(p, u, t, 6);
    ParseLength(p, u, t);
    SumPrefix(t, 6);
    assert t[..7] == t;
    assert c == |u| - t[6];
    assert u[c..c + t[6]][0] == u[c];
    InvoiceNumberClassIff(u[c]);
  }

  /** A non-empty piece of a parse by the invoice pattern between the label and
      the capture ends with a character before which a number can begin. */
  lemma InvoicePieceLastChar(p: Pattern, u: string, t: seq<nat>, k: nat)
    requires p == InvoicePattern && Parse(p, u, t) && 2 <= k <= 5 && t[k] > 0
    ensures Sum(t[..k]) + t[k] <= |u| && MayPrecedeInvoiceNumber(u[Sum(t[..k]) + t[k] - 1])
  {
    var s := Sum(t[..k]);
    var c := s + t[k];
    SpanMatches(p, u, t, k);
    InvoiceAtomLastChar(k, u[s..c]);
    assert u[s..c][c - s - 1] == u[c - 1];
  }

  /** v is what the invoice-number check reports: a match text[i..j] starting at
      the leftmost place any match starts, v its capture group (the span of the
      last atom, which ends the match), a non-empty run of invoice-number
      characters with none right after it that the capture could have taken. */
  ghost predicate IsFirstInvoiceNumber(text: string, i: nat, j: nat, v: string) {
    i + |v| <= j <= |text| && v == text[j - |v|..j] && v != []
    && (forall k :: 0 <= k < |v| ==> IsInvoiceNumberChar(v[k]))
    && (exists t :: Parse(InvoicePattern, text[i..j], t) && t[InvoiceNumberGroup] == |v|)
    && NoMatchBefore(InvoicePattern, text, i)
    && (j == |text| || !IsInvoiceNumberChar(text[j]))
  }

  // ----- The invoice pattern, read plainly -----

  /** The label after "invoice": "number", "no." or "#", in either case. */
  predicate IsInvoiceLabel(w: string) {
    FoldEq(w, "number") || FoldEq(w, "no.") || FoldEq(w, "#")
  }

  /** Piece k of a string the invoice pattern matches: "invoice" in either
      case (0), whitespace (1, 3, 5), the label (2), at most one ':' or '#' (4),
      and a non-empty run of invoice-number characters (6). */
  predicate InvoicePiece(k: nat, w: string) {
    if k == 0 then FoldEq(w, "invoice")
    else if k == 2 then IsInvoiceLabel(w)
    else if k == 4 then |w| <= 1 && (w == [] || w[0] == ':' || w[0] == '#')
    else if k == 6 then w != [] && forall i :: 0 <= i < |w| ==> IsInvoiceNumberChar(w[i])
    else AllSpace(w)
  }

  /** u cut at c[1] .. c[6] into the seven pieces, in order. */
  ghost predicate IsInvoiceSplit(u: string, c: seq<nat>) {
    |c| == 8 && c[0] == 0 && c[7] == |u| && forall k :: 0 <= k < 7 ==> PieceAt(u, c, k)
  }

  /** Piece k lies between cut k and cut k + 1. */
  ghost predicate PieceAt(u: string, c: seq<nat>, k: nat)
    requires |c| == 8 && k < 7
  {
    c[k] <= c[k + 1] <= |u| && InvoicePiece(k, u[c[k]..c[k + 1]])
  }

  /** u reads as an invoice label followed by an invoice number. */
  ghost predicate IsInvoiceOccurrence(u: string) {
    exists c :: IsInvoiceSplit(u, c)
  }

  /** `[:#]` under IGNORECASE holds exactly ':' and '#'. */
  lemma MarkClassIff(c: char)
    ensures InClass(c, [Char(':'), Char('#')]) <==> c == ':' || c == '#'
  {
    if c == ':' {
      assert ItemMatches([Char(':'), Char('#')][0], c);
    } else if c == '#' {
      assert ItemMatches([Char(':'), Char('#')][1], c);
    }
  }

  /** Atom k of the invoice pattern matches exactly piece k. */
  lemma InvoiceAtomIff(p: Pattern, k: nat, w: string)
    requires p == InvoicePattern && k < 7
    ensures AtomMatches(p[k], w) <==> InvoicePiece(k, w)
  {
    if k == 2 {
      var ws := ["number", "no.", "#"];
      assert p[2] == Alt(ws);
      if IsInvoiceLabel(w) {
        var n := if FoldEq(w, "number") then 0 else if FoldEq(w, "no.") then 1 else 2;
        assert FoldEq(w, ws[n]);
      }
    } else if k == 4 {
      forall i | 0 <= i < |w|
        ensures InClass(w[i], [Char(':'), Char('#')]) <==> w[i] == ':' || w[i] == '#'
      {
        MarkClassIff(w[i]);
      }
    } else if k == 6 {
      forall i | 0 <= i < |w|
        ensures InClass(w[i], InvoiceNumberClass) <==> IsInvoiceNumberChar(w[i])
      {
        InvoiceNumberClassIff(w[i]);
      }
    } else if k != 0 {
      assert p[k] == Spaces;
      forall i | 0 <= i < |w|
        ensures InClass(w[i], [Space]) <==> IsSpace(w[i])
      {
        ClassFacts(w[i]);
      }
    }
  }

  /** Cut points split u the way the invoice pattern does exactly when they
      cut it into the seven pieces. */
  lemma InvoiceCutsIff(p: Pattern, u: string, c: seq<nat>)
    requires p == InvoicePattern && |c| == 8
    ensures CutsMatch(p, u, c) <==> IsInvoiceSplit(u, c)
  {
    forall k | 0 <= k < 7
      ensures PieceMatches(p, u, c, k) <==> PieceAt(u, c, k)
    {
      if c[k] <= c[k + 1] <= |u| {
        InvoiceAtomIff(p, k, u[c[k]..c[k + 1]]);
      }
    }
  }

  /** The pieces of a parse by the invoice pattern; the last one is the capture. */
  lemma InvoiceSplitOf(p: Pattern, u: string, t: seq<nat>) returns (c: seq<nat>)
    requires p == InvoicePattern && Parse(p, u, t)
    ensures IsInvoiceSplit(u, c) && |t| == 7 && c[6] == |u| - t[6]
  {
    c := ParseCuts(p, u, t);
    InvoiceCutsIff(p, u, c);
  }

  /** The invoice pattern matches exactly the strings that read as an invoice
      label followed by an invoice number. */
  lemma InvoiceMatchesIff(u: string)
    ensures Matches(InvoicePattern, u) <==> IsInvoiceOccurrence(u)
  {
    if Matches(InvoicePattern, u) {
      var t :| Parse(InvoicePattern, u, t);
      var c := InvoiceSplitOf(InvoicePattern, u, t);
    }
    if IsInvoiceOccurrence(u) {
      var c :| IsInvoiceSplit(u, c);
      InvoiceCutsIff(InvoicePattern, u, c);
      CutsParse(InvoicePattern, u, c);
    }
  }

  /** A character whose lower-case form is a letter is no invoice-number character. */
  lemma LetterNotNumberChar(ch: char)
    requires IsLower(Lower(ch))
    ensures !IsInvoiceNumberChar(ch)
  {
  }

  /** A word spelled in lower-case letters, matched up to case, holds no
      invoice-number character. */
  lemma WordNoNumberChar(w: string, word: string, i: nat)
    requires FoldEq(w, word) && i < |w| && IsLower(word[i])
    ensures !IsInvoiceNumberChar(w[i])
  {
    LetterNotNumberChar(w[i]);
  }

  /** Within a piece in front of the number, an invoice-number character can
      only be the '.' of "no.", with an 'o' right before it. */
  lemma PieceNumberChar(k: nat, w: string, i: nat)
    requires k < 6 && InvoicePiece(k, w) && i < |w|
    ensures IsInvoiceNumberChar(w[i]) ==> k == 2 && 0 < i && Lower(w[i - 1]) == 'o'
  {
    if k == 0 {
      assert IsLower("invoice"[i]);
      WordNoNumberChar(w, "invoice", i);
    } else if k == 2 {
      if FoldEq(w, "number") {
        assert IsLower("number"[i]);
        WordNoNumberChar(w, "number", i);
      } else if FoldEq(w, "no.") {
        if i < 2 {
          assert IsLower("no."[i]);
          WordNoNumberChar(w, "no.", i);
        } else {
          assert Lower(w[1]) == Lower("no."[1]);
        }
      } else {
        assert Lower(w[0]) == Lower("#"[0]);
      }
    }
  }

  /** The piece in front of the number that position x lies in. */
  lemma PieceOf(u: string, c: seq<nat>, x: nat) returns (k: nat)
    requires IsInvoiceSplit(u, c) && x < c[6]
    ensures k < 6 && c[k] <= x < c[k + 1] <= |u| && InvoicePiece(k, u[c[k]..c[k + 1]])
  {
    k := if x < c[1] then 0 else if x < c[2] then 1 else if x < c[3] then 2
      else if x < c[4] then 3 else if x < c[5] then 4 else 5;
    assert PieceAt(u, c, k);
  }

  /** In front of the number, the only invoice-number character is the '.' of
      "no.", and an 'o' comes right before it. */
  lemma InvoicePrefixChar(u: string, c: seq<nat>, x: nat)
    requires IsInvoiceSplit(u, c) && x < c[6] && x < |u| && IsInvoiceNumberChar(u[x])
    ensures 0 < x && Lower(u[x - 1]) == 'o'
  {
    var k := PieceOf(u, c, x);
    var w := u[c[k]..c[k + 1]];
    assert w[x - c[k]] == u[x];
    PieceNumberChar(k, w, x - c[k]);
    assert w[x - c[k] - 1] == u[x - 1];
  }

  /** A character that folds to 'o' may not stand right before an invoice number. */
  lemma NotBeforeNumber(ch: char)
    requires Lower(ch) == 'o'
    ensures !MayPrecedeInvoiceNumber(ch) && !IsInvoiceNumberChar(ch)
  {
  }

  /** What the capture of the match the search finds is; `strip()` leaves it as it is. */
  lemma InvoiceCapture(text: string)
    requires Search(InvoicePattern, text).Some?
    ensures var f := Search(InvoicePattern, text).value;
      var g := Group(text, f, InvoiceNumberGroup);
      IsFirstInvoiceNumber(text, f.start, End(f), g)
  {
    var q := InvoicePattern[..6];
    assert q + [Rep(InvoiceNumberClass, 1, Unbounded)] == InvoicePattern;
    LastGroup(q, InvoiceNumberClass, 1, text);
    SearchCorrect(InvoicePattern, text);
    var f := Search(InvoicePattern, text).value;
    var g := Group(text, f, InvoiceNumberGroup);
    forall k | 0 <= k < |g|
      ensures IsInvoiceNumberChar(g[k])
    {
      InvoiceNumberClassIff(g[k]);
    }
    if End(f) < |text| {
      InvoiceNumberClassIff(text[End(f)]);
    }
  }

  /** What a reported invoice number says about the text around it: the
      capture starts after i, right after a character a number may follow,
      and in front of it, from i on, an invoice-number character only ever
      follows an 'o', before which no number may begin. */
  lemma InvoiceFirstFacts(text: string, i: nat, j: nat, v: string)
    requires IsFirstInvoiceNumber(text, i, j, v)
    ensures i < j - |v| < j <= |text|
    ensures IsInvoiceNumberChar(text[j - |v|]) && MayPrecedeInvoiceNumber(text[j - |v| - 1])
    ensures forall y :: j - |v| <= y < j ==> IsInvoiceNumberChar(text[y])
    ensures forall x :: i <= x < j - |v| && IsInvoiceNumberChar(text[x]) ==>
      i < x && !MayPrecedeInvoiceNumber(text[x - 1]) && !IsInvoiceNumberChar(text[x - 1])
  {
    var c := InvoiceFirstSplit(InvoicePattern, text, i, j, v);
    CaptureChars(text, j, v);
    PrefixChars(text, i, j, c);
  }

  /** The split of the match a reported invoice number is the capture of. */
  lemma InvoiceFirstSplit(p: Pattern, text: string, i: nat, j: nat, v: string) returns (c: seq<nat>)
    requires p == InvoicePattern && IsFirstInvoiceNumber(text, i, j, v)
    ensures IsInvoiceSplit(text[i..j], c) && c[6] == j - i - |v|
    ensures i < j - |v| && MayPrecedeInvoiceNumber(text[j - |v| - 1])
  {
    var u := text[i..j];
    var t :| Parse(p, u, t) && t[InvoiceNumberGroup] == |v|;
    InvoiceNumberStartOf(p, u, t);
    assert u[|u| - t[6] - 1] == text[j - |v| - 1];
    c := InvoiceSplitOf(p, u, t);
  }

  /** The characters of a capture that ends at j. */
  lemma CaptureChars(text: string, j: nat, v: string)
    requires |v| <= j <= |text| && v == text[j - |v|..j]
    requires forall k :: 0 <= k < |v| ==> IsInvoiceNumberChar(v[k])
    ensures forall y :: j - |v| <= y < j ==> IsInvoiceNumberChar(text[y])
  {
    forall y | j - |v| <= y < j
      ensures IsInvoiceNumberChar(text[y])
    {
      assert v[y - (j - |v|)] == text[y];
    }
  }

  /** InvoicePrefixChar, told about the text the split piece sits in. */
  lemma PrefixChars(text: string, i: nat, j: nat, c: seq<nat>)
    requires i <= j <= |text| && IsInvoiceSplit(text[i..j], c) && c[6] <= j - i
    ensures forall x :: i <= x < i + c[6] && IsInvoiceNumberChar(text[x]) ==>
      i < x && !MayPrecedeInvoiceNumber(text[x - 1]) && !IsInvoiceNumberChar(text[x - 1])
  {
    var u := text[i..j];
    forall x | i <= x < i + c[6] && IsInvoiceNumberChar(text[x])
      ensures i < x && !MayPrecedeInvoiceNumber(text[x - 1]) && !IsInvoiceNumberChar(text[x - 1])
    {
      assert PieceAt(u, c, 6);
      assert u[x - i] == text[x];
      InvoicePrefixChar(u, c, x - i);
      assert u[x - i - 1] == text[x - 1];
      NotBeforeNumber(text[x - 1]);
    }
  }

  /** Two reported invoice numbers whose matches start at the same place end
      at the same place. */
  lemma InvoiceFirstEnds(text: string, i: nat, j: nat, v: string, j2: nat, v2: string)
    requires IsFirstInvoiceNumber(text, i, j, v) && IsFirstInvoiceNumber(text, i, j2, v2) && j <= j2
    ensures j == j2
  {
    InvoiceFirstFacts(text, i, j, v);
    InvoiceFirstFacts(text, i, j2, v2);
  }

  /** Two reported invoice numbers ending at the same place are the same. */
  lemma InvoiceFirstCaptures(text: string, i: nat, j: nat, v: string, v2: string)
    requires IsFirstInvoiceNumber(text, i, j, v) && IsFirstInvoiceNumber(text, i, j, v2) && |v| <= |v2|
    ensures v == v2
  {
    InvoiceFirstFacts(text, i, j, v);
    InvoiceFirstFacts(text, i, j, v2);
  }

  /** At most one invoice number fits the description: the match, its end and
      the capture are all determined by the text. */
  lemma InvoiceFirstUnique(text: string, i: nat, j: nat, v: string, i2: nat, j2: nat, v2: string)
    requires IsFirstInvoiceNumber(text, i, j, v) && IsFirstInvoiceNumber(text, i2, j2, v2)
    ensures i == i2 && j == j2 && v == v2
  {
    var t :| Parse(InvoicePattern, text[i..j], t) && t[InvoiceNumberGroup] == |v|;
    var t2 :| Parse(InvoicePattern, text[i2..j2], t2) && t2[InvoiceNumberGroup] == |v2|;
    assert MatchAt(InvoicePattern, text, i, j) && MatchAt(InvoicePattern, text, i2, j2);
    if j <= j2 {
      InvoiceFirstEnds(text, i, j, v, j2, v2);
    } else {
      InvoiceFirstEnds(text, i, j2, v2, j, v);
    }
    if |v| <= |v2| {
      InvoiceFirstCaptures(text, i, j, v, v2);
    } else {
      InvoiceFirstCaptures(text, i, j, v2, v);
    }
  }

  /** The invoice-number check reports the capture as it is. */
  lemma InvoiceNumberValue(text: string)
    requires Search(InvoicePattern, text).Some?
    ensures var f := Search(InvoicePattern, text).value;
      var g := Group(text, f, InvoiceNumberGroup);
      IsFirstInvoiceNumber(text, f.start, End(f), g) && InvoiceNumber(text) == Some(g)
  {
    InvoiceCapture(text);
    var f := Search(InvoicePattern, text).value;
    var g := Group(text, f, InvoiceNumberGroup);
    assert IsInvoiceNumberChar(g[0]) && IsInvoiceNumberChar(g[|g| - 1]);
    StripUnchanged(g);
  }

  /** The invoice number is None exactly when the invoice pattern occurs nowhere
      in the text, and otherwise the capture of the leftmost match. */
  lemma InvoiceNumberSpec(text: string)
    ensures InvoiceNumber(text).None? <==> !Occurs(InvoicePattern, text)
    ensures InvoiceNumber(text).Some? ==>
      exists i: nat, j: nat :: IsFirstInvoiceNumber(text, i, j, InvoiceNumber(text).value)
  {
    if Search(InvoicePattern, text).Some? {
      InvoiceNumberValue(text);
    }
  }

  /** The `"Blank"` branch is dead: stripping never empties the capture, so a
      reported invoice number is a non-empty run of digits and - / . _ [ ] ( ),
      with no letter and no whitespace, and never "Blank". */
  lemma InvoiceNumberNeverBlank(text: string)
    ensures Search(InvoicePattern, text).Some? ==>
      Strip(Group(text, Search(InvoicePattern, text).value, InvoiceNumberGroup)) != []
    ensures InvoiceNumber(text).Some? ==>
      var v := InvoiceNumber(text).value;
      v != [] && v != "Blank" && forall k :: 0 <= k < |v| ==> !IsLetter(v[k]) && !IsSpace(v[k])
  {
    if Search(InvoicePattern, text).Some? {
      InvoiceNumberValue(text);
      var f := Search(InvoicePattern, text).value;
      var g := Group(text, f, InvoiceNumberGroup);
      InvoiceCharsOnly(g);
    }
  }

  /** A run of invoice-number characters has no letter and no whitespace, so
      in particular it is not "Blank". */
  lemma InvoiceCharsOnly(v: string)
    requires v != [] && forall k :: 0 <= k < |v| ==> IsInvoiceNumberChar(v[k])
    ensures v != "Blank" && forall k :: 0 <= k < |v| ==> !IsLetter(v[k]) && !IsSpace(v[k])
    ensures Strip(v) == v
  {
    assert IsInvoiceNumberChar(v[|v| - 1]);
    StripUnchanged(v);
    assert IsInvoiceNumberChar(v[0]);
    assert "Blank"[0] == 'B';
  }
}
