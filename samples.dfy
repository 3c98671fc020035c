/**
 * Sample documents and what the extractor reports for them.
 */
module Samples {
  import opened Chars
  import opened Options
  import opened Regex
  import opened Phrases
  import opened InvoiceExtractor

  /** The vendor pattern, atom by atom: `e\s*m\s*i\s*l\s*e\s*corporation`. */
  const VendorAtoms: Pattern :=
    [Lit("e"), Spaces, Lit("m"), Spaces, Lit("i"), Spaces, Lit("l"), Spaces, Lit("e"), Spaces, Lit("corporation")]

  /** The vendor pattern is those atoms. */
  lemma VendorAtomsAre()
    ensures EmilePattern == VendorAtoms
  {
    assert PhrasePattern(["corporation"], []) == [Lit("corporation")];
    assert PhrasePattern(["e", "corporation"], [false]) == [Lit("e"), Spaces, Lit("corporation")];
  }

  /** A whole text the pattern matches is a text the pattern occurs in. */
  lemma WholeOccurs(p: Pattern, u: string)
    requires Matches(p, u)
    ensures Occurs(p, u)
  {
    assert u[0..|u|] == u;
    assert MatchAt(p, u, 0, |u|);
  }

  /** The class of `\s` and the class of `,` under IGNORECASE. */
  lemma SpaceAndCommaClasses()
    ensures forall x :: InClass(x, [Space]) <==> IsSpace(x)
    ensures InClass(',', [Char(',')])
  {
    assert forall x :: InClass(x, [Space]) <==> ItemMatches([Space][0], x);
    CommaClass(',');
  }

  /** Where each atom's piece of "emilecorporation" starts and ends. */
  const VendorUnspacedCuts: seq<nat> := [0, 1, 1, 2, 2, 3, 3, 4, 4, 5, 5, 16]

  lemma VendorUnspacedPieces0(u: string)
    requires u == "emilecorporation"
    ensures forall k :: 0 <= k < 5 ==> PieceMatches(VendorAtoms, u, VendorUnspacedCuts, k)
  {
    SpaceAndCommaClasses();
    forall k | 0 <= k < 5
      ensures PieceMatches(VendorAtoms, u, VendorUnspacedCuts, k)
    {
      assert k == 0 || k == 1 || k == 2 || k == 3 || k == 4;
    }
  }

  lemma VendorUnspacedPieces1(u: string)
    requires u == "emilecorporation"
    ensures forall k :: 5 <= k < 10 ==> PieceMatches(VendorAtoms, u, VendorUnspacedCuts, k)
  {
    SpaceAndCommaClasses();
    forall k | 5 <= k < 10
      ensures PieceMatches(VendorAtoms, u, VendorUnspacedCuts, k)
    {
      assert k == 5 || k == 6 || k == 7 || k == 8 || k == 9;
    }
  }

  lemma VendorUnspacedPieces2(u: string)
    requires u == "emilecorporation"
    ensures forall k :: 10 <= k < 11 ==> PieceMatches(VendorAtoms, u, VendorUnspacedCuts, k)
  {
    SpaceAndCommaClasses();
    forall k | 10 <= k < 11
      ensures PieceMatches(VendorAtoms, u, VendorUnspacedCuts, k)
    {
      assert k == 10;
    }
  }

  /** "emilecorporation" is spelled by the vendor atoms, nothing between the letters. */
  lemma VendorUnspacedMatches(u: string)
    requires u == "emilecorporation"
    ensures Matches(VendorAtoms, u)
  {
    VendorUnspacedPieces0(u);
    VendorUnspacedPieces1(u);
    VendorUnspacedPieces2(u);
    CutsParse(VendorAtoms, u, VendorUnspacedCuts);
  }

  /** Where each atom's piece of "E M I L E  CORPORATION" starts and ends. */
  const VendorSpacedCuts: seq<nat> := [0, 1, 2, 3, 4, 5, 6, 7, 8, 9, 11, 22]

  lemma VendorSpacedPieces0(u: string)
    requires u == "E M I L E  CORPORATION"
    ensures forall k :: 0 <= k < 5 ==> PieceMatches(VendorAtoms, u, VendorSpacedCuts, k)
  {
    SpaceAndCommaClasses();
    forall k | 0 <= k < 5
      ensures PieceMatches(VendorAtoms, u, VendorSpacedCuts, k)
    {
      assert k == 0 || k == 1 || k == 2 || k == 3 || k == 4;
    }
  }

  lemma VendorSpacedPieces1(u: string)
    requires u == "E M I L E  CORPORATION"
    ensures forall k :: 5 <= k < 10 ==> PieceMatches(VendorAtoms, u, VendorSpacedCuts, k)
  {
    SpaceAndCommaClasses();
    forall k | 5 <= k < 10
      ensures PieceMatches(VendorAtoms, u, VendorSpacedCuts, k)
    {
      assert k == 5 || k == 6 || k == 7 || k == 8 || k == 9;
    }
  }

  lemma VendorSpacedPieces2(u: string)
    requires u == "E M I L E  CORPORATION"
    ensures forall k :: 10 <= k < 11 ==> PieceMatches(VendorAtoms, u, VendorSpacedCuts, k)
  {
    SpaceAndCommaClasses();
    forall k | 10 <= k < 11
      ensures PieceMatches(VendorAtoms, u, VendorSpacedCuts, k)
    {
      assert k == 10;
    }
  }

  /** "E M I L E  CORPORATION" is spelled by the vendor atoms, one space between the letters and two before CORPORATION. */
  lemma VendorSpacedMatches(u: string)
    requires u == "E M I L E  CORPORATION"
    ensures Matches(VendorAtoms, u)
  {
    VendorSpacedPieces0(u);
    VendorSpacedPieces1(u);
    VendorSpacedPieces2(u);
    CutsParse(VendorAtoms, u, VendorSpacedCuts);
  }

  /** A text the vendor pattern matches as a whole sets the vendor flag. */
  lemma VendorFlagOf(text: string)
    requires Matches(VendorAtoms, text)
    ensures ExtractInvoiceInfo(text).emileCorporationFound
  {
    VendorAtomsAre();
    WholeOccurs(EmilePattern, text);
  }

  /** "emilecorporation" and "E M I L E  CORPORATION" set the vendor flag. */
  lemma FlagSamples()
    ensures ExtractInvoiceInfo("emilecorporation").emileCorporationFound
    ensures ExtractInvoiceInfo("E M I L E  CORPORATION").emileCorporationFound
  {
    VendorUnspacedMatches("emilecorporation");
    VendorFlagOf("emilecorporation");
    VendorSpacedMatches("E M I L E  CORPORATION");
    VendorFlagOf("E M I L E  CORPORATION");
  }

  /** In "0123456789AB1234" the business number starts at the second digit:
      the first nine digits are followed by a tenth, where the letters should be. */
  lemma GstHstSampleShapes(text: string)
    requires text == "0123456789AB1234"
    ensures IsGstHstShape(text[1..16])
    ensures forall j :: 0 <= j <= |text| ==> !IsGstHstShape(text[0..j])
  {
    var v := text[1..16];
    assert v == "123456789AB1234";
    assert v[9..11] == "AB";
    forall j | 0 <= j <= |text|
      ensures !IsGstHstShape(text[0..j])
    {
      var w := text[0..j];
      if 15 <= j {
        assert w[9..|w| - 4][0] == w[9] == '9';
      }
    }
  }

  /** The leftmost business number in "0123456789AB1234" is its last fifteen characters. */
  lemma GstHstSampleFirst(text: string, i: nat, v: string)
    requires text == "0123456789AB1234"
    requires IsFirstGstHstNumber(text, i, v)
    ensures v == text[1..16]
  {
    GstHstSampleShapes(text);
    GstHstMatchesIff(text[1..16]);
    assert MatchAt(GstHstPattern, text, 1, 16);
    assert text[i..i + |v|] == text[0..|v|] || i != 0;
  }

  /** The GST/HST pattern occurs in "0123456789AB1234". */
  lemma GstHstSampleOccurs(text: string)
    requires text == "0123456789AB1234"
    ensures GstHstNumber(text).Some?
  {
    GstHstSampleShapes(text);
    GstHstMatchesIff(text[1..16]);
    assert MatchAt(GstHstPattern, text, 1, 16);
  }

  /** The GST/HST check reports the last fifteen characters of "0123456789AB1234". */
  lemma GstHstSampleValue(text: string)
    requires text == "0123456789AB1234"
    ensures GstHstNumber(text) == Some(text[1..16])
  {
    GstHstSampleOccurs(text);
    GstHstNumberSpec(text);
    var v := GstHstNumber(text).value;
    var i: nat :| IsFirstGstHstNumber(text, i, v);
    GstHstSampleFirst(text, i, v);
  }

  /** "0123456789AB1234" yields the GST/HST number "123456789AB1234". */
  lemma GstHstSample(text: string)
    requires text == "0123456789AB1234"
    ensures ExtractInvoiceInfo(text).gstHstNumber == Some("123456789AB1234")
  {
    GstHstSampleValue(text);
    GstHstSampleTail(text);
    GstHstField(text, text[1..16]);
  }

  lemma GstHstSampleTail(text: string)
    requires text == "0123456789AB1234"
    ensures text[1..16] == "123456789AB1234"
  {
  }

  /** The record reports what the GST/HST check reports. */
  lemma GstHstField(text: string, v: string)
    requires GstHstNumber(text) == Some(v)
    ensures ExtractInvoiceInfo(text).gstHstNumber == Some(v)
  {
  }

  /** Nowhere in "Invoice Number: INV-2024/001" does an invoice-number
      character follow a character before which a number can begin. */
  lemma InvoiceSampleNoStart(text: string)
    requires text == "Invoice Number: INV-2024/001"
    ensures forall a :: 0 < a < |text| && IsInvoiceNumberChar(text[a]) ==> !MayPrecedeInvoiceNumber(text[a - 1])
  {
    assert text[..16] == "Invoice Number: ";
    assert text[16..] == "INV-2024/001";
    forall a | 0 < a < |text|
      ensures IsInvoiceNumberChar(text[a]) ==> !MayPrecedeInvoiceNumber(text[a - 1])
    {
      if a < 16 {
        assert text[..16][a] == text[a];
      } else {
        assert text[16..][a - 16] == text[a];
        assert text[a - 1] == if a == 16 then ' ' else text[16..][a - 17];
      }
    }
  }

  /** No string the invoice pattern matches sits anywhere in "Invoice Number: INV-2024/001". */
  lemma InvoiceSampleNoParse(text: string, i: nat, j: nat, t: seq<nat>)
    requires text == "Invoice Number: INV-2024/001" && i <= j <= |text|
    ensures !Parse(InvoicePattern, text[i..j], t)
  {
    InvoiceSampleNoStart(text);
    if Parse(InvoicePattern, text[i..j], t) {
      InvoiceNumberStart(text[i..j], t);
      assert false;
    }
  }

  /** "Invoice Number: INV-2024/001" yields no invoice number: the letters of
      "INV" are not invoice-number characters, and the '-' after them cannot
      begin a number. */
  lemma InvoiceSample(text: string)
    requires text == "Invoice Number: INV-2024/001"
    ensures ExtractInvoiceInfo(text).invoiceNumber == None
  {
    forall i: nat, j: nat | i <= j <= |text|
      ensures !MatchAt(InvoicePattern, text, i, j)
    {
      forall t
        ensures !Parse(InvoicePattern, text[i..j], t)
      {
        InvoiceSampleNoParse(text, i, j, t);
      }
    }
  }

  /** "Invoice #42" splits into the seven parts of the invoice pattern. */
  lemma InvoiceShortMatches(u: string)
    requires u == "Invoice #42"
    ensures Matches(InvoicePattern, u)
  {
    InvoiceShortPieces(u);
    InvoiceShortCuts(InvoicePattern, u);
  }

  /** The pieces of "Invoice #42". */
  lemma InvoiceShortPieces(u: string)
    requires u == "Invoice #42"
    ensures |u| == 11 && u[0..7] == "Invoice" && u[7] == ' ' && u[8] == '#' && u[9] == '4' && u[10] == '2'
  {
  }

  /** A string of those pieces matches the invoice pattern, with the cuts
      after "Invoice", after the space, after '#' and at the end. */
  lemma InvoiceShortCuts(p: Pattern, u: string)
    requires p == InvoicePattern
    requires |u| == 11 && u[0..7] == "Invoice" && u[7] == ' ' && u[8] == '#' && u[9] == '4' && u[10] == '2'
    ensures Matches(p, u)
  {
    var c: seq<nat> := [0, 7, 8, 9, 9, 9, 9, 11];
    assert u[7..8] == [' '] && u[8..9] == ['#'] && u[9..11] == ['4', '2'];
    assert ItemMatches([Space][0], ' ');
    assert FoldEq(u[8..9], ["number", "no.", "#"][2]);
    InvoiceNumberClassIff('4');
    InvoiceNumberClassIff('2');
    assert forall k :: 0 <= k < 7 ==> PieceMatches(p, u, c, k);
    CutsParse(p, u, c);
  }

  /** The leftmost invoice number in "Invoice #42" is "42". */
  lemma InvoiceShortFirst(text: string, i: nat, j: nat, v: string)
    requires text == "Invoice #42" && IsFirstInvoiceNumber(text, i, j, v)
    ensures v == "42"
  {
    var t :| Parse(InvoicePattern, text[i..j], t) && t[InvoiceNumberGroup] == |v|;
    InvoiceNumberStart(text[i..j], t);
    var e := j - |v|;
    assert text[i..j][e - i] == text[e] && text[i..j][e - i - 1] == text[e - 1];
    assert v[0] == text[e] && v[|v| - 1] == text[j - 1];
    InvoiceShortChars(text);
    assert text[9..11] == "42";
  }

  /** Which characters of "Invoice #42" are invoice-number characters, and
      before which of them a number can begin. */
  lemma InvoiceShortChars(text: string)
    requires text == "Invoice #42"
    ensures forall a :: 0 <= a < |text| ==> (IsInvoiceNumberChar(text[a]) <==> 9 <= a)
    ensures forall a :: 0 <= a < |text| ==> (MayPrecedeInvoiceNumber(text[a]) <==> a == 7 || a == 8)
  {
    forall a | 0 <= a < |text|
      ensures IsInvoiceNumberChar(text[a]) <==> 9 <= a
      ensures MayPrecedeInvoiceNumber(text[a]) <==> a == 7 || a == 8
    {
      assert text[..9] == "Invoice #" && text[9..] == "42";
      if a < 9 {
        assert text[..9][a] == text[a];
      } else {
        assert text[9..][a - 9] == text[a];
      }
    }
  }

  /** "Invoice #42" yields the invoice number "42". */
  lemma InvoiceShortSample(text: string)
    requires text == "Invoice #42"
    ensures ExtractInvoiceInfo(text).invoiceNumber == Some("42")
  {
    InvoiceShortMatches(text);
    assert text[0..11] == text;
    assert MatchAt(InvoicePattern, text, 0, 11);
    InvoiceNumberSpec(text);
    var v := InvoiceNumber(text).value;
    var i: nat, j: nat :| IsFirstInvoiceNumber(text, i, j, v);
    InvoiceShortFirst(text, i, j, v);
  }

  /** A word, a gap and a spelling of the remaining words spell all the words. */
  lemma SpacedJoin(x: string, g: string, y: string, words: seq<string>, commas: seq<bool>)
    requires |words| == |commas| + 1 && |commas| > 0
    requires FoldEq(x, words[0]) && IsGap(g, commas[0]) && Spaced(y, words[1..], commas[1..])
    ensures Spaced(x + g + y, words, commas)
  {
    var u := x + g + y;
    assert u[..|x|] == x && u[|x|..|x| + |g|] == g && u[|x| + |g|..] == y;
  }

  /** A word spelled with the case the address gives it. */
  lemma FoldSelf(w: string)
    ensures FoldEq(w, w)
  {
  }

  /** The last four words of the address joined by admissible gaps. */
  lemma AddressTail(v: string, g4: string, g5: string, g6: string)
    requires IsGap(g4, true) && IsGap(g5, true) && IsGap(g6, false)
    requires v == "Etobicoke" + g4 + ("ON" + g5 + ("M9W" + g6 + "1N3"))
    ensures Spaced(v, AddressWords[3..], AddressGaps[3..])
  {
    var w, c := AddressWords, AddressGaps;
    assert w[6..] == ["1N3"] && c[6..] == [];
    FoldSelf("1N3");
    assert Spaced("1N3", w[6..], c[6..]);
    var s5 := "M9W" + g6 + "1N3";
    assert w[5..][1..] == w[6..] && c[5..][1..] == c[6..];
    SpacedJoin("M9W", g6, "1N3", w[5..], c[5..]);
    var s4 := "ON" + g5 + s5;
    assert w[4..][1..] == w[5..] && c[4..][1..] == c[5..];
    SpacedJoin("ON", g5, s5, w[4..], c[4..]);
    assert w[3..][1..] == w[4..] && c[3..][1..] == c[4..];
    SpacedJoin("Etobicoke", g4, s4, w[3..], c[3..]);
  }

  /** The first three words of the address in front of a spelling of the rest. */
  lemma AddressHead(u: string, g1: string, g2: string, g3: string, v: string)
    requires IsGap(g1, false) && IsGap(g2, false) && IsGap(g3, true)
    requires Spaced(v, AddressWords[3..], AddressGaps[3..])
    requires u == "134" + g1 + ("Bethridge" + g2 + ("Rd" + g3 + v))
    ensures IsAddress(u)
  {
    var w, c := AddressWords, AddressGaps;
    var s2 := "Rd" + g3 + v;
    assert w[2..][1..] == w[3..] && c[2..][1..] == c[3..];
    SpacedJoin("Rd", g3, v, w[2..], c[2..]);
    var s1 := "Bethridge" + g2 + s2;
    assert w[1..][1..] == w[2..] && c[1..][1..] == c[2..];
    SpacedJoin("Bethridge", g2, s2, w[1..], c[1..]);
    SpacedJoin("134", g1, s1, w, c);
  }

  /** Regrouping the joined address from the right. */
  lemma AddressRegroup(u: string, g1: string, g2: string, g3: string, g4: string, g5: string, g6: string)
    requires u == "134" + g1 + "Bethridge" + g2 + "Rd" + g3 + "Etobicoke" + g4 + "ON" + g5 + "M9W" + g6 + "1N3"
    ensures u == "134" + g1 + ("Bethridge" + g2 + ("Rd" + g3 + ("Etobicoke" + g4 + ("ON" + g5 + ("M9W" + g6 + "1N3")))))
  {
  }

  /** The words of the address joined by admissible gaps g1 .. g6 are the address. */
  lemma AddressWith(u: string, g1: string, g2: string, g3: string, g4: string, g5: string, g6: string)
    requires IsGap(g1, false) && IsGap(g2, false) && IsGap(g3, true)
    requires IsGap(g4, true) && IsGap(g5, true) && IsGap(g6, false)
    requires u == "134" + g1 + "Bethridge" + g2 + "Rd" + g3 + "Etobicoke" + g4 + "ON" + g5 + "M9W" + g6 + "1N3"
    ensures IsAddress(u)
  {
    var v := "Etobicoke" + g4 + ("ON" + g5 + ("M9W" + g6 + "1N3"));
    AddressTail(v, g4, g5, g6);
    AddressRegroup(u, g1, g2, g3, g4, g5, g6);
    AddressHead(u, g1, g2, g3, v);
  }

  /** A text that is the address as a whole sets the address flag. */
  lemma AddressFlagOf(text: string)
    requires IsAddress(text)
    ensures ExtractInvoiceInfo(text).addressFound
  {
    AddressFlagIff(text);
    assert text[0..|text|] == text;
  }

  /** A single space may stand in any gap, and a comma with a space after it
      in a gap that allows a comma. */
  lemma SampleGaps()
    ensures IsGap(" ", false) && IsGap(" ", true) && IsGap(", ", true)
  {
    SpaceAndCommaClasses();
  }

  /** "134 Bethridge Rd Etobicoke ON M9W 1N3", the address with single spaces
      and no comma, sets the address flag. */
  lemma AddressPlainSample(text: string)
    requires text == "134" + " " + "Bethridge" + " " + "Rd" + " " + "Etobicoke" + " " + "ON" + " " + "M9W" + " " + "1N3"
    ensures ExtractInvoiceInfo(text).addressFound
  {
    SampleGaps();
    AddressWith(text, " ", " ", " ", " ", " ", " ");
    AddressFlagOf(text);
  }

  /** "134 Bethridge Rd, Etobicoke, ON, M9W 1N3", the address with a comma
      after each of Rd, Etobicoke and ON, sets the address flag too. */
  lemma AddressCommaSample(text: string)
    requires text == "134" + " " + "Bethridge" + " " + "Rd" + ", " + "Etobicoke" + ", " + "ON" + ", " + "M9W" + " " + "1N3"
    ensures ExtractInvoiceInfo(text).addressFound
  {
    SampleGaps();
    AddressWith(text, " ", " ", ", ", ", ", ", ", " ");
    AddressFlagOf(text);
  }

  /** "Invoice #:" and a line break with nothing after it yields no invoice
      number, not "Blank": the pattern needs at least one invoice-number
      character and the text has none. */
  lemma InvoiceLabelOnlySample(text: string)
    requires text == "Invoice #:\n"
    ensures ExtractInvoiceInfo(text).invoiceNumber == None
  {
    forall a | 0 <= a < |text|
      ensures !IsInvoiceNumberChar(text[a])
    {
    }
    forall i: nat, j: nat, t | i <= j <= |text|
      ensures !Parse(InvoicePattern, text[i..j], t)
    {
      if Parse(InvoicePattern, text[i..j], t) {
        InvoiceNumberStart(text[i..j], t);
        assert false;
      }
    }
  }
}
