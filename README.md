# Invoice field extractor, modelled in Dafny

This project models `extract_invoice_info` of the invoice reader (app.py,
lines 13-53) once the document text is known. The function runs four
independent, case-insensitive regular-expression searches over the text of
a PDF invoice. It returns a record with four keys:

- `Emile Corporation Found`: whether the vendor name `e\s*m\s*i\s*l\s*e\s*corporation` occurs.
- `Address Found`: whether the street address
  `134\s*Bethridge\s*Rd\s*,?\s*Etobicoke\s*,?\s*ON\s*,?\s*M9W\s*1N3` occurs.
- `GST/HST Number`: the stripped text of the leftmost match of
  `\d{9}\s?[A-Z]{2}\s?\d{4}` (a Canadian business-number shape), or `None`.
- `Invoice Number`: the stripped group 3 of the leftmost match of
  `(invoice\s*(number|no\.|#)\s*[:#]?\s*([0-9\-/._\[\]()]+))`, `'Blank'` when
  stripping leaves nothing, or `None`.

The files:

- `chars.dfy` (module `Chars`): the ASCII character classes `\d` and `\s`,
  ASCII case folding, and Python's `str.strip()`.
- `regex.dfy` (module `Regex`): the part of Python's `re` that the four
  patterns use. A pattern is a sequence of atoms: a literal word, a greedy
  bounded or unbounded repetition of a character class, or an alternation of
  words. Each pattern is read in two ways:
  - `Parse`/`Matches` is its language, written declaratively.
  - `Match` is a backtracking matcher that tries choices in the `re` engine's
    order: a repetition longest first, alternatives left to right.

  `Search` tries start positions from the left. `SearchCorrect` proves
  that `Search` finds nothing exactly when no piece of the text is in the
  language. Otherwise `Search` returns a parse that starts at the leftmost
  position where any match starts.
- `phrases.dfy` (module `Phrases`): fixed words separated by whitespace gaps,
  some of which may hold one comma. This is how the vendor and address
  patterns are written. The phrase pattern's language is proved equal to a
  plain description in terms of words and gaps.
- `extractor.dfy` (module `InvoiceExtractor`): the four patterns, the result
  record, the extractor, and the properties of each field.
- `samples.dfy` (module `Samples`): sample texts and what the extractor
  returns for each.

Behaviour the proofs establish:

- The `'Blank'` branch (app.py:42-43) is dead. Group 3 uses `+` and its class
  has no whitespace, so `strip()` never empties it
  (`InvoiceExtractor.InvoiceNumberNeverBlank`).
- An invoice number that begins with a letter (`INV-2024/001`) is never
  captured. "Invoice Number: INV-2024/001" yields no invoice number at all,
  because neither `INV` nor the `-` after it can start the capture
  (`Samples.InvoiceSample`).
- "Invoice #:" followed by a line break and no class character yields no
  invoice number, not `'Blank'` (`Samples.InvoiceLabelOnlySample`).
- `strip()` never changes a GST/HST match, which begins and ends with a digit
  (`InvoiceExtractor.StripGstHst`). In "0123456789AB1234" the leftmost match
  starts at the second digit (`Samples.GstHstSample`).

## Model

| member | source | states |
|---|---|---|
| `InvoiceExtractor.ExtractInvoiceInfo` | app.py:13-53 | the four-key record; each field is computed from the text alone, and each flag or optional field is set exactly when its pattern occurs somewhere in the text |
| `InvoiceExtractor.EmilePattern` | app.py:14 | the vendor pattern as a phrase of the words e, m, i, l, e, corporation joined by `\s*`; its language is given by `VendorFlagIff` through `Phrases.PhraseMatchesIff` |
| `InvoiceExtractor.AddressPattern` | app.py:18-21 | the address pattern as a phrase of the seven address words, with `\s*,?\s*` after Rd, Etobicoke and ON and `\s*` elsewhere; its language is given by `AddressFlagIff` |
| `InvoiceExtractor.GstHstPattern` | app.py:25 | `\d{9}\s?[A-Z]{2}\s?\d{4}` atom by atom; its language is given by `GstHstMatchesIff` |
| `InvoiceExtractor.InvoicePattern` | app.py:34-37 | the invoice pattern atom by atom, the last atom being group 3; its language is given by `InvoiceMatchesIff` |
| `InvoiceExtractor.VendorFlagIff` | app.py:14-15 | the vendor flag is true iff some piece of the text is e, m, i, l, e, corporation in either case, with any whitespace between the letters of "emile" and before "corporation" |
| `InvoiceExtractor.AddressFlagIff` | app.py:18-22 | the address flag is true iff some piece of the text is 134, Bethridge, Rd, Etobicoke, ON, M9W, 1N3 in order and in either case, with any whitespace between them; the gaps after Rd, Etobicoke and ON may each also hold one comma, the other gaps none |
| `InvoiceExtractor.GstHstNumber` | app.py:25-31 | the GST/HST field is None exactly when the pattern occurs nowhere in the text |
| `InvoiceExtractor.GstHstMatchesIff` | app.py:25 | the pattern matches exactly the strings of 15 to 17 characters made of 9 digits, an optional whitespace character, 2 ASCII letters of either case, an optional whitespace character and 4 digits |
| `InvoiceExtractor.GstHstShapeUnique` | app.py:25-26 | at a given start at most one piece of text has that shape, so the match at the leftmost start is fully determined |
| `InvoiceExtractor.GstHstFirst` | app.py:25-29 | the match the search returns has that shape, no match starts further left, and no other match starts at the same place |
| `InvoiceExtractor.StripGstHst` | app.py:29 | `strip()` leaves a string of that shape unchanged |
| `InvoiceExtractor.GstHstNumberValue` | app.py:26-29 | the reported number is the exact text of the match the search returns |
| `InvoiceExtractor.GstHstNumberNoneIff` | app.py:25-31 | the GST/HST number is None iff no piece of the text has the business-number shape |
| `InvoiceExtractor.GstHstNumberSpec` | app.py:25-31 | a reported GST/HST number is the piece of business-number shape at the leftmost position where one starts |
| `InvoiceExtractor.InvoiceNumber` | app.py:34-45 | the invoice-number field is None exactly when the invoice pattern occurs nowhere in the text |
| `InvoiceExtractor.InvoiceNumberClassIff` | app.py:35 | the bracket expression under IGNORECASE holds exactly the digits and - / . _ [ ] ( ) |
| `InvoiceExtractor.InvoiceMatchesIff` | app.py:35 | the invoice pattern matches exactly the strings that read as "invoice" in either case, whitespace, "number", "no." or "#", whitespace, at most one ':' or '#', whitespace, and a non-empty run of invoice-number characters to the end |
| `InvoiceExtractor.InvoiceNumberStart` | app.py:35 | in any string the pattern matches, the capture is non-empty, ends the string, begins with a class character, and follows the label, the optional ':' or '#', or whitespace |
| `InvoiceExtractor.InvoiceCapture` | app.py:35-41 | group 3 of the match found is a non-empty run of class characters that ends the leftmost match; the character after it, if any, is outside the class |
| `InvoiceExtractor.InvoiceNumberValue` | app.py:38-41 | the reported invoice number is group 3 itself, unchanged by `strip()` |
| `InvoiceExtractor.InvoiceNumberSpec` | app.py:34-45 | the invoice number is None iff the pattern occurs nowhere; otherwise it is the maximal run of class characters captured by a match that starts at the leftmost position where any match starts |
| `InvoiceExtractor.InvoiceFirstUnique` | app.py:35-41 | at most one (start, end, capture) fits that description, so the reported invoice number is determined by the text alone |
| `InvoiceExtractor.InvoiceNumberNeverBlank` | app.py:41-43 | stripping never empties group 3, so a reported invoice number is non-empty, has no letter and no whitespace, and is never "Blank" |
| `Phrases.PhraseMatchesIff` | app.py:14-22 | a pattern of words joined by `\s*` (or `\s*,?\s*`) matches exactly the strings that spell the words, ignoring case, with whitespace gaps and at most one comma in each gap that allows one |
| `Phrases.GapMatches` | app.py:19 | `\s*,?\s*` matches exactly the strings of whitespace holding at most one comma, and `\s*` exactly the strings of whitespace |
| `Regex.RunLen` | app.py:35 | a greedy repetition reaches over class characters only and stops at the first character outside the class, unless its bound stops it first |
| `Regex.Match` | app.py:14-38 | the backtracking matcher returns one span length per atom, together no longer than the string; `MatchSound` and `MatchComplete` give its meaning |
| `Regex.Search` | app.py:15-38 | `pattern.search(text)`: a found match has one span per atom and ends within the text; `SearchCorrect` gives its meaning |
| `Regex.Group` | app.py:41 | `.group(k)`: the capture has the length of span k; `GroupIsSpan` shows it is the text atom k took |
| `Regex.MatchSound` | app.py:14-38 | what the backtracking matcher returns is a parse of the prefix it consumed |
| `Regex.MatchComplete` | app.py:14-38 | if any prefix of the string is in the pattern's language, the matcher succeeds |
| `Regex.SearchCorrect` | app.py:14-38 | the search fails iff no piece of the text matches; otherwise it returns a parse of a piece that starts where the leftmost match starts, as the matcher builds it there |
| `Regex.GreedyLast` | app.py:35 | a final unbounded repetition takes the whole run of class characters in front of it |
| `Regex.LastGroup` | app.py:35-41 | the group of a final unbounded repetition ends the match, has at least its minimum length, and is not followed by a class character |
| `Chars.StripSpec` | app.py:29 | `strip()` returns a middle piece of its argument and removes only whitespace on either side |
| `Chars.Strip` | app.py:29-41 | `str.strip()`: the result is no longer than its argument and neither begins nor ends with whitespace; `StripSpec` adds that it is a middle piece with only whitespace cut off |
| `Chars.StripUnchanged` | app.py:29 | `strip()` leaves a string that begins and ends with non-whitespace unchanged |
| `Chars.StripEmptyIff` | app.py:41-42 | `strip()` empties a string exactly when it is all whitespace |
| `Samples.FlagSamples` | app.py:14-15 | "emilecorporation" and "E M I L E  CORPORATION" both set the vendor flag |
| `Samples.AddressPlainSample` | app.py:18-22 | "134 Bethridge Rd Etobicoke ON M9W 1N3" sets the address flag |
| `Samples.AddressCommaSample` | app.py:18-22 | "134 Bethridge Rd, Etobicoke, ON, M9W 1N3" sets the address flag |
| `Samples.GstHstSample` | app.py:25-29 | "0123456789AB1234" yields the GST/HST number "123456789AB1234" |
| `Samples.InvoiceSample` | app.py:34-45 | "Invoice Number: INV-2024/001" yields no invoice number |
| `Samples.InvoiceShortSample` | app.py:34-41 | "Invoice #42" yields the invoice number "42" |
| `Samples.InvoiceLabelOnlySample` | app.py:34-45 | "Invoice #:" and a line break yield no invoice number, not "Blank" |

## Left out

- PDF text extraction with pdfplumber (app.py:7-11) is a foreign library. The model starts from the concatenated text. A page whose `extract_text()` returns None, which would make `text +=` raise, is not modelled.
- The Streamlit upload, display and download interface (app.py:55-94) is left out. This includes the `BytesIO` wrapping, the per-upload `'File Name'` key, and CSV export through pandas. All of it is I/O and presentation.
- Python `re` is modelled only for the constructs the four patterns use: literals, character classes, greedy `*`, `+`, `?`, `{n}`, and alternations of words.
- Capture groups 1 and 2 of the invoice pattern are not modelled, because the code reads only group 3.
- Unicode semantics of `re` and `str.strip()` are not modelled. `\d` is '0'..'9'. `\s` and `strip()` use the six ASCII whitespace characters. IGNORECASE is ASCII case folding. Left out are non-ASCII digits, Unicode spaces, the separators U+001C-U+001F that Python also counts as whitespace, and folds such as U+212A (Kelvin sign) to 'k'.
