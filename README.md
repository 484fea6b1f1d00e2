# pdf_parser bookkeeping, modelled in Dafny

This project models the part of the PDF question-answering pipeline that the
repository computes itself. The PDF layout analysis, the TF-IDF vectorizer
and the FAISS index are library code and are not modelled. Three steps are:

- `parse_pdf_pages` turns the layout of each page into a dict from page
  number to page text. For each page it concatenates the text of the
  page's text containers in layout order, strips surrounding whitespace,
  and puts the header `"Page Content:\n"` in front.
- `store_pages_in_faiss` hands the page texts to the vectorizer in dict
  order (`list(pages.values())`), so row i of the index is the i-th page.
- The result loop of `search_pages` maps each row position the index
  returns back to a page number (`list(pages.keys())[idx]`) and that page's
  text, keeping the ranking order.

Files:

- `wrappers.dfy`: `Option` and `Result`.
- `py_text.dfy` (module `PyText`): Python's `str.strip`. Whitespace is the
  set of code points for which Python's `str.isspace` holds.
- `py_dict.dfy` (module `PyDict`): a Python dict as an insertion-ordered
  table of entries with distinct keys. `Keys` and `Values` walk the same
  table, so they are aligned position by position.
- `pdf_parser.dfy` (module `PdfParser`): the page builder, the build
  ordering, and the search-result loop.

The search loop is modelled twice:

- `SearchPagesAsWritten` follows the code. Each position is a Python list
  index: a negative position counts from the end, and a position outside
  -N..N-1 raises `IndexError`.
- `SearchPages` is the corrected loop. Positions outside 0..N-1 name no
  row; the code does not filter them, and the corrected loop skips them.
  The difference is recorded under "Findings".

## Model

| member | source | states |
|---|---|---|
| PyText.IsSpace | pdf_parser.py:34 | Defines whitespace for `str.strip` as the code points for which Python's `str.isspace` holds: 0x09-0x0D, 0x1C-0x20, 0x85, 0xA0, 0x1680, 0x2000-0x200A, 0x2028, 0x2029, 0x202F, 0x205F and 0x3000. |
| PyText.Strip | pdf_parser.py:34 | Defines `str.strip`. The result is no longer than the input and has no whitespace at either end; `StripIsSlice` and `StripUnique` characterise it. |
| PdfParser.ElementText | pdf_parser.py:29-30 | Defines what one layout element adds: its text for a text container, nothing otherwise. |
| PdfParser.ConcatText | pdf_parser.py:27-30 | Defines the accumulated page text, the element texts in layout order; `ConcatTextAppend` and `NonTextContributesNothing` state its properties. |
| PdfParser.PageValue | pdf_parser.py:34 | Defines the stored page text, the header followed by the stripped page text; `PageValueShape`, `PageValueBody` and `BlankPage` state its properties. |
| PdfParser.ParsedPages | pdf_parser.py:24-36 | Defines the dict the page loop builds. Its keys are distinct; `PageNumbersDense` and `PageLookup` state its contents. |
| PyDict.Lookup | pdf_parser.py:96 | `d[k]` gives nothing if and only if no entry has key k, and otherwise gives the value of an entry with key k. |
| PyDict.Keys | pdf_parser.py:95 | `list(d.keys())` has one element per entry, and element i is the key of entry i in insertion order. |
| PyDict.Values | pdf_parser.py:53 | `list(d.values())` has one element per entry, and element i is the value of entry i in insertion order. |
| PdfParser.HitAt | pdf_parser.py:95-96 | Defines the result entry for row p, the p-th key and the p-th value; `HitAtStored` states that the value is what the dict stores under that key. |
| PdfParser.ParsePdfPages | pdf_parser.py:12-38 | The nested loops build exactly the dict `ParsedPages(doc)`: page i+1 maps to the header plus the stripped concatenation of page i's text. Its keys are exactly 1..N. |
| PdfParser.PageNumbersDense | pdf_parser.py:24-36 | The parsed dict has N keys and key i is i+1, so page numbers are dense from 1 in document order, with no gaps or duplicates. |
| PdfParser.ParsedPagesStep | pdf_parser.py:26-36 | Handling one more page is one more `page_dict[page_num] = ...` on a fresh key, which appends that page's entry. |
| PdfParser.PageLookup | pdf_parser.py:26-36 | Looking up n in the parsed dict gives page n's text for 1 <= n <= N, and nothing for any other n. |
| PdfParser.ConcatTextAppend | pdf_parser.py:28-30 | The page text of two runs of elements concatenated is the concatenation of their page texts, so text is accumulated in layout order. |
| PdfParser.NonTextContributesNothing | pdf_parser.py:28-30 | Inserting a non-text element anywhere in a page does not change the page text. |
| PdfParser.PageValueShape | pdf_parser.py:34 | Every stored page value starts with `"Page Content:\n"`, and the text after the header has no leading or trailing whitespace. |
| PdfParser.PageValueBody | pdf_parser.py:27-34 | The text after the header is the stripped concatenated text. It is the slice of the concatenated text that starts after the leading whitespace run: only whitespace lies outside it, and it has none at its own ends. |
| PdfParser.PageValueBodyUnique | pdf_parser.py:27-34 | Any slice of the concatenated text with whitespace-only margins and non-whitespace ends is exactly the text after the header. |
| PdfParser.BlankPage | pdf_parser.py:27-34 | A page is stored as exactly the header if and only if each of its text elements is whitespace only. This includes a page with no text elements. |
| PdfParser.ConcatTextAllSpace | pdf_parser.py:27-30 | A page's concatenated text is whitespace only if and only if each of its text elements is. |
| PdfParser.BlankLayoutSnoc | pdf_parser.py:28-30 | A page's elements are all whitespace only if and only if those before the last one are and the last one is. |
| PyText.AllSpaceAppend | pdf_parser.py:30 | A concatenation of text is whitespace only if and only if both parts are. |
| PyText.StripsToAt | pdf_parser.py:34 | The slice characterisation of `strip` holds if and only if every character before the slice and after it is whitespace and the slice's first and last characters are not. |
| PyText.StripIsSlice | pdf_parser.py:34 | `str.strip` returns a contiguous slice of its input whose margins are whitespace and whose end characters are not. |
| PyText.StripUnique | pdf_parser.py:34 | Any slice with whitespace margins and non-whitespace ends is exactly what `strip` returns. |
| PyText.StripIdempotent | pdf_parser.py:34 | Stripping a stripped string changes nothing. |
| PyText.StripEmptyIffAllSpace | pdf_parser.py:34 | `strip` returns the empty string if and only if the input is whitespace only. |
| PyDict.Insert | pdf_parser.py:36 | Assigning a new key appends its entry at the end. Assigning an existing key replaces its value in place and keeps its position. The keys stay distinct. |
| PyDict.InsertLookupSame | pdf_parser.py:36 | After `d[k] = v`, looking up k gives v. |
| PyDict.InsertLookupOther | pdf_parser.py:36 | After `d[k] = v`, looking up any other key gives what it gave before. |
| PyDict.LookupAppendOther | pdf_parser.py:36 | Appending an entry does not change the lookup of any key other than its own. |
| PyDict.LookupReplaceOther | pdf_parser.py:36 | Changing in place only the values stored under k does not change the lookup of any other key. |
| PyDict.LookupAt | pdf_parser.py:96 | Looking up the key of entry i gives the value of entry i. |
| PyDict.KeysValuesAligned | pdf_parser.py:95-96 | For every position i, `d[list(d.keys())[i]] == list(d.values())[i]` (the row order of line 53): keys and values share insertion order. |
| PdfParser.PageContents | pdf_parser.py:53 | The texts handed to the vectorizer are as many as the keys, and row i is the value stored under key i. |
| PdfParser.ParsedRows | pdf_parser.py:53 | For a parsed document, there are N rows and row i is the text of page i+1. |
| PdfParser.PyListIndex | pdf_parser.py:95 | A Python list index idx into n items reads a position if and only if -n <= idx < n. That position is below n and is either idx or n + idx. |
| PdfParser.PyListIndexResidue | pdf_parser.py:95 | The position read is congruent to idx modulo n, so a negative index counts from the end. |
| PdfParser.HitAtStored | pdf_parser.py:95-96 | The entry for row p carries the p-th key and the text the dict stores under that key, which is row p of the index. |
| PdfParser.ResolveAsWritten | pdf_parser.py:93-99 | The loop as written succeeds if and only if every position is in -N..N-1. It then returns exactly one entry per position. |
| PdfParser.ResolveAsWrittenAt | pdf_parser.py:94-97 | Entry j of the as-written result is the row that `positions[j]` reads as a Python list index. |
| PdfParser.ResolveAsWrittenHits | pdf_parser.py:94-97 | Entry j of the as-written result is row `positions[j]` if that is non-negative, and row N + `positions[j]` if negative, in the index's order. |
| PdfParser.SearchPagesAsWritten | pdf_parser.py:93-99 | The loop with `append` computes `ResolveAsWritten`: it raises `IndexError` at the first out-of-range position, and otherwise returns the entries in ranking order. |
| PdfParser.ResolveAgreesInRange | pdf_parser.py:93-97 | When every position is in 0..N-1, the as-written loop succeeds and returns what the corrected loop returns. |
| PdfParser.InRange | pdf_parser.py:94 | The positions kept by the corrected loop are in 0..N-1, and a value is kept if and only if it is a position in 0..N-1. Order and multiplicity are stated by the three lemmas below. |
| PdfParser.InRangeAppend | pdf_parser.py:94 | Filtering a concatenation is the concatenation of the filtered parts, so kept positions keep their relative order and multiplicity. |
| PdfParser.InRangeSingle | pdf_parser.py:94 | A single position is kept exactly when it is in 0..N-1. With `InRangeAppend` this determines the filter completely. |
| PdfParser.InRangeAllIn | pdf_parser.py:94 | When every position is in 0..N-1, nothing is dropped or reordered. |
| PdfParser.Resolve | pdf_parser.py:93-97 | The corrected result has one entry per in-range position, in ranking order. Entry j is the page at row j of the kept positions. |
| PdfParser.SearchPages | pdf_parser.py:93-99 | The corrected loop with `append` computes `Resolve`. |
| PdfParser.InRangeDistinct | pdf_parser.py:94 | If the in-range positions are distinct, the kept positions are distinct. |
| PdfParser.ResolveDistinctPages | pdf_parser.py:93-97 | Distinct in-range positions give distinct page numbers in the result. |
| PdfParser.EveryPageOnce | pdf_parser.py:93-97 | When the index returns every row once, the result's page numbers are distinct and are exactly the dict's keys. |
| PdfParser.ParsedHit | pdf_parser.py:95-96 | For a parsed document, row p (built at line 53) resolves to page number p+1 and the text of page p+1. |
| PdfParser.SearchParsedDocument | pdf_parser.py:93-97 | From document (rows built at line 53) to result: each in-range position p, in ranking order, comes back as page p+1 with that page's text. |
| PdfParser.AsWrittenPageNumber | pdf_parser.py:94-97 | On a parsed document, entry j of the as-written result has page number `positions[j] + 1`, or N + `positions[j] + 1` for a negative position. |
| PdfParser.PaddedSearchRepeatsLastPage | pdf_parser.py:94-95 | Take a 3-page document and the default top_k of 5, where the index pads with -1. The loop as written returns page numbers [2, 1, 3, 3, 3]. |
| PdfParser.PaddedSearchCorrected | pdf_parser.py:94-95 | On the same input, the corrected loop returns pages 2, 1 and 3 once each, with their texts. |
| PdfParser.PaddingDropped | pdf_parser.py:94 | The -1 padding positions are dropped and the ranked rows are kept. |

## Left out

- pdfminer's `extract_pages` and `get_text` (pdf_parser.py:26-30) read a file through a foreign library. The model takes the page layouts as input: each element is a text container carrying its text, or any other element.
- TF-IDF fitting and transform, and the FAISS L2 search (pdf_parser.py:56-65, 87-90), are floating-point numerics inside libraries. The search result is an input sequence of row positions, already ranked. Distances and the ranking itself are not modelled.
- The empty-document case of the vectorizer (it raises on an empty corpus) is library behaviour and is not modelled. Parsing an empty document gives the empty dict.
- `main` (pdf_parser.py:102-125) is printing with a hard-coded path. This includes the `[:-2]` display slice.
- The `spacy` and `json` imports are unused. The NER mentioned in the doc comments is not implemented by the code.
- llm_caller.py is not part of this model. It is environment reading, a network call and a `json.loads` fallback.
- The dict is modelled as a value. `parse_pdf_pages` builds it locally and returns it, so no aliasing is lost.
- ResolveAsWritten: the search index returns a 2-D array of positions and the loop reads its first row. The model takes that row directly. It also does not model numpy integer types: positions are unbounded integers.

## Findings

| source | as written | input that shows it | evidently intended | confidence | as-written member | corrected member |
|---|---|---|---|---|---|---|
| pdf_parser.py:94-95 | Every returned position is used as a Python list index into the keys. FAISS fills missing results with -1, and -1 reads the last key. | A 3-page document searched with the default top_k = 5: the index returns [1, 0, 2, -1, -1] and the result's page numbers are [2, 1, 3, 3, 3]. | Skip positions outside 0..N-1, so each page is returned at most once. | not executed; high (FAISS documents the -1 padding) | PdfParser.PaddedSearchRepeatsLastPage | PdfParser.PaddedSearchCorrected |
