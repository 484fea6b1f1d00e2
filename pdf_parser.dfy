/**
 * The bookkeeping of pdf_parser.py: turning the layout of each page into a
 * dict from page number to page text, handing the page texts to the
 * vectorizer in dict order, and mapping the positions a similarity search
 * returns back to page numbers and texts.
 *
 * The PDF layout analysis, the TF-IDF vectorizer and the FAISS index are
 * outside the model: the layout is an input, and the search result is the
 * sequence of row positions the index returned, already ranked.
 */
module PdfParser {
  import opened Wrappers
  import opened PyText
  import opened PyDict

  // ---------------------------------------------------------------------
  // Pages
  // ---------------------------------------------------------------------

  /** A layout element of a page: a text container with its text, or any
      other element (figure, line, image, ...). */
  datatype Element = TextBox(text: string) | Other

  /** The elements of one page, in layout order. */
  type Layout = seq<Element>

  /** The literal put in front of every page text. */
  const Header: string := "Page Content:\n"

  /** What one element adds to the page text. */
  function ElementText(e: Element): string
  {
    match e
    case TextBox(t) => t
    case Other => ""
  }

  /** The texts of the page's text elements, concatenated in layout order. */
  function ConcatText(layout: Layout): string
  {
    if layout == [] then ""
    else ConcatText(layout[..|layout| - 1]) + ElementText(layout[|layout| - 1])
  }

  /** Concatenating the text of two runs of elements is concatenating
      their texts. */
  lemma {:induction false} ConcatTextAppend(a: Layout, b: Layout)
    ensures ConcatText(a + b) == ConcatText(a) + ConcatText(b)
    decreases |b|
  {
    if b != [] {
      var front, last := b[..|b| - 1], b[|b| - 1];
      assert (a + b)[..|a + b| - 1] == a + front;
      assert (a + b)[|a + b| - 1] == last;
      ConcatTextAppend(a, front);
      calc {
        ConcatText(a + b);
        ConcatText(a + front) + ElementText(last);
        (ConcatText(a) + ConcatText(front)) + ElementText(last);
        ConcatText(a) + (ConcatText(front) + ElementText(last));
      }
    } else {
      assert a + b == a;
    }
  }

  /** Non-text elements contribute nothing, wherever they stand. */
  lemma NonTextContributesNothing(a: Layout, b: Layout)
    ensures ConcatText(a + [Other] + b) == ConcatText(a + b)
  {
    ConcatTextAppend(a + [Other], b);
    ConcatTextAppend(a, b);
    assert (a + [Other])[..|a + [Other]| - 1] == a;
  }

  /** The text stored for one page: the header, then the stripped
      concatenation of its text elements. */
  function PageValue(layout: Layout): string
  {
    Header + Strip(ConcatText(layout))
  }

  /** Every stored page text starts with the header, and what follows the
      header has no whitespace at either end. */
  lemma PageValueShape(layout: Layout)
    ensures |Header| <= |PageValue(layout)|
    ensures PageValue(layout)[..|Header|] == Header
    ensures NoOuterSpace(PageValue(layout)[|Header|..])
  {
    assert PageValue(layout)[|Header|..] == Strip(ConcatText(layout));
  }

  /** What follows the header is the stripped concatenated text, which is
      the slice starting after its leading whitespace, leaving only
      whitespace outside it and none at its own ends. */
  lemma PageValueBody(layout: Layout)
    ensures |Header| <= |PageValue(layout)|
    ensures var s := ConcatText(layout);
            && PageValue(layout)[|Header|..] == Strip(s)
            && StripStart(s) + |Strip(s)| <= |s|
            && StripsTo(s, StripStart(s), StripStart(s) + |Strip(s)|)
            && Strip(s) == s[StripStart(s)..StripStart(s) + |Strip(s)|]
  {
    var s := ConcatText(layout);
    assert PageValue(layout)[|Header|..] == Strip(s);
    StripIsSlice(s);
  }

  /** Any slice of the concatenated text that leaves only whitespace
      outside it and has none at its own ends is what follows the header. */
  lemma PageValueBodyUnique(layout: Layout, lo: int, hi: int)
    requires StripsTo(ConcatText(layout), lo, hi)
    ensures PageValue(layout)[|Header|..] == ConcatText(layout)[lo..hi]
  {
    var s := ConcatText(layout);
    assert PageValue(layout)[|Header|..] == Strip(s);
    StripUnique(s, lo, hi);
  }

  /** No text element of the page holds anything but whitespace. */
  predicate BlankLayout(layout: Layout)
  {
    forall i :: 0 <= i < |layout| ==> AllSpace(ElementText(layout[i]))
  }

  lemma {:induction false} ConcatTextAllSpace(layout: Layout)
    ensures AllSpace(ConcatText(layout)) <==> BlankLayout(layout)
    decreases |layout|
  {
    if layout != [] {
      var n := |layout| - 1;
      var front := layout[..n];
      var a, b := ConcatText(front), ElementText(layout[n]);
      ConcatTextAllSpace(front);
      AllSpaceAppend(a, b);
      BlankLayoutSnoc(layout);
    }
  }

  /** A layout is blank exactly when all but its last element are blank
      and the last one's text is whitespace only. */
  lemma BlankLayoutSnoc(layout: Layout)
    requires layout != []
    ensures BlankLayout(layout) <==>
            BlankLayout(layout[..|layout| - 1]) && AllSpace(ElementText(layout[|layout| - 1]))
  {
    var front := layout[..|layout| - 1];
    if BlankLayout(front) && AllSpace(ElementText(layout[|layout| - 1])) {
      forall i | 0 <= i < |layout| ensures AllSpace(ElementText(layout[i])) {
        if i < |front| { assert layout[i] == front[i]; }
      }
    }
  }

  /** A page is stored as the bare header exactly when it has no text
      element with anything but whitespace in it (no text elements at all
      included); such a page is not an error. */
  lemma BlankPage(layout: Layout)
    ensures PageValue(layout) == Header <==> BlankLayout(layout)
  {
    ConcatTextAllSpace(layout);
    StripEmptyIffAllSpace(ConcatText(layout));
    assert PageValue(layout) == Header + Strip(ConcatText(layout));
  }

  /** The dict `parse_pdf_pages` builds for a document: pages numbered
      from 1 in document order, each mapped to its `PageValue`. */
  function ParsedPages(doc: seq<Layout>): (d: Dict)
    ensures Valid(d)
  {
    Dict(seq(|doc|, i requires 0 <= i < |doc| => Entry(i + 1, PageValue(doc[i]))))
  }

  /** `parse_pdf_pages`: for each page, concatenate the text of its text
      elements, strip it, put the header in front and store it under the
      next page number. */
  method ParsePdfPages(doc: seq<Layout>) returns (pageDict: Dict)
    ensures pageDict == ParsedPages(doc)
    ensures forall n :: n in Keys(pageDict) <==> 1 <= n <= |doc|
  {
    pageDict := Dict([]);
    var pageNum := 1;
    for i := 0 to |doc|
      invariant pageNum == i + 1
      invariant pageDict == ParsedPages(doc[..i])
    {
      var pageLayout := doc[i];
      var pageContent := "";
      for j := 0 to |pageLayout|
        invariant pageContent == ConcatText(pageLayout[..j])
      {
        var element := pageLayout[j];
        assert pageLayout[..j + 1][..j] == pageLayout[..j];
        if element.TextBox? {
          pageContent := pageContent + element.text;
        }
      }
      assert pageLayout[..|pageLayout|] == pageLayout;
      pageContent := Header + Strip(pageContent);
      ParsedPagesStep(doc, i);
      pageDict := Insert(pageDict, pageNum, pageContent);
      pageNum := pageNum + 1;
    }
    assert doc[..|doc|] == doc;
    PageNumbersDense(doc);
  }

  /** The keys of the parsed dict are 1..N, in page order: no gaps, no
      duplicates, nothing else. */
  lemma PageNumbersDense(doc: seq<Layout>)
    ensures |Keys(ParsedPages(doc))| == |doc|
    ensures forall i :: 0 <= i < |doc| ==> Keys(ParsedPages(doc))[i] == i + 1
    ensures forall n :: n in Keys(ParsedPages(doc)) <==> 1 <= n <= |doc|
  {
    var keys := Keys(ParsedPages(doc));
    forall n | 1 <= n <= |doc| ensures n in keys {
      assert keys[n - 1] == n;
    }
  }

  /** One more page of the document is one more `page_dict[page_num] = ...`. */
  lemma ParsedPagesStep(doc: seq<Layout>, i: int)
    requires 0 <= i < |doc|
    ensures ParsedPages(doc[..i + 1]) == Insert(ParsedPages(doc[..i]), i + 1, PageValue(doc[i]))
  {
    var front, d := ParsedPages(doc[..i]), ParsedPages(doc[..i + 1]);
    var e := Entry(i + 1, PageValue(doc[i]));
    forall m | 0 <= m < i
      ensures front.entries[m].key != i + 1
    {
      assert front.entries[m].key == m + 1;
    }
    assert Lookup(front, i + 1).None?;
    var grown := front.entries + [e];
    assert |d.entries| == |grown| == i + 1;
    forall m | 0 <= m <= i
      ensures d.entries[m] == grown[m]
    {
      assert doc[..i + 1][m] == doc[m];
      if m < i {
        assert doc[..i][m] == doc[m];
      }
    }
    assert d.entries == grown;
    assert Insert(front, i + 1, PageValue(doc[i])).entries == grown;
  }

  /** Looking up a page number in the parsed dict: pages 1..N are present
      with their page texts, and no other number is a key. */
  lemma PageLookup(doc: seq<Layout>, n: int)
    ensures Lookup(ParsedPages(doc), n)
            == if 1 <= n <= |doc| then Some(PageValue(doc[n - 1])) else None
  {
    if 1 <= n <= |doc| {
      LookupAt(ParsedPages(doc), n - 1);
    }
  }

  // ---------------------------------------------------------------------
  // Building the index
  // ---------------------------------------------------------------------

  /** `list(pages.values())`, the texts handed to the vectorizer: row i of
      the index is built from the text stored under the i-th key. */
  function PageContents(pages: Dict): (rows: seq<string>)
    requires Valid(pages)
    ensures |rows| == |Keys(pages)|
    ensures forall i :: 0 <= i < |rows| ==> Lookup(pages, Keys(pages)[i]) == Some(rows[i])
  {
    KeysValuesAlignedAll(pages);
    Values(pages)
  }

  /** For a parsed document, row i of the index is the text of page i + 1. */
  lemma ParsedRows(doc: seq<Layout>, i: int)
    requires 0 <= i < |doc|
    ensures |PageContents(ParsedPages(doc))| == |doc|
    ensures PageContents(ParsedPages(doc))[i] == PageValue(doc[i])
  {
    var d := ParsedPages(doc);
    assert Keys(d)[i] == i + 1;
    PageLookup(doc, i + 1);
  }

  // ---------------------------------------------------------------------
  // Resolving search positions
  // ---------------------------------------------------------------------

  /** One entry of the search result: `{'page_number': ..., 'content': ...}`. */
  datatype Hit = Hit(pageNumber: int, content: string)

  /** The exception Python raises for a list index out of range. */
  datatype SearchError = IndexError

  /** The position Python's `xs[idx]` reads in a list of length n: a
      negative index counts from the end, and anything outside -n..n-1
      raises. */
  function PyListIndex(n: nat, idx: int): (r: Option<nat>)
    ensures r.Some? <==> 0 <= n + idx && idx < n
    ensures r.Some? ==> r.value < n && (r.value == idx || r.value == n + idx)
  {
    if 0 <= idx < n then Some(idx)
    else if 0 <= n + idx && idx < 0 then Some(n + idx)
    else None
  }

  /** The position read is the residue of the index modulo the length:
      Python's negative indices count from the end. */
  lemma PyListIndexResidue(n: nat, idx: int)
    requires PyListIndex(n, idx).Some?
    ensures PyListIndex(n, idx).value % n == idx % n
  {
    var p := PyListIndex(n, idx).value;
    assert p % n == p;
    if idx < 0 {
      assert idx / n == -1;
    }
  }

  /** The entry for row p of the index: the p-th key, and the text row p
      was built from. */
  function HitAt(pages: Dict, p: int): Hit
    requires Valid(pages)
    requires 0 <= p < |pages.entries|
  {
    Hit(Keys(pages)[p], Values(pages)[p])
  }

  /** The text of the entry for row p is what the dict stores under its
      page number, so resolving through the keys and reading the dict back
      (as `search_pages` does) agrees with the row the index was built from. */
  lemma HitAtStored(pages: Dict, p: int)
    requires Valid(pages)
    requires 0 <= p < |pages.entries|
    ensures Lookup(pages, HitAt(pages, p).pageNumber) == Some(HitAt(pages, p).content)
  {
    KeysValuesAligned(pages, p);
  }

  /** The result loop of `search_pages` as written: each position is used
      as a Python list index into the keys, with no filtering. */
  function ResolveAsWritten(pages: Dict, positions: seq<int>): (r: Result<seq<Hit>, SearchError>)
    requires Valid(pages)
    ensures r.Success? <==>
      forall j :: 0 <= j < |positions| ==> -|pages.entries| <= positions[j] < |pages.entries|
    ensures r.Success? ==> |r.value| == |positions|
  {
    if positions == [] then Success([])
    else
      var n := |positions| - 1;
      assert forall j :: 0 <= j < n ==> positions[..n][j] == positions[j];
      match ResolveAsWritten(pages, positions[..n])
      case Failure(e) => Failure(e)
      case Success(front) =>
        match PyListIndex(|pages.entries|, positions[n])
        case None => Failure(IndexError)
        case Some(p) => Success(front + [HitAt(pages, p)])
  }

  /** Entry j of the search as written is the page at row `positions[j]`
      when that is not negative, and the page that many rows from the end
      when it is: a negative position silently names a page. */
  lemma {:induction false} ResolveAsWrittenHits(pages: Dict, positions: seq<int>, j: int)
    requires Valid(pages)
    requires ResolveAsWritten(pages, positions).Success?
    requires 0 <= j < |positions|
    ensures var h := ResolveAsWritten(pages, positions).value[j];
            var n := |pages.entries|;
            if 0 <= positions[j] then h == HitAt(pages, positions[j])
            else h == HitAt(pages, n + positions[j])
  {
    ResolveAsWrittenAt(pages, positions, j);
    var n := |pages.entries|;
    var p := PyListIndex(n, positions[j]).value;
    assert p == if 0 <= positions[j] then positions[j] else n + positions[j];
  }

  /** Entry j of the search as written is the page at the row that
      `positions[j]` reads as a Python list index. */
  lemma {:induction false} ResolveAsWrittenAt(pages: Dict, positions: seq<int>, j: int)
    requires Valid(pages)
    requires ResolveAsWritten(pages, positions).Success?
    requires 0 <= j < |positions|
    ensures PyListIndex(|pages.entries|, positions[j]).Some?
    ensures ResolveAsWritten(pages, positions).value[j] ==
            HitAt(pages, PyListIndex(|pages.entries|, positions[j]).value)
    decreases |positions|
  {
    var m := |positions| - 1;
    var front := positions[..m];
    ResolveAsWrittenSnoc(pages, positions);
    if j < m {
      assert front[j] == positions[j];
      ResolveAsWrittenAt(pages, front, j);
    }
  }

  /** One step of `ResolveAsWritten`: a successful search over a nonempty
      list of positions is the search over all but the last, followed by
      the entry for the last. */
  lemma ResolveAsWrittenSnoc(pages: Dict, positions: seq<int>)
    requires Valid(pages)
    requires positions != []
    requires ResolveAsWritten(pages, positions).Success?
    ensures var m := |positions| - 1;
            var p := PyListIndex(|pages.entries|, positions[m]);
            && ResolveAsWritten(pages, positions[..m]).Success?
            && p.Some?
            && ResolveAsWritten(pages, positions).value ==
               ResolveAsWritten(pages, positions[..m]).value + [HitAt(pages, p.value)]
  {
  }

  /** `search_pages` as written: one entry per returned position, in the
      order the index returned them. */
  method SearchPagesAsWritten(pages: Dict, indices: seq<int>) returns (r: Result<seq<Hit>, SearchError>)
    requires Valid(pages)
    ensures r == ResolveAsWritten(pages, indices)
  {
    var results := [];
    for j := 0 to |indices|
      invariant ResolveAsWritten(pages, indices[..j]) == Success(results)
    {
      assert indices[..j + 1][..j] == indices[..j];
      var keys := Keys(pages);
      match PyListIndex(|keys|, indices[j])
      case None =>
        // Python raises IndexError; positions past j are never looked at.
        assert !(-|pages.entries| <= indices[j] < |pages.entries|);
        assert ResolveAsWritten(pages, indices).error.IndexError?;
        return Failure(IndexError);
      case Some(p) =>
        var pageNumber := keys[p];
        KeysValuesAligned(pages, p);
        var pageContent := Lookup(pages, pageNumber).value;
        assert Hit(pageNumber, pageContent) == HitAt(pages, p);
        assert ResolveAsWritten(pages, indices[..j + 1])
            == Success(results + [HitAt(pages, p)]);
        results := results + [Hit(pageNumber, pageContent)];
    }
    assert indices[..|indices|] == indices;
    r := Success(results);
  }

  /** The positions that name a row of an index of n rows, in their order. */
  function InRange(n: nat, positions: seq<int>): (r: seq<int>)
    ensures |r| <= |positions|
    ensures forall j :: 0 <= j < |r| ==> 0 <= r[j] < n
    ensures forall p :: p in r <==> p in positions && 0 <= p < n
  {
    if positions == [] then []
    else
      var last := positions[|positions| - 1];
      var front := positions[..|positions| - 1];
      assert positions == front + [last];
      InRange(n, front) + (if 0 <= last < n then [last] else [])
  }

  /** Filtering a concatenation filters each part and keeps the parts in
      order: kept positions keep their relative order and multiplicity. */
  lemma {:induction false} InRangeAppend(n: nat, a: seq<int>, b: seq<int>)
    ensures InRange(n, a + b) == InRange(n, a) + InRange(n, b)
    decreases |b|
  {
    if b != [] {
      var front, last := b[..|b| - 1], b[|b| - 1];
      assert (a + b)[..|a + b| - 1] == a + front;
      assert (a + b)[|a + b| - 1] == last;
      InRangeAppend(n, a, front);
    } else {
      assert a + b == a;
    }
  }

  /** A single position is kept exactly when it names a row. */
  lemma InRangeSingle(n: nat, p: int)
    ensures InRange(n, [p]) == if 0 <= p < n then [p] else []
  {
    assert [p][..0] == [];
  }

  /** When every position names a row, nothing is dropped or reordered. */
  lemma {:induction false} InRangeAllIn(n: nat, positions: seq<int>)
    requires forall j :: 0 <= j < |positions| ==> 0 <= positions[j] < n
    ensures InRange(n, positions) == positions
    decreases |positions|
  {
    if positions != [] {
      var front := positions[..|positions| - 1];
      InRangeAllIn(n, front);
      assert positions == front + [positions[|positions| - 1]];
    }
  }

  /** The result loop of `search_pages` corrected: positions that name no
      row (FAISS pads with -1 when fewer rows than requested exist) are
      skipped instead of being used as list indices. */
  function Resolve(pages: Dict, positions: seq<int>): (r: seq<Hit>)
    requires Valid(pages)
    ensures |r| == |InRange(|pages.entries|, positions)|
    ensures forall j :: 0 <= j < |r| ==> r[j] == HitAt(pages, InRange(|pages.entries|, positions)[j])
  {
    if positions == [] then []
    else
      var last := positions[|positions| - 1];
      var front := Resolve(pages, positions[..|positions| - 1]);
      if 0 <= last < |pages.entries| then front + [HitAt(pages, last)] else front
  }

  /** `search_pages` corrected: one entry per position that names a row,
      in the order the index returned them. */
  method SearchPages(pages: Dict, indices: seq<int>) returns (results: seq<Hit>)
    requires Valid(pages)
    ensures results == Resolve(pages, indices)
  {
    results := [];
    var keys := Keys(pages);
    for j := 0 to |indices|
      invariant results == Resolve(pages, indices[..j])
    {
      assert indices[..j + 1][..j] == indices[..j];
      var idx := indices[j];
      if 0 <= idx < |keys| {
        var pageNumber := keys[idx];
        KeysValuesAligned(pages, idx);
        var pageContent := Lookup(pages, pageNumber).value;
        results := results + [Hit(pageNumber, pageContent)];
      }
    }
    assert indices[..|indices|] == indices;
  }

  /** Where every position names a row, the corrected search and the
      search as written give the same result. */
  lemma {:induction false} ResolveAgreesInRange(pages: Dict, positions: seq<int>)
    requires Valid(pages)
    requires forall j :: 0 <= j < |positions| ==> 0 <= positions[j] < |pages.entries|
    ensures ResolveAsWritten(pages, positions) == Success(Resolve(pages, positions))
    decreases |positions|
  {
    if positions != [] {
      ResolveAgreesInRange(pages, positions[..|positions| - 1]);
    }
  }

  /** Distinct in-range positions give distinct page numbers. */
  lemma ResolveDistinctPages(pages: Dict, positions: seq<int>)
    requires Valid(pages)
    requires forall i, j :: 0 <= i < j < |positions| && 0 <= positions[i] < |pages.entries|
               ==> positions[i] != positions[j]
    ensures forall i, j :: 0 <= i < j < |Resolve(pages, positions)|
              ==> Resolve(pages, positions)[i].pageNumber != Resolve(pages, positions)[j].pageNumber
  {
    var n := |pages.entries|;
    var q := InRange(n, positions);
    InRangeDistinct(n, positions);
    forall i, j | 0 <= i < j < |q|
      ensures Keys(pages)[q[i]] != Keys(pages)[q[j]]
    {
      assert q[i] in q && q[j] in q;
    }
  }

  lemma {:induction false} InRangeDistinct(n: nat, positions: seq<int>)
    requires forall i, j :: 0 <= i < j < |positions| && 0 <= positions[i] < n
               ==> positions[i] != positions[j]
    ensures forall i, j :: 0 <= i < j < |InRange(n, positions)|
              ==> InRange(n, positions)[i] != InRange(n, positions)[j]
    decreases |positions|
  {
    if positions != [] {
      var front := positions[..|positions| - 1];
      var last := positions[|positions| - 1];
      InRangeDistinct(n, front);
      if 0 <= last < n {
        assert last !in front;
        assert last !in InRange(n, front);
      }
    }
  }

  /** The page numbers of a search result, in its order. */
  function PageNumbers(hits: seq<Hit>): seq<int>
  {
    seq(|hits|, j requires 0 <= j < |hits| => hits[j].pageNumber)
  }

  /** When the index returns every row once (top_k at least the number of
      pages, padding aside), every page comes back exactly once: the page
      numbers of the result are distinct and are exactly the keys. */
  lemma EveryPageOnce(pages: Dict, positions: seq<int>)
    requires Valid(pages)
    requires forall p :: 0 <= p < |pages.entries| ==> p in positions
    requires forall i, j :: 0 <= i < j < |positions| && 0 <= positions[i] < |pages.entries|
               ==> positions[i] != positions[j]
    ensures var ns := PageNumbers(Resolve(pages, positions));
            && (forall i, j :: 0 <= i < j < |ns| ==> ns[i] != ns[j])
            && (forall k :: k in ns <==> k in Keys(pages))
  {
    ResolveDistinctPages(pages, positions);
    var r := Resolve(pages, positions);
    var ns := PageNumbers(r);
    var q := InRange(|pages.entries|, positions);
    var keys := Keys(pages);
    assert |ns| == |r| == |q|;
    forall j | 0 <= j < |ns|
      ensures ns[j] == keys[q[j]]
    {
      assert ns[j] == r[j].pageNumber;
      assert r[j] == HitAt(pages, q[j]);
    }
    forall k | k in keys
      ensures k in ns
    {
      var p :| 0 <= p < |keys| && keys[p] == k;
      assert p in q;
      var j :| 0 <= j < |q| && q[j] == p;
      assert ns[j] == k;
    }
    forall k | k in ns
      ensures k in keys
    {
      var j :| 0 <= j < |ns| && ns[j] == k;
      assert q[j] < |keys|;
    }
    forall i, j | 0 <= i < j < |ns|
      ensures ns[i] != ns[j]
    {
      assert ns[i] == r[i].pageNumber && ns[j] == r[j].pageNumber;
    }
  }

  /** From a document to search results: every in-range position p comes
      back as page p + 1 with the text of page p + 1, which is row p of
      the index, in the order the index ranked them. */
  lemma SearchParsedDocument(doc: seq<Layout>, positions: seq<int>)
    ensures var q, r := InRange(|doc|, positions), Resolve(ParsedPages(doc), positions);
            |r| == |q| && forall j :: 0 <= j < |q| ==> r[j] == Hit(q[j] + 1, PageValue(doc[q[j]]))
  {
    var pages := ParsedPages(doc);
    var q, r := InRange(|doc|, positions), Resolve(pages, positions);
    assert |pages.entries| == |doc|;
    forall j | 0 <= j < |q|
      ensures r[j] == Hit(q[j] + 1, PageValue(doc[q[j]]))
    {
      assert r[j] == HitAt(pages, q[j]);
      ParsedHit(doc, q[j]);
    }
  }

  /** Row p of a parsed document's index resolves to page p + 1 and its text. */
  lemma ParsedHit(doc: seq<Layout>, p: int)
    requires 0 <= p < |doc|
    ensures HitAt(ParsedPages(doc), p) == Hit(p + 1, PageValue(doc[p]))
  {
    assert ParsedPages(doc).entries[p] == Entry(p + 1, PageValue(doc[p]));
  }

  /** The search as written, on a three-page document with the default
      top_k of 5: FAISS returns the three rows ranked and pads the two
      missing results with -1, and -1 is read as "the last row", so page 3
      comes back three times. */
  lemma PaddedSearchRepeatsLastPage(doc: seq<Layout>)
    requires |doc| == 3
    ensures ResolveAsWritten(ParsedPages(doc), [1, 0, 2, -1, -1]).Success?
    ensures PageNumbers(ResolveAsWritten(ParsedPages(doc), [1, 0, 2, -1, -1]).value) == [2, 1, 3, 3, 3]
  {
    var pages := ParsedPages(doc);
    var ps := [1, 0, 2, -1, -1];
    assert ResolveAsWritten(pages, ps).Success?;
    var ns := PageNumbers(ResolveAsWritten(pages, ps).value);
    AsWrittenPageNumber(doc, ps, 0);
    AsWrittenPageNumber(doc, ps, 1);
    AsWrittenPageNumber(doc, ps, 2);
    AsWrittenPageNumber(doc, ps, 3);
    AsWrittenPageNumber(doc, ps, 4);
    assert ns == [2, 1, 3, 3, 3];
  }

  /** On a parsed document, entry j of the search as written carries page
      number `positions[j] + 1`, counting a negative position from the end. */
  lemma AsWrittenPageNumber(doc: seq<Layout>, positions: seq<int>, j: int)
    requires ResolveAsWritten(ParsedPages(doc), positions).Success?
    requires 0 <= j < |positions|
    ensures var ns := PageNumbers(ResolveAsWritten(ParsedPages(doc), positions).value);
            |ns| == |positions| &&
            ns[j] == (if 0 <= positions[j] then positions[j] else |doc| + positions[j]) + 1
  {
    var pages := ParsedPages(doc);
    var row := if 0 <= positions[j] then positions[j] else |doc| + positions[j];
    ResolveAsWrittenHits(pages, positions, j);
    ParsedHit(doc, row);
  }

  /** The corrected search on the same input returns each page once, in
      the ranked order. */
  lemma PaddedSearchCorrected(doc: seq<Layout>)
    requires |doc| == 3
    ensures Resolve(ParsedPages(doc), [1, 0, 2, -1, -1])
              == [Hit(2, PageValue(doc[1])), Hit(1, PageValue(doc[0])), Hit(3, PageValue(doc[2]))]
  {
    var ps := [1, 0, 2, -1, -1];
    PaddingDropped();
    var r := Resolve(ParsedPages(doc), ps);
    assert |r| == 3;
    ParsedHit(doc, 1);
    assert r[0] == Hit(2, PageValue(doc[1]));
    ParsedHit(doc, 0);
    assert r[1] == Hit(1, PageValue(doc[0]));
    ParsedHit(doc, 2);
    assert r[2] == Hit(3, PageValue(doc[2]));
  }

  lemma PaddingDropped()
    ensures InRange(3, [1, 0, 2, -1, -1]) == [1, 0, 2]
  {
    var ps := [1, 0, 2, -1, -1];
    assert ps[..4][..3] == [1, 0, 2];
    assert ps[..4] == [1, 0, 2, -1];
    assert [1, 0, 2][..2] == [1, 0];
    assert [1, 0][..1] == [1];
    assert [1][..0] == [];
  }
}
