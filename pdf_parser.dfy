/** Text extraction from a resume PDF (backend/pdf_parser.py).  Reading the
    PDF is PyPDF2's business and is not modelled: its outcome, the text of
    each page or the reason reading failed, is the input (`PdfRead`).  What is
    modelled is what the function does with the page texts: join them with
    newlines and collapse every run of whitespace to a single space. */
module PdfParser {
  import opened Wrappers
  import opened Text

  const EXTRACT_ERROR_PREFIX := "Failed to extract text from PDF: "

  /** What PyPDF2 produced. */
  datatype PdfRead =
    /** `page.extract_text()` for every page, in page order. */
    | Pages(texts: seq<string>)
    /** Opening the document or extracting a page raised; `reason` is `str(e)`. */
    | Unreadable(reason: string)

  /** A word as `str.split()` yields it: non-empty and free of whitespace. */
  predicate IsWord(w: string) {
    w != [] && forall i :: 0 <= i < |w| ==> !IsPySpace(w[i])
  }

  /** The length of the leading run of non-whitespace characters of `s`. */
  function WordLen(s: string): (n: nat)
    ensures n <= |s|
    ensures forall i :: 0 <= i < n ==> !IsPySpace(s[i])
    ensures n < |s| ==> IsPySpace(s[n])
    decreases |s|
  {
    if s == [] || IsPySpace(s[0]) then 0 else 1 + WordLen(s[1..])
  }

  /** `s.split()`: the maximal runs of non-whitespace characters, in order. */
  function Words(s: string): (ws: seq<string>)
    ensures forall i :: 0 <= i < |ws| ==> IsWord(ws[i])
    decreases |s|
  {
    if s == [] then []
    else if IsPySpace(s[0]) then Words(s[1..])
    else
      var n := WordLen(s);
      [s[..n]] + Words(s[n..])
  }

  /** `" ".join(s.split())`: the whitespace clean-up of line 42. */
  function Normalize(s: string): (r: string)
    ensures IsNormal(r)
    ensures Words(r) == Words(s)
  {
    JoinedWordsNormal(Words(s));
    WordsOfJoin(Words(s));
    Join(" ", Words(s))
  }

  /** `"\n".join(text_parts)`. */
  function JoinPages(pages: seq<string>): string {
    Join("\n", pages)
  }

  /** The words of every page, page after page. */
  function WordsOfPages(pages: seq<string>): seq<string>
    decreases |pages|
  {
    if pages == [] then [] else Words(pages[0]) + WordsOfPages(pages[1..])
  }

  /** `extract_text_from_pdf`, as a value. */
  function ExtractText(read: PdfRead): (r: Result<string, Error>)
    ensures read.Unreadable? ==> r == Failure(PlainException(EXTRACT_ERROR_PREFIX + read.reason))
    ensures read.Pages? ==> r.Success? && IsNormal(r.value) && Words(r.value) == WordsOfPages(read.texts)
  {
    match read
    case Unreadable(reason) => Failure(PlainException(EXTRACT_ERROR_PREFIX + reason))
    case Pages(texts) =>
      WordsOfJoinedPages(texts);
      Success(Normalize(JoinPages(texts)))
  }

  /** `extract_text_from_pdf`: collects the page texts in a loop, joins them
      and cleans up the whitespace.  Any failure is re-raised with its message
      behind a fixed prefix. */
  method ExtractTextFromPdf(read: PdfRead) returns (r: Result<string, Error>)
    ensures r == ExtractText(read)
    ensures r.Failure? ==> r.error.PlainException? && StartsWith(r.error.message, EXTRACT_ERROR_PREFIX)
  {
    match read {
      case Unreadable(reason) =>
        r := Failure(PlainException(EXTRACT_ERROR_PREFIX + reason));
      case Pages(pages) =>
        var textParts: seq<string> := [];
        var pageNum := 0;
        while pageNum < |pages|
          invariant 0 <= pageNum <= |pages|
          invariant textParts == pages[..pageNum]
        {
          textParts := textParts + [pages[pageNum]];
          pageNum := pageNum + 1;
        }
        assert textParts == pages;
        var fullText := Join("\n", textParts);
        fullText := Join(" ", Words(fullText));
        r := Success(fullText);
    }
  }

  // ---------------------------------------------------------------------
  // Properties of the clean-up
  // ---------------------------------------------------------------------

  /** The shape of cleaned-up text: it neither starts nor ends with
      whitespace, and its only whitespace characters are single spaces, each
      followed by a non-whitespace character. */
  predicate IsNormal(t: string) {
    && (t != [] ==> !IsPySpace(t[0]) && !IsPySpace(t[|t| - 1]))
    && forall i :: 0 <= i < |t| && IsPySpace(t[i]) ==>
         t[i] == ' ' && i + 1 < |t| && !IsPySpace(t[i + 1])
  }

  /** A word is its own single leading run. */
  lemma {:induction false} WordLenOfWord(w: string, t: string)
    requires forall i :: 0 <= i < |w| ==> !IsPySpace(w[i])
    requires t == [] || IsPySpace(t[0])
    ensures WordLen(w + t) == |w|
    decreases |w|
  {
    if w != [] {
      assert (w + t)[1..] == w[1..] + t;
      WordLenOfWord(w[1..], t);
    } else {
      assert w + t == t;
    }
  }

  /** Appending text that starts with whitespace does not lengthen the
      leading run. */
  lemma {:induction false} WordLenAppend(a: string, t: string)
    requires t != [] && IsPySpace(t[0])
    ensures WordLen(a + t) == WordLen(a)
    decreases |a|
  {
    if a == [] {
      assert a + t == t;
    } else if !IsPySpace(a[0]) {
      assert (a + t)[1..] == a[1..] + t;
      WordLenAppend(a[1..], t);
    }
  }

  /** Splitting a string that is words joined by single spaces gives the
      words back. */
  lemma {:induction false} WordsOfJoin(ws: seq<string>)
    requires forall i :: 0 <= i < |ws| ==> IsWord(ws[i])
    ensures Words(Join(" ", ws)) == ws
    decreases |ws|
  {
    if |ws| == 1 {
      var w := ws[0];
      WordLenOfWord(w, []);
      assert w + [] == w;
      assert w[|w|..] == [];
    } else if |ws| > 1 {
      var w, j := ws[0], Join(" ", ws[1..]);
      var s := w + " " + j;
      assert s == w + (" " + j);
      WordLenOfWord(w, " " + j);
      assert s[..|w|] == w;
      assert s[|w|..] == " " + j;
      assert (" " + j)[1..] == j;
      WordsOfJoin(ws[1..]);
      assert Words(s[|w|..]) == Words(j);
    }
  }

  /** Words joined by single spaces are normal text. */
  lemma {:induction false} JoinedWordsNormal(ws: seq<string>)
    requires forall i :: 0 <= i < |ws| ==> IsWord(ws[i])
    ensures IsNormal(Join(" ", ws))
    ensures Join(" ", ws) == [] <==> ws == []
    decreases |ws|
  {
    if |ws| > 1 {
      var w, j := ws[0], Join(" ", ws[1..]);
      JoinedWordsNormal(ws[1..]);
      var s := w + " " + j;
      assert s[|s| - 1] == j[|j| - 1];
      forall i | 0 <= i < |s| && IsPySpace(s[i])
        ensures s[i] == ' ' && i + 1 < |s| && !IsPySpace(s[i + 1])
      {
        if i > |w| {
          assert s[i] == j[i - |w| - 1];
          assert i + 1 < |s| ==> s[i + 1] == j[i - |w|];
        } else {
          assert i == |w|;
          assert s[i + 1] == j[0];
        }
      }
    }
  }

  /** The clean-up is idempotent. */
  lemma NormalizeIdempotent(s: string)
    ensures Normalize(Normalize(s)) == Normalize(s)
  {
    assert Words(Normalize(s)) == Words(s);
  }

  /** A string has no words exactly when it is all whitespace. */
  lemma {:induction false} WordsEmptyIffAllSpace(s: string)
    ensures Words(s) == [] <==> AllSpace(s, IsPySpace)
    decreases |s|
  {
    if s != [] && IsPySpace(s[0]) {
      WordsEmptyIffAllSpace(s[1..]);
      assert AllSpace(s, IsPySpace) <==> AllSpace(s[1..], IsPySpace) by {
        if AllSpace(s[1..], IsPySpace) {
          forall i | 0 <= i < |s| ensures IsPySpace(s[i]) {
            if i > 0 { assert s[i] == s[1..][i - 1]; }
          }
        }
      }
    }
  }

  /** The clean-up yields "" exactly for all-whitespace input. */
  lemma NormalizeEmptyIffAllSpace(s: string)
    ensures Normalize(s) == "" <==> AllSpace(s, IsPySpace)
  {
    JoinedWordsNormal(Words(s));
    WordsEmptyIffAllSpace(s);
  }

  /** A newline between two texts separates their words: the last word of
      `a` does not run into the first word of `b`. */
  lemma {:induction false} WordsAcrossNewline(a: string, b: string)
    ensures Words(a + "\n" + b) == Words(a) + Words(b)
    decreases |a|
  {
    var s := a + "\n" + b;
    if a == [] {
      assert s[1..] == b;
    } else if IsPySpace(a[0]) {
      assert s[1..] == a[1..] + "\n" + b;
      WordsAcrossNewline(a[1..], b);
    } else {
      var n := WordLen(a);
      assert s == a + ("\n" + b);
      WordLenAppend(a, "\n" + b);
      assert s[..n] == a[..n];
      assert s[n..] == a[n..] + "\n" + b;
      WordsAcrossNewline(a[n..], b);
    }
  }

  /** The words of the joined pages are the pages' words, page after page. */
  lemma {:induction false} WordsOfJoinedPages(pages: seq<string>)
    ensures Words(JoinPages(pages)) == WordsOfPages(pages)
    decreases |pages|
  {
    if |pages| == 1 {
      assert WordsOfPages(pages[1..]) == [];
      assert Words(pages[0]) + [] == Words(pages[0]);
    } else if |pages| > 1 {
      WordsOfJoinedPages(pages[1..]);
      WordsAcrossNewline(pages[0], JoinPages(pages[1..]));
    }
  }

  /** Extraction from pages that are all blank (or from no page at all)
      yields "". */
  lemma BlankPagesExtractEmpty(pages: seq<string>)
    requires forall i :: 0 <= i < |pages| ==> AllSpace(pages[i], IsPySpace)
    ensures ExtractText(Pages(pages)) == Success("")
  {
    AllBlankPagesHaveNoWords(pages);
    WordsOfJoinedPages(pages);
  }

  lemma {:induction false} AllBlankPagesHaveNoWords(pages: seq<string>)
    requires forall i :: 0 <= i < |pages| ==> AllSpace(pages[i], IsPySpace)
    ensures WordsOfPages(pages) == []
    decreases |pages|
  {
    if pages != [] {
      WordsEmptyIffAllSpace(pages[0]);
      AllBlankPagesHaveNoWords(pages[1..]);
    }
  }

  /** Normal text is unchanged by `strip()`, so it strips to "" only when it
      is "". */
  lemma StripNormal(t: string)
    requires IsNormal(t)
    ensures PyStrip(t) == t
  {
    assert TrimStart(t, IsPySpace) == t;
    assert TrimEnd(t, IsPySpace) == t;
  }
}
