/** The chat panel (frontend/src/components/ChatWindow.jsx): the
    markdown-to-HTML conversion of a message and the message list kept while
    questions are sent.  Of the conversion, the table rendering, the single
    list wrap and the paragraph wrap are modelled; finding a table in the
    text, and the header, emphasis, code and list-item substitutions, are
    regular-expression replacements that are taken as given functions. */
module ChatWindow {
  import opened Wrappers
  import Text

  // ---------------------------------------------------------------------
  // Markdown tables
  // ---------------------------------------------------------------------

  /** A column's `text-align`. */
  datatype Align = Left | Center | Right

  function AlignName(a: Align): string {
    match a
    case Left => "left"
    case Center => "center"
    case Right => "right"
  }

  /** The alignment a trimmed separator cell asks for. */
  function Classify(trimmed: string): (a: Align)
    ensures a == Center <==> Text.StartsWith(trimmed, ":") && Text.EndsWith(trimmed, ":")
    ensures a == Right <==> !Text.StartsWith(trimmed, ":") && Text.EndsWith(trimmed, ":")
    ensures a == Left <==> !Text.EndsWith(trimmed, ":")
  {
    if Text.StartsWith(trimmed, ":") && Text.EndsWith(trimmed, ":") then Center
    else if Text.EndsWith(trimmed, ":") then Right
    else Left
  }

  /** A string as `trim()` leaves it: it neither starts nor ends with
      whitespace. */
  predicate IsTrimmed(s: string) {
    s != [] ==> !Text.IsJsSpace(s[0]) && !Text.IsJsSpace(s[|s| - 1])
  }

  /** `.filter(h => h.trim()).map(h => h.trim())`: pieces that are empty or
      all whitespace are dropped, the rest trimmed, in order. */
  function NonBlankTrimmed(pieces: seq<string>): (r: seq<string>)
    ensures |r| <= |pieces|
    ensures forall i :: 0 <= i < |r| ==> r[i] != "" && IsTrimmed(r[i])
    decreases |pieces|
  {
    if pieces == [] then []
    else
      var t := Text.JsTrim(pieces[0]);
      var rest := NonBlankTrimmed(pieces[1..]);
      if t == "" then rest
      else
        assert IsTrimmed(t);
        assert forall i :: 0 < i <= |rest| ==> ([t] + rest)[i] == rest[i - 1];
        [t] + rest
  }

  /** `.filter(cell => cell !== '').map(cell => cell.trim())`: only pieces
      that are exactly empty are dropped, the rest trimmed, in order, so an
      all-whitespace piece stays as an empty cell. */
  function NonEmptyTrimmed(pieces: seq<string>): (r: seq<string>)
    ensures |r| <= |pieces|
    ensures forall i :: 0 <= i < |r| ==> IsTrimmed(r[i])
    decreases |pieces|
  {
    if pieces == [] then []
    else
      var rest := NonEmptyTrimmed(pieces[1..]);
      if pieces[0] == "" then rest
      else
        var t := Text.JsTrim(pieces[0]);
        assert IsTrimmed(t);
        assert forall i :: 0 < i <= |rest| ==> ([t] + rest)[i] == rest[i - 1];
        [t] + rest
  }

  /** One piece: the header rule keeps it trimmed unless it trims to
      nothing; the body rule keeps it trimmed unless it is empty. */
  lemma CellRulesOnePiece(p: string)
    ensures NonBlankTrimmed([p]) == (if Text.JsTrim(p) == "" then [] else [Text.JsTrim(p)])
    ensures NonEmptyTrimmed([p]) == (if p == "" then [] else [Text.JsTrim(p)])
  {
    assert [p][1..] == [];
  }

  /** The header rule keeps every piece that trims to something. */
  lemma {:induction false} HeaderCellKept(pieces: seq<string>, j: int)
    requires 0 <= j < |pieces| && Text.JsTrim(pieces[j]) != ""
    ensures Text.JsTrim(pieces[j]) in NonBlankTrimmed(pieces)
    decreases j
  {
    var rest := NonBlankTrimmed(pieces[1..]);
    if j == 0 {
      assert NonBlankTrimmed(pieces) == [Text.JsTrim(pieces[0])] + rest;
    } else {
      assert pieces[1..][j - 1] == pieces[j];
      HeaderCellKept(pieces[1..], j - 1);
      assert forall x :: x in rest ==> x in NonBlankTrimmed(pieces);
    }
  }

  /** Every header cell is one of the pieces, trimmed. */
  lemma {:induction false} HeaderCellFromPiece(pieces: seq<string>, x: string)
    requires x in NonBlankTrimmed(pieces)
    ensures exists j :: 0 <= j < |pieces| && x == Text.JsTrim(pieces[j])
    decreases |pieces|
  {
    if x != Text.JsTrim(pieces[0]) {
      HeaderCellFromPiece(pieces[1..], x);
      var k :| 0 <= k < |pieces[1..]| && x == Text.JsTrim(pieces[1..][k]);
      assert pieces[1..][k] == pieces[k + 1];
    }
  }

  /** The body rule keeps every non-empty piece, trimmed. */
  lemma BodyCellKept(pieces: seq<string>, j: int)
    requires 0 <= j < |pieces| && pieces[j] != ""
    ensures Text.JsTrim(pieces[j]) in NonEmptyTrimmed(pieces)
  {
    var front, p, back := pieces[..j], pieces[j], pieces[j + 1..];
    var tail := pieces[j..];
    assert tail == [p] + back;
    assert pieces == front + tail;
    BodyRuleAppend(front, tail);
    BodyRuleAppend([p], back);
    CellRulesOnePiece(p);
    var t := Text.JsTrim(p);
    assert NonEmptyTrimmed([p]) == [t];
    assert NonEmptyTrimmed(tail) == [t] + NonEmptyTrimmed(back);
    assert NonEmptyTrimmed(pieces) == NonEmptyTrimmed(front) + ([t] + NonEmptyTrimmed(back));
    assert NonEmptyTrimmed(pieces)[|NonEmptyTrimmed(front)|] == t;
  }

  /** Every body cell is a non-empty piece, trimmed. */
  lemma {:induction false} BodyCellFromPiece(pieces: seq<string>, x: string)
    requires x in NonEmptyTrimmed(pieces)
    ensures exists j :: 0 <= j < |pieces| && pieces[j] != "" && x == Text.JsTrim(pieces[j])
    decreases |pieces|
  {
    if pieces[0] == "" || x != Text.JsTrim(pieces[0]) {
      BodyCellFromPiece(pieces[1..], x);
      var k :| 0 <= k < |pieces[1..]| && pieces[1..][k] != "" && x == Text.JsTrim(pieces[1..][k]);
      assert pieces[1..][k] == pieces[k + 1];
    }
  }

  /** Without empty pieces the body rule keeps every piece, trimmed, in its
      place. */
  lemma {:induction false} BodyCellsWithoutEmpty(pieces: seq<string>)
    requires forall j :: 0 <= j < |pieces| ==> pieces[j] != ""
    ensures |NonEmptyTrimmed(pieces)| == |pieces|
    ensures forall i :: 0 <= i < |pieces| ==> NonEmptyTrimmed(pieces)[i] == Text.JsTrim(pieces[i])
    decreases |pieces|
  {
    if pieces != [] {
      forall j | 0 <= j < |pieces[1..]| ensures pieces[1..][j] != "" {
        assert pieces[1..][j] == pieces[j + 1];
      }
      BodyCellsWithoutEmpty(pieces[1..]);
      var r := NonEmptyTrimmed(pieces);
      assert r == [Text.JsTrim(pieces[0])] + NonEmptyTrimmed(pieces[1..]);
      forall i | 1 <= i < |pieces| ensures r[i] == Text.JsTrim(pieces[i]) {
        assert r[i] == NonEmptyTrimmed(pieces[1..])[i - 1];
        assert pieces[1..][i - 1] == pieces[i];
      }
    }
  }

  /** Both cell rules work piece by piece: the cells of two runs of pieces
      are the cells of the first run followed by those of the second.  With
      `CellRulesOnePiece` this fixes each rule completely as a filter
      followed by a trim, in order. */
  lemma {:induction false} HeaderRuleAppend(a: seq<string>, b: seq<string>)
    ensures NonBlankTrimmed(a + b) == NonBlankTrimmed(a) + NonBlankTrimmed(b)
    decreases |a|
  {
    if a == [] {
      assert a + b == b;
    } else {
      assert (a + b)[0] == a[0];
      assert (a + b)[1..] == a[1..] + b;
      HeaderRuleAppend(a[1..], b);
    }
  }

  lemma {:induction false} BodyRuleAppend(a: seq<string>, b: seq<string>)
    ensures NonEmptyTrimmed(a + b) == NonEmptyTrimmed(a) + NonEmptyTrimmed(b)
    decreases |a|
  {
    if a == [] {
      assert a + b == b;
    } else {
      assert (a + b)[0] == a[0];
      assert (a + b)[1..] == a[1..] + b;
      BodyRuleAppend(a[1..], b);
    }
  }

  /** The empty strings of `cells` removed. */
  function DropEmpty(cells: seq<string>): (r: seq<string>)
    ensures forall i :: 0 <= i < |r| ==> r[i] != ""
    decreases |cells|
  {
    if cells == [] then []
    else if cells[0] == "" then DropEmpty(cells[1..])
    else [cells[0]] + DropEmpty(cells[1..])
  }

  /** The header rule is the body rule with whitespace-only cells dropped as
      well: the two differ exactly on cells that hold only whitespace. */
  lemma {:induction false} HeaderRuleIsBodyRuleWithoutBlanks(pieces: seq<string>)
    ensures NonBlankTrimmed(pieces) == DropEmpty(NonEmptyTrimmed(pieces))
    decreases |pieces|
  {
    if pieces != [] {
      HeaderRuleIsBodyRuleWithoutBlanks(pieces[1..]);
      if pieces[0] == "" {
        assert Text.JsTrim("") == "" by {
          assert Text.TrimStart("", Text.IsJsSpace) == "";
        }
      } else {
        var t := Text.JsTrim(pieces[0]);
        assert NonEmptyTrimmed(pieces) == [t] + NonEmptyTrimmed(pieces[1..]);
        assert ([t] + NonEmptyTrimmed(pieces[1..]))[1..] == NonEmptyTrimmed(pieces[1..]);
      }
    }
  }

  /** A parsed table: header cells, column alignments and body rows. */
  datatype Table = Table(headers: seq<string>, aligns: seq<Align>, rows: seq<seq<string>>)

  /** The header line's cells. */
  function HeaderCells(header: string): seq<string> {
    NonBlankTrimmed(Text.Split(header, '|'))
  }

  /** The alignments of the separator line: one per cell the header rule
      keeps from it, centred when that cell starts and ends with ':', right
      when it only ends with one, left otherwise. */
  function Alignments(separator: string): (r: seq<Align>)
    ensures |r| == |HeaderCells(separator)|
    ensures forall i :: 0 <= i < |r| ==>
              (r[i] == Center <==> Text.StartsWith(HeaderCells(separator)[i], ":") && Text.EndsWith(HeaderCells(separator)[i], ":"))
    ensures forall i :: 0 <= i < |r| ==>
              (r[i] == Right <==> !Text.StartsWith(HeaderCells(separator)[i], ":") && Text.EndsWith(HeaderCells(separator)[i], ":"))
    ensures forall i :: 0 <= i < |r| ==> (r[i] == Left <==> !Text.EndsWith(HeaderCells(separator)[i], ":"))
  {
    var cells := HeaderCells(separator);
    seq(|cells|, i requires 0 <= i < |cells| => Classify(cells[i]))
  }

  /** `body.trim().split('\n')`, each line split on '|' by the body rule:
      one row per line break of the trimmed body, plus one. */
  function BodyRows(body: string): (r: seq<seq<string>>)
    ensures |r| == Text.CountOf(Text.JsTrim(body), '\n') + 1
  {
    var lines := Text.Split(Text.JsTrim(body), '\n');
    Text.SplitCount(Text.JsTrim(body), '\n');
    seq(|lines|, i requires 0 <= i < |lines| => NonEmptyTrimmed(Text.Split(lines[i], '|')))
  }

  /** Every non-empty piece of a body line between bars is a cell of that
      line's row, trimmed; in particular a piece of spaces only gives an
      empty cell. */
  lemma BodyRowKeepsPiece(body: string, i: nat, j: nat)
    requires i < |Text.Split(Text.JsTrim(body), '\n')|
    requires j < |Text.Split(Text.Split(Text.JsTrim(body), '\n')[i], '|')|
    requires Text.Split(Text.Split(Text.JsTrim(body), '\n')[i], '|')[j] != ""
    ensures Text.JsTrim(Text.Split(Text.Split(Text.JsTrim(body), '\n')[i], '|')[j]) in BodyRows(body)[i]
    ensures Text.AllSpace(Text.Split(Text.Split(Text.JsTrim(body), '\n')[i], '|')[j], Text.IsJsSpace) ==> "" in BodyRows(body)[i]
  {
    var piece := Text.Split(Text.Split(Text.JsTrim(body), '\n')[i], '|')[j];
    BodyCellKept(Text.Split(Text.Split(Text.JsTrim(body), '\n')[i], '|'), j);
    Text.TrimEmptyIffAllSpace(piece, Text.IsJsSpace);
  }

  /** Every cell of a body row is a non-empty piece of its line, trimmed. */
  lemma BodyRowCellFromPiece(body: string, i: nat, x: string)
    requires i < |BodyRows(body)| && x in BodyRows(body)[i]
    ensures var line := Text.Split(Text.JsTrim(body), '\n')[i];
            exists j :: 0 <= j < |Text.Split(line, '|')| && Text.Split(line, '|')[j] != "" && x == Text.JsTrim(Text.Split(line, '|')[j])
  {
    Text.SplitCount(Text.JsTrim(body), '\n');
    BodyCellFromPiece(Text.Split(Text.Split(Text.JsTrim(body), '\n')[i], '|'), x);
  }

  /** The three lines the table expression captured, parsed. */
  function ParseTable(header: string, separator: string, body: string): Table {
    Table(HeaderCells(header), Alignments(separator), BodyRows(body))
  }

  /** `alignments[i] || 'left'`: a column without an alignment entry is left
      aligned. */
  function AlignAt(aligns: seq<Align>, i: nat): (a: Align)
    ensures i < |aligns| ==> a == aligns[i]
    ensures i >= |aligns| ==> a == Left
  {
    if i < |aligns| then aligns[i] else Left
  }

  const TABLE_OPEN := "<table class=\"markdown-table\">"
  const HEAD_OPEN := "<thead><tr>"
  const HEAD_CLOSE := "</tr></thead><tbody>"
  const TABLE_CLOSE := "</tbody></table>"

  /** One cell, `th` in the header and `td` in the body, styled with its
      column's alignment. */
  function CellHtml(tag: string, content: string, a: Align): string {
    "<" + tag + " style=\"text-align: " + AlignName(a) + "\">" + content + "</" + tag + ">"
  }

  /** The cells of one row, the i-th with the i-th alignment. */
  function CellsHtml(tag: string, cells: seq<string>, aligns: seq<Align>): string
    decreases |cells|
  {
    if cells == [] then ""
    else
      var n := |cells| - 1;
      CellsHtml(tag, cells[..n], aligns) + CellHtml(tag, cells[n], AlignAt(aligns, n))
  }

  /** The body rows, each inside `<tr>`. */
  function BodyHtml(rows: seq<seq<string>>, aligns: seq<Align>): string
    decreases |rows|
  {
    if rows == [] then ""
    else
      var n := |rows| - 1;
      BodyHtml(rows[..n], aligns) + "<tr>" + CellsHtml("td", rows[n], aligns) + "</tr>"
  }

  /** The HTML of a parsed table. */
  function TableHtml(t: Table): (r: string)
    ensures Text.StartsWith(r, TABLE_OPEN + HEAD_OPEN)
    ensures Text.EndsWith(r, HEAD_CLOSE + BodyHtml(t.rows, t.aligns) + TABLE_CLOSE)
  {
    var open := TABLE_OPEN + HEAD_OPEN;
    var head := CellsHtml("th", t.headers, t.aligns);
    var body := BodyHtml(t.rows, t.aligns);
    Assoc(open + head, HEAD_CLOSE, body);
    Assoc(open + head, HEAD_CLOSE + body, TABLE_CLOSE);
    Assoc(open, head, HEAD_CLOSE + body + TABLE_CLOSE);
    Text.Affixes(open, head, HEAD_CLOSE + body + TABLE_CLOSE);
    open + head + HEAD_CLOSE + body + TABLE_CLOSE
  }

  /** The replacement for one matched table: the captured lines parsed,
      then rendered. */
  method BuildTableHtml(header: string, separator: string, body: string) returns (tableHtml: string)
    ensures tableHtml == TableHtml(ParseTable(header, separator, body))
  {
    var t := ParseTable(header, separator, body);
    tableHtml := RenderTable(t);
  }

  /** The rendering half of the replacement: the HTML is built with `+=` in
      loops over the header cells, the rows and each row's cells. */
  method RenderTable(t: Table) returns (tableHtml: string)
    ensures tableHtml == TableHtml(t)
  {
    var headers, alignments, rows := t.headers, t.aligns, t.rows;
    tableHtml := TABLE_OPEN;
    tableHtml := tableHtml + HEAD_OPEN;
    ghost var start := tableHtml;
    var i := 0;
    while i < |headers|
      invariant 0 <= i <= |headers|
      invariant tableHtml == start + CellsHtml("th", headers[..i], alignments)
    {
      var cell := CellHtml("th", headers[i], AlignAt(alignments, i));
      CellsHtmlSnoc("th", headers, alignments, i);
      Assoc(start, CellsHtml("th", headers[..i], alignments), cell);
      tableHtml := tableHtml + cell;
      i := i + 1;
    }
    assert headers[..|headers|] == headers;
    tableHtml := tableHtml + HEAD_CLOSE;
    ghost var prefix := tableHtml;

    var r := 0;
    while r < |rows|
      invariant 0 <= r <= |rows|
      invariant tableHtml == prefix + BodyHtml(rows[..r], alignments)
    {
      var row := rows[r];
      tableHtml := tableHtml + "<tr>";
      ghost var rowStart := tableHtml;
      var c := 0;
      while c < |row|
        invariant 0 <= c <= |row|
        invariant tableHtml == rowStart + CellsHtml("td", row[..c], alignments)
      {
        var cell := CellHtml("td", row[c], AlignAt(alignments, c));
        CellsHtmlSnoc("td", row, alignments, c);
        Assoc(rowStart, CellsHtml("td", row[..c], alignments), cell);
        tableHtml := tableHtml + cell;
        c := c + 1;
      }
      assert row[..|row|] == row;
      BodyHtmlSnoc(rows, alignments, r);
      ghost var done := BodyHtml(rows[..r], alignments);
      Assoc(prefix, done, "<tr>");
      Assoc(prefix, done + "<tr>", CellsHtml("td", row, alignments));
      Assoc(prefix, done + "<tr>" + CellsHtml("td", row, alignments), "</tr>");
      tableHtml := tableHtml + "</tr>";
      r := r + 1;
    }
    assert rows[..|rows|] == rows;
    tableHtml := tableHtml + TABLE_CLOSE;
  }

  lemma Assoc(a: string, b: string, c: string)
    ensures a + b + c == a + (b + c)
  {
  }

  lemma CellsHtmlSnoc(tag: string, cells: seq<string>, aligns: seq<Align>, i: nat)
    requires i < |cells|
    ensures CellsHtml(tag, cells[..i + 1], aligns)
         == CellsHtml(tag, cells[..i], aligns) + CellHtml(tag, cells[i], AlignAt(aligns, i))
  {
    assert cells[..i + 1][..i] == cells[..i];
  }

  lemma BodyHtmlSnoc(rows: seq<seq<string>>, aligns: seq<Align>, i: nat)
    requires i < |rows|
    ensures BodyHtml(rows[..i + 1], aligns)
         == BodyHtml(rows[..i], aligns) + "<tr>" + CellsHtml("td", rows[i], aligns) + "</tr>"
  {
    assert rows[..i + 1][..i] == rows[..i];
  }

  /** The concatenation of a sequence of strings, front to back. */
  function Concat(parts: seq<string>): string
    decreases |parts|
  {
    if parts == [] then "" else parts[0] + Concat(parts[1..])
  }

  lemma {:induction false} ConcatSnoc(parts: seq<string>, last: string)
    ensures Concat(parts + [last]) == Concat(parts) + last
    decreases |parts|
  {
    if parts == [] {
      assert [] + [last] == [last];
    } else {
      assert (parts + [last])[1..] == parts[1..] + [last];
      ConcatSnoc(parts[1..], last);
    }
  }

  /** A row is its cells in column order, column `i` styled with
      `AlignAt(aligns, i)`; so a column past the separator's cells is left
      aligned, in the header and in the body alike. */
  lemma {:induction false} CellsHtmlIsColumns(tag: string, cells: seq<string>, aligns: seq<Align>)
    ensures CellsHtml(tag, cells, aligns)
         == Concat(seq(|cells|, i requires 0 <= i < |cells| => CellHtml(tag, cells[i], AlignAt(aligns, i))))
    decreases |cells|
  {
    var all := seq(|cells|, i requires 0 <= i < |cells| => CellHtml(tag, cells[i], AlignAt(aligns, i)));
    if cells != [] {
      var n := |cells| - 1;
      CellsHtmlIsColumns(tag, cells[..n], aligns);
      var front := seq(n, i requires 0 <= i < n => CellHtml(tag, cells[..n][i], AlignAt(aligns, i)));
      var last := CellHtml(tag, cells[n], AlignAt(aligns, n));
      forall i | 0 <= i < n ensures all[i] == front[i] {
        assert cells[..n][i] == cells[i];
      }
      assert all == front + [last];
      ConcatSnoc(front, last);
      assert CellsHtml(tag, cells, aligns) == CellsHtml(tag, cells[..n], aligns) + last;
    }
  }

  /** A cell of whitespace between two bars is dropped from the header but
      kept, empty, in a body row. */
  lemma BlankCellHeaderVersusBody(w: string)
    requires w != "" && Text.AllSpace(w, Text.IsJsSpace)
    ensures NonBlankTrimmed([w]) == []
    ensures NonEmptyTrimmed([w]) == [""]
  {
    Text.TrimEmptyIffAllSpace(w, Text.IsJsSpace);
  }

  /** Examples of `Classify` on concrete cells: a separator cell is centred
      when it starts and ends with ':', right aligned when it only ends with
      one, and left aligned otherwise, a leading ':' alone included. */
  lemma ClassifyExamples()
    ensures Classify(":---:") == Center && Classify(":") == Center
    ensures Classify("---:") == Right
    ensures Classify(":---") == Left && Classify("---") == Left
  {
    assert ":---:"[..1] == ":" && ":---:"[4..] == ":";
    assert ":"[..1] == ":";
    assert "---:"[..1] != ":" by { assert "---:"[0] == '-'; }
    assert "---:"[3..] == ":";
    assert ":---"[3..] != ":" by { assert ":---"[3] == '-'; }
    assert "---"[2..] != ":" by { assert "---"[2] == '-'; }
  }

  // ---------------------------------------------------------------------
  // The list wrap and the paragraph wrap
  // ---------------------------------------------------------------------

  const LI_OPEN := "<li>"
  const LI_CLOSE := "</li>"

  /** `pat` occurs in `s` at position `i`. */
  predicate Occurs(s: string, pat: string, i: int) {
    0 <= i && i + |pat| <= |s| && s[i..i + |pat|] == pat
  }

  /** The first occurrence of `pat` at or after `from`. */
  function FindFirst(s: string, pat: string, from: nat): (r: Option<nat>)
    ensures r.Some? ==> from <= r.value && Occurs(s, pat, r.value)
                        && forall j :: from <= j < r.value ==> !Occurs(s, pat, j)
    ensures r.None? ==> forall j :: from <= j ==> !Occurs(s, pat, j)
    decreases |s| - from
  {
    if from + |pat| > |s| then None
    else if Occurs(s, pat, from) then Some(from)
    else FindFirst(s, pat, from + 1)
  }

  /** The last occurrence of `pat` before `upto`. */
  function FindLast(s: string, pat: string, upto: nat): (r: Option<nat>)
    ensures r.Some? ==> r.value < upto && Occurs(s, pat, r.value)
                        && forall j :: r.value < j < upto ==> !Occurs(s, pat, j)
    ensures r.None? ==> forall j :: j < upto ==> !Occurs(s, pat, j)
    decreases upto
  {
    if upto == 0 then None
    else if Occurs(s, pat, upto - 1) then Some(upto - 1)
    else FindLast(s, pat, upto - 1)
  }

  /** `/(<li>.*<\/li>)/s` can match `s[p..q + 5]`: "<li>" at `p` and "</li>"
      at `q`, not overlapping it. */
  predicate MatchAt(s: string, p: int, q: int) {
    Occurs(s, LI_OPEN, p) && p + |LI_OPEN| <= q && Occurs(s, LI_CLOSE, q)
  }

  /** The match a non-global search takes: the leftmost start, and from it
      the longest match, as the greedy `.*` gives. */
  ghost predicate FirstLongestMatch(s: string, p: int, q: int) {
    MatchAt(s, p, q) && forall p', q' :: MatchAt(s, p', q') ==> p <= p' && q' <= q
  }

  /** The match, if there is one. */
  function FindMatch(s: string): (r: Option<(nat, nat)>)
    ensures r.Some? ==> FirstLongestMatch(s, r.value.0, r.value.1)
    ensures r.None? ==> forall p, q :: !MatchAt(s, p, q)
  {
    match FindFirst(s, LI_OPEN, 0)
    case None => None
    case Some(p) =>
      match FindLast(s, LI_CLOSE, |s|)
      case None => None
      case Some(q) => if p + |LI_OPEN| <= q then Some((p, q)) else None
  }

  /** There is at most one such match. */
  lemma MatchUnique(s: string, p1: int, q1: int, p2: int, q2: int)
    requires FirstLongestMatch(s, p1, q1) && FirstLongestMatch(s, p2, q2)
    ensures p1 == p2 && q1 == q2
  {
  }

  /** `.replace(/(<li>.*<\/li>)/s, '<ul>$1</ul>')`: one `<ul>` around the
      span from the first "<li>" to the last "</li>" after it, or nothing if
      there is no such span. */
  function WrapList(s: string): (r: string)
    ensures (forall p, q :: !MatchAt(s, p, q)) ==> r == s
    ensures forall p, q :: FirstLongestMatch(s, p, q) ==>
              r == s[..p] + "<ul>" + s[p..q + |LI_CLOSE|] + "</ul>" + s[q + |LI_CLOSE|..]
  {
    match FindMatch(s)
    case None => s
    case Some((p, q)) => s[..p] + "<ul>" + s[p..q + |LI_CLOSE|] + "</ul>" + s[q + |LI_CLOSE|..]
  }

  /** Output starting with one of these is not wrapped in a paragraph. */
  predicate BlockStart(s: string) {
    Text.StartsWith(s, "<h") || Text.StartsWith(s, "<ul") || Text.StartsWith(s, "<pre>")
    || Text.StartsWith(s, "<table")
  }

  /** The final step: wrap in `<p>` unless the text already starts with a
      block element. */
  function WrapParagraph(s: string): (r: string)
    ensures BlockStart(s) ==> r == s
    ensures !BlockStart(s) ==> r == "<p>" + s + "</p>"
  {
    if BlockStart(s) then s else "<p>" + s + "</p>"
  }

  /** Text that begins with a rendered table is not wrapped. */
  lemma TableFirstNotWrapped(t: Table, rest: string)
    ensures WrapParagraph(TableHtml(t) + rest) == TableHtml(t) + rest
  {
    var s := TableHtml(t) + rest;
    assert s[..6] == "<table";
  }

  /** Text that begins with a list item that has a closing tag after it
      comes out as a list, unwrapped. */
  lemma ListFirstNotWrapped(s: string, q: nat)
    requires Text.StartsWith(s, LI_OPEN) && Occurs(s, LI_CLOSE, q) && q >= |LI_OPEN|
    ensures Text.StartsWith(WrapList(s), "<ul>")
    ensures WrapParagraph(WrapList(s)) == WrapList(s)
  {
    assert Occurs(s, LI_OPEN, 0);
    assert MatchAt(s, 0, q);
    var m := FindMatch(s);
    var r := WrapList(s);
    var p, q' := m.value.0, m.value.1;
    assert p == 0;
    assert r == "<ul>" + s[p..q' + 5] + "</ul>" + s[q' + 5..];
    assert r[..3] == "<ul";
    assert r[..4] == "<ul>";
  }

  /** `formatMarkdown(text)`.  `tables` is the table replacement (whose
      per-table replacement is `BuildTableHtml`) and `inline` the chain of
      header, emphasis, code, list-item and line-break substitutions.  A
      missing or empty text gives ""; anything else gives output that starts
      with a block element or is a paragraph. */
  function FormatMarkdown(text: Option<string>, tables: string -> string, inline: string -> string)
    : (r: string)
    ensures r == "" <==> text.None? || text.value == ""
    ensures r != "" ==> BlockStart(r) || (Text.StartsWith(r, "<p>") && Text.EndsWith(r, "</p>"))
  {
    if text.None? || text.value == "" then ""
    else
      var formatted := inline(tables(text.value));
      WrapParagraph(WrapList(formatted))
  }

  // ---------------------------------------------------------------------
  // The message list
  // ---------------------------------------------------------------------

  datatype Role = User | Assistant

  datatype Message = Message(role: Role, content: string)

  const APOLOGY := "Sorry, I encountered an error. Please try again."

  /** How the request to the chat endpoint ended: with an answer, or with
      an exception (network error, a status that is not ok, a body that is
      not JSON). */
  datatype ChatReply = Answered(answer: string) | RequestFailed

  /** The text of the assistant message added for a reply. */
  function ReplyText(reply: ChatReply): (t: string)
    ensures reply.Answered? ==> t == reply.answer
    ensures reply.RequestFailed? ==> t == APOLOGY
  {
    match reply
    case Answered(answer) => answer
    case RequestFailed => APOLOGY
  }

  /** The component's state. */
  datatype ChatState = ChatState(messages: seq<Message>, input: string, isLoading: bool)

  /** The guard of `handleSend`. */
  predicate CanSend(s: ChatState) {
    Text.JsTrim(s.input) != "" && !s.isLoading
  }

  /** The part of `handleSend` before the request is awaited. */
  function BeginSend(s: ChatState): (r: ChatState)
    ensures !CanSend(s) ==> r == s
    ensures CanSend(s) ==> r.messages == s.messages + [Message(User, Text.JsTrim(s.input))]
                           && r.input == "" && r.isLoading
  {
    if !CanSend(s) then s
    else ChatState(s.messages + [Message(User, Text.JsTrim(s.input))], "", true)
  }

  /** The part after it: the reply is appended and loading ends.  Whatever
      was typed meanwhile stays in the input. */
  function FinishSend(s: ChatState, reply: ChatReply): (r: ChatState)
    ensures r.messages == s.messages + [Message(Assistant, ReplyText(reply))]
    ensures r.input == s.input && !r.isLoading
  {
    ChatState(s.messages + [Message(Assistant, ReplyText(reply))], s.input, false)
  }

  /** `handleSend` run to completion without anything in between. */
  function Send(s: ChatState, reply: ChatReply): (r: ChatState)
    ensures !CanSend(s) ==> r == s
    ensures CanSend(s) ==>
              && r.messages == s.messages + [Message(User, Text.JsTrim(s.input)), Message(Assistant, ReplyText(reply))]
              && r.messages[|s.messages|].content != ""
              && IsTrimmed(r.messages[|s.messages|].content)
              && r.input == "" && !r.isLoading
  {
    if !CanSend(s) then s else FinishSend(BeginSend(s), reply)
  }

  /** While a request is pending, sending again changes nothing. */
  lemma NoSendWhilePending(s: ChatState, typed: string)
    requires CanSend(s)
    ensures var pending := BeginSend(s).(input := typed);
            BeginSend(pending) == pending
  {
  }

  /** The messages alternate, a question then its answer. */
  predicate Conversation(msgs: seq<Message>) {
    && |msgs| % 2 == 0
    && forall i :: 0 <= i < |msgs| ==> msgs[i].role == TurnOf(i)
  }

  /** Whose turn position `i` of a conversation is. */
  function TurnOf(i: nat): Role {
    if i % 2 == 0 then User else Assistant
  }

  /** A question is waiting for its answer. */
  predicate Pending(msgs: seq<Message>) {
    |msgs| % 2 == 1 && Conversation(msgs[..|msgs| - 1]) && msgs[|msgs| - 1].role == User
  }

  /** Sending a question leaves a conversation pending, and the reply
      completes it again; a send to completion keeps the alternation. */
  lemma SendKeepsConversation(s: ChatState, reply: ChatReply)
    requires Conversation(s.messages)
    ensures CanSend(s) ==> Pending(BeginSend(s).messages)
    ensures Conversation(Send(s, reply).messages)
  {
    if CanSend(s) {
      BeginLeavesPending(s);
      FinishCompletes(BeginSend(s), reply);
      assert Send(s, reply) == FinishSend(BeginSend(s), reply);
    }
  }

  lemma BeginLeavesPending(s: ChatState)
    requires Conversation(s.messages) && CanSend(s)
    ensures Pending(BeginSend(s).messages)
  {
    AskLeavesPending(s.messages, Text.JsTrim(s.input));
  }

  lemma AskLeavesPending(msgs: seq<Message>, question: string)
    requires Conversation(msgs)
    ensures Pending(msgs + [Message(User, question)])
  {
    var b := msgs + [Message(User, question)];
    assert b[..|b| - 1] == msgs;
  }

  /** Appending the reply to a pending question completes the conversation. */
  lemma FinishCompletes(s: ChatState, reply: ChatReply)
    requires Pending(s.messages)
    ensures Conversation(FinishSend(s, reply).messages)
  {
    var m := s.messages;
    var r := FinishSend(s, reply).messages;
    forall i | 0 <= i < |r| ensures r[i].role == TurnOf(i) {
      if i < |m| - 1 {
        assert r[i] == m[..|m| - 1][i];
      }
    }
  }

  /** The chat window's state, updated in place by its handlers. */
  class ChatSession {
    var messages: seq<Message>
    var input: string
    var isLoading: bool

    function State(): ChatState
      reads this
    {
      ChatState(messages, input, isLoading)
    }

    /** The history starts empty (or as saved) with nothing pending. */
    constructor (saved: seq<Message>)
      ensures messages == saved && input == "" && !isLoading
    {
      messages := saved;
      input := "";
      isLoading := false;
    }

    /** `handleSend`, with the outcome of the request given. */
    method HandleSend(reply: ChatReply)
      modifies this
      ensures State() == Send(old(State()), reply)
    {
      if Text.JsTrim(input) == "" || isLoading {
        return;
      }
      var userMessage := Text.JsTrim(input);
      input := "";
      messages := messages + [Message(User, userMessage)];
      isLoading := true;
      match reply {
        case Answered(answer) =>
          messages := messages + [Message(Assistant, answer)];
        case RequestFailed =>
          messages := messages + [Message(Assistant, APOLOGY)];
      }
      isLoading := false;
    }

    /** `clearHistory`, with the user's answer to the confirmation given. */
    method ClearHistory(confirmed: bool)
      modifies this
      ensures messages == (if confirmed then [] else old(messages))
      ensures input == old(input) && isLoading == old(isLoading)
    {
      if confirmed {
        messages := [];
      }
    }
  }
}
