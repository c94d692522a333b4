/** The loop of `automatedLiteratureReviewRunner` that turns the papers of one search
    response into new sheet rows: it skips papers without a title and papers whose
    title is already in the sheet, lays each remaining paper out along the column map,
    and stops once the per-run limit is reached. */
module RowBuilder {
  import opened Wrappers
  import opened Text
  import opened Seqs
  import opened HeaderMap
  import opened Numbers

  /** An entry of `paper.authors`; a `null` entry is an author without a name. */
  datatype Author = Author(name: Option<string>)

  /** `paper.openAccessPdf`. */
  datatype Pdf = Pdf(url: Option<string>)

  /** One item of `payload.data`, with the fields the loop reads; a missing or
      non-array `authors` field is the empty sequence. */
  datatype Paper = Paper(
    paperId: Option<string>,
    title: Option<string>,
    publicationDate: Option<string>,
    abstractText: Option<string>,
    openAccessPdf: Option<Pdf>,
    url: Option<string>,
    authors: seq<Author>)

  /** A value written into a row: a string, or `Undefined`, which stands for the `null` or
      `undefined` that a null or missing abstract passes through. */
  datatype Cell = Str(text: string) | Undefined

  /** `value || ""` for a string that may be missing. */
  function OrEmpty(o: Option<string>): string
  {
    if o.Some? then o.value else ""
  }

  /** `(paper.title || "").toString().trim()`. */
  function TitleOf(p: Paper): string
  {
    Trim(OrEmpty(p.title))
  }

  /** `paper.publicationDate || ""`. */
  function DateOf(p: Paper): string
  {
    OrEmpty(p.publicationDate)
  }

  /** `paper.openAccessPdf && paper.openAccessPdf.url ? paper.openAccessPdf.url : ""`. */
  function PdfUrlOf(p: Paper): string
  {
    if p.openAccessPdf.Some? then OrEmpty(p.openAccessPdf.value.url) else ""
  }

  /** `(pdfUrl || canonicalUrl || "").toString().trim()`: the first non-empty of the
      two, trimmed only after it has been chosen. */
  function LinkOf(p: Paper): string
  {
    var pdf := PdfUrlOf(p);
    Trim(if pdf != "" then pdf else OrEmpty(p.url))
  }

  /** `a && a.name ? a.name : ""` for every author. */
  function AuthorNames(authors: seq<Author>): seq<string>
  {
    seq(|authors|, i requires 0 <= i < |authors| => OrEmpty(authors[i].name))
  }

  predicate IsNonEmpty(s: string)
  {
    s != ""
  }

  /** `.filter(Boolean)` on the names. */
  function NamedAuthors(p: Paper): seq<string>
  {
    Filter(AuthorNames(p.authors), IsNonEmpty)
  }

  /** `paper.authors.map(...).filter(Boolean).join(", ")`, or `""` without authors. */
  function AuthorsOf(p: Paper): string
  {
    Join(NamedAuthors(p), ", ")
  }

  /** `paper.abstract`, passed through as it is. */
  function AbstractOf(p: Paper): Cell
  {
    if p.abstractText.Some? then Str(p.abstractText.value) else Undefined
  }

  // The row a paper becomes.

  /** `Math.max(...Object.values(columnMap))`; an empty map gives no cells at all,
      which is what `-Infinity` does as a loop bound. */
  ghost function Width(m: ColumnMap): (w: nat)
    ensures forall k :: k in m ==> m[k] <= w
    ensures m == map[] ==> w == 0
    ensures m != map[] ==> exists k :: k in m && m[k] == w
    decreases |m|
  {
    if m == map[] then 0
    else
      var k :| k in m;
      var rest := Width(m - {k});
      assert forall j :: j in m && j != k ==> j in m - {k};
      if m[k] >= rest then m[k]
      else
        assert m - {k} != map[];
        rest
  }

  /** A bound above every column of `m` that is one of its columns (or 0 for an empty
      map) is `Width(m)`. */
  lemma WidthIsMax(m: ColumnMap, w: nat)
    requires forall k :: k in m ==> m[k] <= w
    requires w == 0 || exists k :: k in m && m[k] == w
    ensures w == Width(m)
  {
    if m != map[] {
      var k :| k in m && m[k] == Width(m);
      assert m[k] <= w;
      var j :| j in m && m[j] == w;
    }
  }

  /** Line 173, as a loop over the map's columns. */
  method MaxColumn(columnMap: ColumnMap) returns (maxCol: nat)
    ensures maxCol == Width(columnMap)
  {
    maxCol := 0;
    var pending := columnMap.Keys;
    while pending != {}
      invariant pending <= columnMap.Keys
      invariant forall k :: k in columnMap && k !in pending ==> columnMap[k] <= maxCol
      invariant maxCol == 0 || exists k :: k in columnMap && k !in pending && columnMap[k] == maxCol
      decreases |pending|
    {
      var k :| k in pending;
      if columnMap[k] > maxCol {
        maxCol := columnMap[k];
      }
      pending := pending - {k};
    }
    WidthIsMax(columnMap, maxCol);
  }

  /** The field names the rows carry, in the order lines 177-181 write them. */
  const FIELDS: seq<string> := ["date", "title", "authors", "link", "abstract"]

  /** The value written for field `f`. */
  function FieldCell(p: Paper, f: string): Cell
  {
    if f == "date" then Str(DateOf(p))
    else if f == "title" then Str(TitleOf(p))
    else if f == "authors" then Str(AuthorsOf(p))
    else if f == "link" then Str(LinkOf(p))
    else AbstractOf(p)
  }

  /** What column `col` holds once the fields `fs` have been written in order: the
      value of the last of them mapped to `col`, and `""` when none is. */
  function LastWrite(m: ColumnMap, p: Paper, fs: seq<string>, col: int): Cell
  {
    if fs == [] then Str("")
    else
      var f := fs[|fs| - 1];
      if f in m && m[f] == col then FieldCell(p, f) else LastWrite(m, p, fs[..|fs| - 1], col)
  }

  /** The row built for `p`: `Width(m)` cells, each holding the last field written at
      its column. */
  ghost function RowFor(m: ColumnMap, p: Paper): seq<Cell>
  {
    seq(Width(m), i => LastWrite(m, p, FIELDS, i + 1))
  }

  /** A row of `|row|` cells after the first `k` of the writes. */
  ghost predicate WrittenUpTo(row: seq<Cell>, m: ColumnMap, p: Paper, k: nat)
    requires k <= |FIELDS|
  {
    forall i :: 0 <= i < |row| ==> row[i] == LastWrite(m, p, FIELDS[..k], i + 1)
  }

  /** `if (columnMap.f) rowValues[columnMap.f - 1] = value` for the k-th field. */
  method WriteField(row: seq<Cell>, columnMap: ColumnMap, paper: Paper, k: nat) returns (written: seq<Cell>)
    requires k < |FIELDS| && WrittenUpTo(row, columnMap, paper, k)
    requires FIELDS[k] in columnMap ==> columnMap[FIELDS[k]] <= |row|
    ensures |written| == |row|
    ensures WrittenUpTo(written, columnMap, paper, k + 1)
  {
    var f := FIELDS[k];
    assert FIELDS[..k + 1][..k] == FIELDS[..k];
    written := row;
    if f in columnMap {
      written := row[columnMap[f] - 1 := FieldCell(paper, f)];
    }
  }

  /** `maxCol` copies of `""` (line 175). */
  method BlankRow(width: nat) returns (row: seq<Cell>)
    ensures |row| == width && forall i :: 0 <= i < width ==> row[i] == Str("")
  {
    row := [];
    for c := 1 to width + 1
      invariant |row| == c - 1 && forall i :: 0 <= i < |row| ==> row[i] == Str("")
    {
      row := row + [Str("")];
    }
  }

  /** Lines 171-181: `maxCol` empty cells, then the five fields written at their
      columns, in the order date, title, authors, link, abstract. */
  method BuildRow(columnMap: ColumnMap, paper: Paper) returns (row: seq<Cell>)
    ensures row == RowFor(columnMap, paper)
  {
    var maxCol := MaxColumn(columnMap);
    row := BlankRow(maxCol);
    assert FIELDS[..0] == [];
    row := WriteField(row, columnMap, paper, 0);
    row := WriteField(row, columnMap, paper, 1);
    row := WriteField(row, columnMap, paper, 2);
    row := WriteField(row, columnMap, paper, 3);
    row := WriteField(row, columnMap, paper, 4);
    assert FIELDS[..5] == FIELDS;
  }

  // Which papers become rows.

  /** Line 160 and line 165: a paper is kept when its trimmed title is non-empty and
      not among the titles already in the sheet. */
  predicate Keep(existing: set<string>, p: Paper)
  {
    TitleOf(p) != "" && TitleOf(p) !in existing
  }

  function KeepFn(existing: set<string>): Paper -> bool
  {
    p => Keep(existing, p)
  }

  function Kept(papers: seq<Paper>, existing: set<string>): seq<Paper>
  {
    Filter(papers, KeepFn(existing))
  }

  /** How many rows one run may add: `params.limit`, but the check comes after the
      push, so a limit below 1 still lets one row through. */
  function Cap(limit: int): nat
  {
    AtLeastOne(limit)
  }

  function Min(a: nat, b: nat): nat
  {
    if a <= b then a else b
  }

  ghost function Rows(m: ColumnMap, ps: seq<Paper>): seq<seq<Cell>>
  {
    seq(|ps|, i requires 0 <= i < |ps| => RowFor(m, ps[i]))
  }

  /** The rows one run appends: one per kept paper, in input order, up to the cap. */
  ghost function NewRows(papers: seq<Paper>, m: ColumnMap, existing: set<string>, limit: int): seq<seq<Cell>>
  {
    var kept := Kept(papers, existing);
    Rows(m, kept[..Min(|kept|, Cap(limit))])
  }

  lemma KeptSnoc(papers: seq<Paper>, i: nat, existing: set<string>)
    requires i < |papers|
    ensures Kept(papers[..i + 1], existing)
            == Kept(papers[..i], existing) + (if Keep(existing, papers[i]) then [papers[i]] else [])
  {
    assert papers[..i + 1] == papers[..i] + [papers[i]];
    FilterAppend(papers[..i], [papers[i]], KeepFn(existing));
    assert [papers[i]][1..] == [];
  }

  lemma KeptSplit(papers: seq<Paper>, i: nat, existing: set<string>)
    requires i <= |papers|
    ensures Kept(papers, existing) == Kept(papers[..i], existing) + Kept(papers[i..], existing)
  {
    assert papers == papers[..i] + papers[i..];
    FilterAppend(papers[..i], papers[i..], KeepFn(existing));
  }

  lemma RowsSnoc(m: ColumnMap, ps: seq<Paper>, p: Paper)
    ensures Rows(m, ps + [p]) == Rows(m, ps) + [RowFor(m, p)]
  {
  }

  /** Once `Cap(limit)` papers among the first `n` are kept, the run's rows are theirs. */
  lemma StopsAtCap(papers: seq<Paper>, n: nat, m: ColumnMap, existing: set<string>, limit: int)
    requires n <= |papers| && |Kept(papers[..n], existing)| == Cap(limit)
    ensures NewRows(papers, m, existing, limit) == Rows(m, Kept(papers[..n], existing))
  {
    KeptSplit(papers, n, existing);
    assert Kept(papers, existing)[..Cap(limit)] == Kept(papers[..n], existing);
  }

  /** With fewer than `Cap(limit)` kept papers in all, the run's rows are all of them. */
  lemma BelowCap(papers: seq<Paper>, m: ColumnMap, existing: set<string>, limit: int)
    requires |Kept(papers, existing)| < Cap(limit)
    ensures NewRows(papers, m, existing, limit) == Rows(m, Kept(papers, existing))
  {
    assert Kept(papers, existing)[..|Kept(papers, existing)|] == Kept(papers, existing);
  }

  /** Lines 139-190: the loop over `payload.data`, with its `continue`s and its
      `break` at the limit. */
  method BuildRows(papers: seq<Paper>, columnMap: ColumnMap, existing: set<string>, limit: int)
    returns (rows: seq<seq<Cell>>)
    ensures rows == NewRows(papers, columnMap, existing, limit)
  {
    rows := [];
    var i := 0;
    while i < |papers|
      invariant 0 <= i <= |papers|
      invariant rows == Rows(columnMap, Kept(papers[..i], existing))
      invariant |rows| < Cap(limit)
    {
      var paper := papers[i];
      KeptSnoc(papers, i, existing);
      var title := TitleOf(paper);
      if title == "" || title in existing {
        i := i + 1;
        continue;
      }
      var row := BuildRow(columnMap, paper);
      RowsSnoc(columnMap, Kept(papers[..i], existing), paper);
      rows := rows + [row];
      if |rows| >= limit {
        StopsAtCap(papers, i + 1, columnMap, existing, limit);
        break;
      }
      i := i + 1;
    }
    if i == |papers| {
      assert papers[..i] == papers;
      BelowCap(papers, columnMap, existing, limit);
    }
  }

  // What the source promises about the rows.

  /** Lines 139-165: the kept papers are exactly those with a non-empty trimmed title
      not already in the sheet, taken in input order. */
  lemma KeptPapers(papers: seq<Paper>, existing: set<string>)
    ensures var kept, ix := Kept(papers, existing), KeptIndices(papers, KeepFn(existing));
      && |kept| == |ix|
      && StrictlyIncreasing(ix)
      && (forall k :: 0 <= k < |ix| ==> ix[k] < |papers| && kept[k] == papers[ix[k]])
      && (forall i :: 0 <= i < |papers| ==>
            (i in ix <==> TitleOf(papers[i]) != "" && TitleOf(papers[i]) !in existing))
  {
    FilterIsOrderedSelection(papers, KeepFn(existing));
  }

  /** Lines 183-186: a run adds as many rows as there are kept papers, but never more
      than the limit; with a limit below 1 it still adds one when there is one. */
  lemma NewRowsCount(papers: seq<Paper>, m: ColumnMap, existing: set<string>, limit: int)
    ensures var rows, kept := NewRows(papers, m, existing, limit), Kept(papers, existing);
      && |rows| == Min(|kept|, Cap(limit))
      && |rows| <= |papers|
      && (limit >= 1 ==> |rows| <= limit)
      && (limit < 1 && kept != [] ==> |rows| == 1)
      && (forall k :: 0 <= k < |rows| ==> rows[k] == RowFor(m, kept[k]))
  {
  }

  /** `existingSet` is never extended inside the loop, so two new papers with the same
      title in one response both become rows. */
  lemma SameNewTitleTwice(p: Paper, q: Paper, m: ColumnMap, existing: set<string>, limit: int)
    requires TitleOf(p) == TitleOf(q) && Keep(existing, p)
    requires limit >= 2
    ensures NewRows([p, q], m, existing, limit) == [RowFor(m, p), RowFor(m, q)]
  {
    var kf := KeepFn(existing);
    assert kf(p) && kf(q);
    assert [p, q][1..] == [q];
    assert [q][1..] == [];
    assert Filter([q], kf) == [q] + Filter([], kf);
    assert Kept([p, q], existing) == [p, q];
  }

  /** Line 141 and line 165: whitespace around a title does not hide a duplicate. */
  lemma PaddedTitleIsDuplicate(p: Paper, w1: string, t: string, w2: string, existing: set<string>)
    requires AllWhitespace(w1) && AllWhitespace(w2)
    requires p.title == Some(w1 + t + w2)
    requires Trim(t) in existing
    ensures TitleOf(p) == Trim(t)
    ensures !Keep(existing, p)
  {
    TrimIgnoresPadding(w1, t, w2);
  }

  /** The title written into a row never starts or ends with whitespace, and it is
      empty exactly when the title is missing or blank. */
  lemma TitleTrimmed(p: Paper)
    ensures var t := TitleOf(p);
      && (t != "" ==> !IsWhitespace(t[0]) && !IsWhitespace(t[|t| - 1]))
      && (t == "" <==> AllWhitespace(OrEmpty(p.title)))
  {
    TrimmedEnds(OrEmpty(p.title));
    TrimIsInnerSlice(OrEmpty(p.title));
  }

  /** No two of the five fields share a column. */
  predicate FieldsDistinct(m: ColumnMap)
  {
    forall f, g :: f in FIELDS && g in FIELDS && f in m && g in m && m[f] == m[g] ==> f == g
  }

  lemma {:induction false} LastWriteOwn(m: ColumnMap, p: Paper, fs: seq<string>, f: string)
    requires f in fs && f in m
    requires forall g :: g in fs && g in m && m[g] == m[f] ==> g == f
    ensures LastWrite(m, p, fs, m[f]) == FieldCell(p, f)
  {
    var last := fs[|fs| - 1];
    if last != f {
      assert f in fs[..|fs| - 1] by {
        var j :| 0 <= j < |fs| && fs[j] == f;
        assert j < |fs| - 1;
        assert fs[..|fs| - 1][j] == f;
      }
      LastWriteOwn(m, p, fs[..|fs| - 1], f);
    }
  }

  lemma {:induction false} LastWriteNone(m: ColumnMap, p: Paper, fs: seq<string>, col: int)
    requires forall g :: g in fs && g in m ==> m[g] != col
    ensures LastWrite(m, p, fs, col) == Str("")
  {
    if fs != [] {
      assert fs[|fs| - 1] in fs;
      LastWriteNone(m, p, fs[..|fs| - 1], col);
    }
  }

  /** Lines 171-181: a row is as wide as the largest column of the map; each mapped
      field sits at its column minus one, and every other cell is `""`. */
  lemma RowShape(m: ColumnMap, p: Paper)
    requires FieldsDistinct(m)
    ensures var row := RowFor(m, p);
      && |row| == Width(m)
      && (forall f :: f in FIELDS && f in m ==> m[f] - 1 < |row| && row[m[f] - 1] == FieldCell(p, f))
      && (forall i :: 0 <= i < |row| && (forall f :: f in FIELDS && f in m ==> m[f] != i + 1)
            ==> row[i] == Str(""))
  {
    forall f | f in FIELDS && f in m
      ensures m[f] - 1 < Width(m) && RowFor(m, p)[m[f] - 1] == FieldCell(p, f)
    {
      RowCellOwn(m, p, f);
    }
    forall i | 0 <= i < Width(m) && (forall f :: f in FIELDS && f in m ==> m[f] != i + 1)
      ensures RowFor(m, p)[i] == Str("")
    {
      RowCellBlank(m, p, i);
    }
  }

  lemma RowCellOwn(m: ColumnMap, p: Paper, f: string)
    requires FieldsDistinct(m) && f in FIELDS && f in m
    ensures m[f] - 1 < Width(m) && RowFor(m, p)[m[f] - 1] == FieldCell(p, f)
  {
    LastWriteOwn(m, p, FIELDS, f);
  }

  lemma RowCellBlank(m: ColumnMap, p: Paper, i: nat)
    requires i < Width(m) && forall f :: f in FIELDS && f in m ==> m[f] != i + 1
    ensures RowFor(m, p)[i] == Str("")
  {
    LastWriteNone(m, p, FIELDS, i + 1);
  }

  /** The map read from a header row never gives two fields one column. */
  lemma HeaderFieldsDistinct(headers: seq<string>)
    ensures FieldsDistinct(ColumnMapOf(headers))
  {
    var m := ColumnMapOf(headers);
    forall f, g | f in FIELDS && g in FIELDS && f in m && g in m && m[f] == m[g]
      ensures f == g
    {
      ColumnMapInjective(headers, f, g);
    }
  }

  /** Lines 144-149: the link is the trimmed open-access PDF url when that url is
      non-empty, and the trimmed canonical url otherwise; a PDF url of spaces alone
      still wins and leaves the link empty. */
  lemma LinkChoice(p: Paper)
    ensures PdfUrlOf(p) != "" ==> LinkOf(p) == Trim(PdfUrlOf(p))
    ensures PdfUrlOf(p) == "" ==> LinkOf(p) == Trim(OrEmpty(p.url))
    ensures PdfUrlOf(p) != "" && AllWhitespace(PdfUrlOf(p)) ==> LinkOf(p) == ""
    ensures var l := LinkOf(p); l != "" ==> !IsWhitespace(l[0]) && !IsWhitespace(l[|l| - 1])
  {
    var pdf := PdfUrlOf(p);
    TrimIsInnerSlice(if pdf != "" then pdf else OrEmpty(p.url));
    TrimmedEnds(if pdf != "" then pdf else OrEmpty(p.url));
  }

  /** Lines 151-158: the names in the authors cell are exactly the non-empty author
      names, in the order of `paper.authors`. */
  lemma AuthorsSelected(p: Paper)
    ensures var names, all := NamedAuthors(p), AuthorNames(p.authors);
      var ix := KeptIndices(all, IsNonEmpty);
      && |names| == |ix|
      && StrictlyIncreasing(ix)
      && (forall k :: 0 <= k < |ix| ==> ix[k] < |all| && names[k] == all[ix[k]])
      && (forall i :: 0 <= i < |all| ==> (i in ix <==> all[i] != ""))
  {
    FilterIsOrderedSelection(AuthorNames(p.authors), IsNonEmpty);
  }

  /** Each selected name sits, unchanged, at its place in the authors cell. */
  lemma AuthorsPlaced(p: Paper, k: nat)
    requires k < |NamedAuthors(p)|
    ensures var names := NamedAuthors(p);
      var o := PieceOffset(names, ", ", k);
      o + |names[k]| <= |AuthorsOf(p)| && AuthorsOf(p)[o..o + |names[k]|] == names[k]
  {
    JoinPiece(NamedAuthors(p), ", ", k);
  }

  /** The authors cell holds the names and their separators and nothing else: it starts
      with the first name, each name is followed by `", "` and the next name, and it
      ends with the last name. */
  lemma AuthorsTiled(p: Paper)
    requires NamedAuthors(p) != []
    ensures var names := NamedAuthors(p);
      && PieceOffset(names, ", ", 0) == 0
      && (forall k :: 0 <= k < |names| - 1 ==>
            PieceOffset(names, ", ", k + 1) == PieceOffset(names, ", ", k) + |names[k]| + 2)
      && |AuthorsOf(p)| == PieceOffset(names, ", ", |names| - 1) + |names[|names| - 1]|
  {
    var names := NamedAuthors(p);
    JoinLength(names, ", ");
    forall k | 0 <= k < |names| - 1
      ensures PieceOffset(names, ", ", k + 1) == PieceOffset(names, ", ", k) + |names[k]| + 2
    {
      PieceOffsetStep(names, ", ", k);
    }
  }

  /** The authors cell is `""` exactly when no author has a non-empty name. */
  lemma AuthorsEmpty(p: Paper)
    ensures AuthorsOf(p) == "" <==> forall i :: 0 <= i < |p.authors| ==> OrEmpty(p.authors[i].name) == ""
  {
    var all := AuthorNames(p.authors);
    NoNamesIffAllBlank(all);
    JoinEmptyIff(NamedAuthors(p));
    assert |all| == |p.authors|;
    forall i | 0 <= i < |p.authors| ensures all[i] == OrEmpty(p.authors[i].name) {
    }
  }

  lemma NoNamesIffAllBlank(all: seq<string>)
    ensures Filter(all, IsNonEmpty) == [] <==> forall i :: 0 <= i < |all| ==> all[i] == ""
  {
    FilterIsOrderedSelection(all, IsNonEmpty);
    var ix := KeptIndices(all, IsNonEmpty);
    if Filter(all, IsNonEmpty) != [] {
      assert IsNonEmpty(all[ix[0]]);
    } else {
      forall i | 0 <= i < |all| ensures all[i] == "" {
        assert i !in ix;
      }
    }
  }

  lemma JoinEmptyIff(names: seq<string>)
    requires forall i :: 0 <= i < |names| ==> IsNonEmpty(names[i])
    ensures Join(names, ", ") == "" <==> names == []
  {
    if names != [] {
      JoinPiece(names, ", ", 0);
    }
  }

  /** Every name but the first in the authors cell is preceded by `", "`. */
  lemma AuthorsSeparated(p: Paper, k: nat)
    requires 0 < k < |NamedAuthors(p)|
    ensures var o := PieceOffset(NamedAuthors(p), ", ", k);
      2 <= o <= |AuthorsOf(p)| && AuthorsOf(p)[o - 2..o] == ", "
  {
    JoinSeparator(NamedAuthors(p), ", ", k);
  }
}
