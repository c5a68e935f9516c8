/** The statement import: a grid of cells, as the spreadsheet reader hands it over,
    becomes the list of new transactions. The header row is found by its text, the
    rows after it are scanned into groups (a dated row opens one, the rows below it
    continue its description), the scan ends at the first summary row, and each group
    becomes a record unless a stored transaction already has its key. */
module Import {
  import opened Wrappers
  import opened Text
  import opened Numbers
  import opened Dates
  import opened Ledger
  import opened Sequences

  /** A cell of the grid: blank, text, a number, or a date object (its day and the text
      `String` gives it). `shown` is `String(date)` as JavaScript prints it, starting
      with the weekday name; its form is not constrained here. */
  datatype Cell = Empty | Str(text: string) | Num(value: Decimal) | DateValue(day: int, shown: string)

  type Row = seq<Cell>

  /** JavaScript truthiness of a cell value. */
  predicate Truthy(c: Cell) {
    match c
    case Empty => false
    case Str(t) => t != ""
    case Num(v) => v.digits != 0
    case DateValue(_, _) => true
  }

  /** `String(cell)` */
  function CellText(c: Cell): string {
    match c
    case Empty => ""
    case Str(t) => t
    case Num(v) => DecimalText(v)
    case DateValue(_, shown) => shown
  }

  /** `row[k]`; a cell past the end of the row reads as blank. */
  function CellAt(row: Row, k: nat): Cell {
    if k < |row| then row[k] else Empty
  }

  function CellTexts(row: Row): (r: seq<string>)
    ensures |r| == |row|
    ensures forall k {:trigger r[k]} :: 0 <= k < |row| ==> r[k] == CellText(row[k])
  {
    if row == [] then [] else [CellText(row[0])] + CellTexts(row[1..])
  }

  /** `String(row).toLowerCase()`, the same text as `row.join(',').toLowerCase()`. */
  function RowText(row: Row): string {
    Lower(Join(CellTexts(row), ','))
  }

  predicate IsHeaderRow(row: Row) {
    Contains(RowText(row), "data operazione") && Contains(RowText(row), "descrizione")
  }

  /** `rows.findIndex(IsHeaderRow)`; `None` is -1. */
  function FindHeader(rows: seq<Row>): (r: Option<nat>)
    ensures r.Some? ==> r.value < |rows| && IsHeaderRow(rows[r.value])
    ensures r.Some? ==> forall j {:trigger IsHeaderRow(rows[j])} :: 0 <= j < r.value ==> !IsHeaderRow(rows[j])
    ensures r.None? ==> forall j {:trigger IsHeaderRow(rows[j])} :: 0 <= j < |rows| ==> !IsHeaderRow(rows[j])
  {
    if rows == [] then None
    else if IsHeaderRow(rows[0]) then Some(0)
    else
      match FindHeader(rows[1..])
      case None => None
      case Some(k) => Some(k + 1)
  }

  /** `names.findIndex(h => h.includes(needle))`; `None` is -1. */
  function FindColumn(names: seq<string>, needle: string): (r: Option<nat>)
    ensures r.Some? ==> r.value < |names| && Contains(names[r.value], needle)
    ensures r.Some? ==> forall j :: 0 <= j < r.value ==> !Contains(names[j], needle)
    ensures r.None? ==> forall j :: 0 <= j < |names| ==> !Contains(names[j], needle)
  {
    if names == [] then None
    else if Contains(names[0], needle) then Some(0)
    else
      match FindColumn(names[1..], needle)
      case None => None
      case Some(k) => Some(k + 1)
  }

  /** The column map; the income and outcome columns may be missing. */
  datatype Columns = Columns(date: nat, description: nat, income: Option<nat>, outcome: Option<nat>)

  /** The column map of a header row; `None` when the date or the description column
      is missing. */
  function ColumnsOf(header: Row): (r: Option<Columns>)
    ensures r.Some? ==> r.value.date < |header| && r.value.description < |header|
    ensures r.Some? ==> Contains(Lower(CellText(header[r.value.date])), "data operazione")
    ensures r.Some? ==> Contains(Lower(CellText(header[r.value.description])), "descrizione")
  {
    var names := LowerAll(CellTexts(header));
    var date := FindColumn(names, "data operazione");
    var description := FindColumn(names, "descrizione");
    if date.None? || description.None? then None
    else Some(Columns(date.value, description.value,
                      FindColumn(names, "entrate"), FindColumn(names, "uscite")))
  }

  /** The column map exists exactly when both required columns are found, and each
      column is the first lower-cased header cell that contains its name. */
  lemma ColumnsFound(header: Row)
    ensures var names := LowerAll(CellTexts(header));
      (ColumnsOf(header).Some? <==>
         FindColumn(names, "data operazione").Some? && FindColumn(names, "descrizione").Some?)
    ensures var names := LowerAll(CellTexts(header));
      ColumnsOf(header).Some? ==>
        ColumnsOf(header).value == Columns(FindColumn(names, "data operazione").value,
                                           FindColumn(names, "descrizione").value,
                                           FindColumn(names, "entrate"), FindColumn(names, "uscite"))
  {
  }

  /** The column test finds every text the row test found: the header words contain
      no comma, so none of them can straddle two cells of the joined row text. */
  lemma ColumnOfRowText(row: Row, needle: string)
    requires needle != "" && ',' !in needle
    requires Contains(RowText(row), needle)
    ensures FindColumn(LowerAll(CellTexts(row)), needle).Some?
  {
    LowerJoin(CellTexts(row), ',');
    ContainsInJoin(LowerAll(CellTexts(row)), ',', needle);
  }

  /** A header row always has both required columns. */
  lemma HeaderHasColumns(row: Row)
    requires IsHeaderRow(row)
    ensures ColumnsOf(row).Some?
  {
    ColumnOfRowText(row, "data operazione");
    ColumnOfRowText(row, "descrizione");
  }

  /** `row.length === 0 || !row.some(cell => cell)` */
  predicate IsBlankRow(row: Row) {
    forall k :: 0 <= k < |row| ==> !Truthy(row[k])
  }

  /** A summary row: the scan ends there. */
  predicate IsSummaryRow(row: Row) {
    Contains(RowText(row), "totale movimenti") || Contains(RowText(row), "saldo al")
  }

  /** The length of the run of `\w` characters that `s` starts with. */
  function WordRun(s: string): (n: nat)
    ensures n <= |s|
    ensures forall k :: 0 <= k < n ==> IsWordChar(s[k])
    ensures n == |s| || !IsWordChar(s[n])
  {
    if s != [] && IsWordChar(s[0]) then 1 + WordRun(s[1..]) else 0
  }

  /** A match of `/\d{1,2}\s\w+\s\d{4}/` in `s`: `d` digits from `i`, white space,
      word characters up to `j`, white space at `j`, four digits. */
  predicate PatternAt(s: string, i: int, d: int, j: int) {
    && 0 <= i && 1 <= d <= 2 && i + d + 1 < j && j + 5 <= |s|
    && (forall k :: i <= k < i + d ==> IsDigit(s[k]))
    && IsSpace(s[i + d])
    && (forall k :: i + d + 1 <= k < j ==> IsWordChar(s[k]))
    && IsSpace(s[j])
    && (forall k :: j + 1 <= k < j + 5 ==> IsDigit(s[k]))
  }

  /** `s.match(/\d{1,2}\s\w+\s\d{4}/)` is not `null`. */
  ghost predicate DatePattern(s: string) {
    exists i, d, j :: PatternAt(s, i, d, j)
  }

  /** The matcher, position by position: a digit, white space, then the whole run of
      word characters, white space and four digits. */
  predicate MatchAt(s: string, i: nat) {
    && i + 2 <= |s| && IsDigit(s[i]) && IsSpace(s[i + 1])
    && var n := WordRun(s[i + 2..]);
       n >= 1 && i + n + 7 <= |s| && IsSpace(s[i + 2 + n]) && AllDigits(s[i + n + 3..i + n + 7])
  }

  predicate MatchesDate(s: string) {
    exists i | 0 <= i < |s| :: MatchAt(s, i)
  }

  lemma {:induction false} WordRunExact(s: string, m: nat)
    requires m < |s| && !IsWordChar(s[m])
    requires forall k :: 0 <= k < m ==> IsWordChar(s[k])
    ensures WordRun(s) == m
  {
    if m > 0 {
      WordRunExact(s[1..], m - 1);
    }
  }

  lemma SliceDigits(s: string, lo: nat, hi: nat)
    requires lo <= hi <= |s|
    ensures AllDigits(s[lo..hi]) <==> forall k :: lo <= k < hi ==> IsDigit(s[k])
  {
    assert forall k :: lo <= k < hi ==> s[k] == s[lo..hi][k - lo];
  }

  lemma MatchGivesPattern(s: string, i: nat)
    requires i < |s| && MatchAt(s, i)
    ensures PatternAt(s, i, 1, i + 2 + WordRun(s[i + 2..]))
  {
    var n := WordRun(s[i + 2..]);
    var j := i + 2 + n;
    forall k | i + 2 <= k < j ensures IsWordChar(s[k]) {
      assert s[k] == s[i + 2..][k - (i + 2)];
    }
    SliceDigits(s, j + 1, j + 5);
  }

  lemma PatternGivesMatch(s: string, i: int, d: int, j: int)
    requires PatternAt(s, i, d, j)
    ensures MatchAt(s, i + d - 1)
  {
    var a := i + d - 1;
    var t := s[a + 2..];
    forall k | 0 <= k < j - (a + 2) ensures IsWordChar(t[k]) {
      assert t[k] == s[a + 2 + k];
    }
    assert t[j - (a + 2)] == s[j];
    WordRunExact(t, j - (a + 2));
    SliceDigits(s, j + 1, j + 5);
  }

  /** White space is never a word character, so `\w+` before `\s` takes the whole
      run of word characters: the matcher finds a match exactly when the pattern has one. */
  lemma MatchesDateIff(s: string)
    ensures MatchesDate(s) <==> DatePattern(s)
  {
    if MatchesDate(s) {
      var i :| 0 <= i < |s| && MatchAt(s, i);
      MatchGivesPattern(s, i);
    }
    if DatePattern(s) {
      var i, d, j :| PatternAt(s, i, d, j);
      PatternGivesMatch(s, i, d, j);
    }
  }

  /** The date cell of a row that opens a group: truthy, and a date object or text
      that the date pattern matches. */
  predicate StartsTransaction(row: Row, cols: Columns) {
    var c := CellAt(row, cols.date);
    Truthy(c) && (c.DateValue? || MatchesDate(CellText(c)))
  }

  /** `String(row[col] || '').replace(/"/g, '').trim()` for the description column. */
  function DescriptionText(row: Row, cols: Columns): string {
    var c := CellAt(row, cols.description);
    Trim(Without(if Truthy(c) then CellText(c) else "", '"'))
  }

  /** A group being built: the date cell, the description so far, and the income and
      outcome cells of the row that opened it. */
  datatype RawGroup = RawGroup(dateCell: Cell, description: string, income: Cell, outcome: Cell)

  function OptionalCell(row: Row, col: Option<nat>): Cell {
    if col.Some? then CellAt(row, col.value) else Empty
  }

  /** The group a dated row opens. */
  function Opened(row: Row, cols: Columns): RawGroup {
    RawGroup(CellAt(row, cols.date), DescriptionText(row, cols),
             OptionalCell(row, cols.income), OptionalCell(row, cols.outcome))
  }

  /** `' ' + text`, or nothing for an empty text. */
  function Piece(text: string): string {
    if text == "" then "" else " " + text
  }

  /** A continuation row adds `' ' + text` to the open group when its text is not empty. */
  function Continued(current: Option<RawGroup>, row: Row, cols: Columns): (r: Option<RawGroup>)
    ensures r.Some? <==> current.Some?
    ensures r.Some? ==> SameCells(r.value, current.value)
    ensures r.Some? ==> r.value.description == current.value.description + Piece(DescriptionText(row, cols))
  {
    var text := DescriptionText(row, cols);
    if current.Some? && text != "" then
      Some(current.value.(description := current.value.description + " " + text))
    else current
  }

  function Flush(current: Option<RawGroup>): seq<RawGroup> {
    if current.Some? then [current.value] else []
  }

  /** The groups that the scan of `rows` closes, given the open group `current`. */
  function Scan(rows: seq<Row>, cols: Columns, current: Option<RawGroup>): seq<RawGroup>
    decreases |rows|
  {
    if rows == [] then Flush(current)
    else if IsBlankRow(rows[0]) then Scan(rows[1..], cols, current)
    else if IsSummaryRow(rows[0]) then Flush(current)
    else if StartsTransaction(rows[0], cols) then
      Flush(current) + Scan(rows[1..], cols, Some(Opened(rows[0], cols)))
    else Scan(rows[1..], cols, Continued(current, rows[0], cols))
  }

  /** One step of the scan, at position `i`. */
  lemma ScanStep(rows: seq<Row>, i: nat, cols: Columns, current: Option<RawGroup>)
    requires i < |rows|
    ensures Scan(rows[i..], cols, current) ==
      if IsBlankRow(rows[i]) then Scan(rows[i + 1..], cols, current)
      else if IsSummaryRow(rows[i]) then Flush(current)
      else if StartsTransaction(rows[i], cols) then
        Flush(current) + Scan(rows[i + 1..], cols, Some(Opened(rows[i], cols)))
      else Scan(rows[i + 1..], cols, Continued(current, rows[i], cols))
  {
    assert rows[i..][0] == rows[i] && rows[i..][1..] == rows[i + 1..];
  }

  /** The texts that the rows after an opening row add to its description, each after a
      space: the non-empty description texts of the rows up to the next dated row, the
      first summary row or the end, blank rows skipped. */
  function Continuations(rows: seq<Row>, cols: Columns): string
    decreases |rows|
  {
    if rows == [] then ""
    else if IsBlankRow(rows[0]) then Continuations(rows[1..], cols)
    else if IsSummaryRow(rows[0]) || StartsTransaction(rows[0], cols) then ""
    else Piece(DescriptionText(rows[0], cols)) + Continuations(rows[1..], cols)
  }

  /** The description of each group, in order: the text of its dated row followed by
      the texts of the rows that continue it. */
  function GroupTexts(rows: seq<Row>, cols: Columns): seq<string>
    decreases |rows|
  {
    if rows == [] then []
    else if IsBlankRow(rows[0]) then GroupTexts(rows[1..], cols)
    else if IsSummaryRow(rows[0]) then []
    else if StartsTransaction(rows[0], cols) then
      [DescriptionText(rows[0], cols) + Continuations(rows[1..], cols)] + GroupTexts(rows[1..], cols)
    else GroupTexts(rows[1..], cols)
  }

  function Descriptions(gs: seq<RawGroup>): (r: seq<string>)
    ensures |r| == |gs|
    ensures forall k {:trigger r[k]} :: 0 <= k < |gs| ==> r[k] == gs[k].description
  {
    seq(|gs|, k requires 0 <= k < |gs| => gs[k].description)
  }

  lemma DescriptionsAppend(a: seq<RawGroup>, b: seq<RawGroup>)
    ensures Descriptions(a + b) == Descriptions(a) + Descriptions(b)
  {
    assert forall k :: 0 <= k < |a| + |b| ==> Descriptions(a + b)[k] == (Descriptions(a) + Descriptions(b))[k];
  }

  /** The description the open group leaves the scan of `rows` with. */
  function OpenDescription(current: Option<RawGroup>, rows: seq<Row>, cols: Columns): seq<string> {
    if current.Some? then [current.value.description + Continuations(rows, cols)] else []
  }

  /** The open group comes out with the continuations of the rows ahead added to its
      description, and every later group with the description of its dated row and
      the rows that continue it. */
  predicate Described(rows: seq<Row>, cols: Columns, current: Option<RawGroup>) {
    Descriptions(Scan(rows, cols, current)) == OpenDescription(current, rows, cols) + GroupTexts(rows, cols)
  }

  lemma {:induction false} ScanDescriptions(rows: seq<Row>, cols: Columns, current: Option<RawGroup>)
    ensures Described(rows, cols, current)
    decreases |rows|
  {
    if rows == [] || (!IsBlankRow(rows[0]) && IsSummaryRow(rows[0])) {
      DescribedAtEnd(rows, cols, current);
    } else if IsBlankRow(rows[0]) {
      ScanDescriptions(rows[1..], cols, current);
      DescribedAfterBlank(rows, cols, current);
    } else if StartsTransaction(rows[0], cols) {
      ScanDescriptions(rows[1..], cols, Some(Opened(rows[0], cols)));
      DescribedAfterStart(rows, cols, current);
    } else {
      ScanDescriptions(rows[1..], cols, Continued(current, rows[0], cols));
      DescribedAfterOther(rows, cols, current);
    }
  }

  lemma DescribedAtEnd(rows: seq<Row>, cols: Columns, current: Option<RawGroup>)
    requires rows == [] || (!IsBlankRow(rows[0]) && IsSummaryRow(rows[0]))
    ensures Described(rows, cols, current)
  {
    assert Scan(rows, cols, current) == Flush(current);
    assert Continuations(rows, cols) == "" && GroupTexts(rows, cols) == [];
    if current.Some? {
      assert current.value.description + "" == current.value.description;
    }
  }

  lemma DescribedAfterBlank(rows: seq<Row>, cols: Columns, current: Option<RawGroup>)
    requires rows != [] && IsBlankRow(rows[0])
    requires Described(rows[1..], cols, current)
    ensures Described(rows, cols, current)
  {
    assert Scan(rows, cols, current) == Scan(rows[1..], cols, current);
    assert Continuations(rows, cols) == Continuations(rows[1..], cols);
    assert GroupTexts(rows, cols) == GroupTexts(rows[1..], cols);
  }

  lemma DescribedAfterStart(rows: seq<Row>, cols: Columns, current: Option<RawGroup>)
    requires rows != [] && !IsBlankRow(rows[0]) && !IsSummaryRow(rows[0])
    requires StartsTransaction(rows[0], cols)
    requires Described(rows[1..], cols, Some(Opened(rows[0], cols)))
    ensures Described(rows, cols, current)
  {
    var group := Opened(rows[0], cols);
    var rest := Scan(rows[1..], cols, Some(group));
    OpensGroup(rows, cols, current);
    DescriptionsAppend(Flush(current), rest);
    assert Continuations(rows, cols) == "";
    assert GroupTexts(rows, cols)
      == [DescriptionText(rows[0], cols) + Continuations(rows[1..], cols)] + GroupTexts(rows[1..], cols);
    if current.Some? {
      assert current.value.description + "" == current.value.description;
    }
    assert Descriptions(Flush(current)) == OpenDescription(current, rows, cols);
  }

  lemma DescribedAfterOther(rows: seq<Row>, cols: Columns, current: Option<RawGroup>)
    requires rows != [] && !IsBlankRow(rows[0]) && !IsSummaryRow(rows[0])
    requires !StartsTransaction(rows[0], cols)
    requires Described(rows[1..], cols, Continued(current, rows[0], cols))
    ensures Described(rows, cols, current)
  {
    var next := Continued(current, rows[0], cols);
    OtherRowUnfolds(rows, cols, current);
    OtherRowDescription(rows, cols, current);
    assert Descriptions(Scan(rows, cols, current)) == Descriptions(Scan(rows[1..], cols, next));
  }

  lemma OtherRowUnfolds(rows: seq<Row>, cols: Columns, current: Option<RawGroup>)
    requires rows != [] && !IsBlankRow(rows[0]) && !IsSummaryRow(rows[0])
    requires !StartsTransaction(rows[0], cols)
    ensures Scan(rows, cols, current) == Scan(rows[1..], cols, Continued(current, rows[0], cols))
    ensures GroupTexts(rows, cols) == GroupTexts(rows[1..], cols)
    ensures Continuations(rows, cols) == Piece(DescriptionText(rows[0], cols)) + Continuations(rows[1..], cols)
  {
  }

  /** The text a continuation row adds to the open group is the first of the texts it
      has ahead. */
  lemma OtherRowDescription(rows: seq<Row>, cols: Columns, current: Option<RawGroup>)
    requires rows != [] && !IsBlankRow(rows[0]) && !IsSummaryRow(rows[0])
    requires !StartsTransaction(rows[0], cols)
    ensures OpenDescription(Continued(current, rows[0], cols), rows[1..], cols) == OpenDescription(current, rows, cols)
  {
    OtherRowUnfolds(rows, cols, current);
    ExtendedFirst(current, Continued(current, rows[0], cols), Piece(DescriptionText(rows[0], cols)),
                  Continuations(rows[1..], cols), Continuations(rows, cols));
  }

  lemma ExtendedFirst(current: Option<RawGroup>, next: Option<RawGroup>, p: string, c: string, whole: string)
    requires next.Some? <==> current.Some?
    requires next.Some? ==> next.value.description == current.value.description + p
    requires whole == p + c
    ensures (if next.Some? then [next.value.description + c] else [])
         == (if current.Some? then [current.value.description + whole] else [])
  {
    if current.Some? {
      var d := current.value.description;
      assert (d + p) + c == d + (p + c);
    }
  }

  /** The rows that open a group: the dated, non-blank rows before the first summary row. */
  function StartRows(rows: seq<Row>, cols: Columns): seq<Row>
    decreases |rows|
  {
    if rows == [] then []
    else if IsBlankRow(rows[0]) then StartRows(rows[1..], cols)
    else if IsSummaryRow(rows[0]) then []
    else if StartsTransaction(rows[0], cols) then [rows[0]] + StartRows(rows[1..], cols)
    else StartRows(rows[1..], cols)
  }

  /** The cells a group keeps from the row that opened it. */
  predicate OpenedBy(g: RawGroup, row: Row, cols: Columns) {
    && g.dateCell == CellAt(row, cols.date)
    && g.income == OptionalCell(row, cols.income)
    && g.outcome == OptionalCell(row, cols.outcome)
  }

  /** Two groups with the same date, income and outcome cells. */
  predicate SameCells(g: RawGroup, h: RawGroup) {
    g.dateCell == h.dateCell && g.income == h.income && g.outcome == h.outcome
  }

  /** One group per opening row, plus the open group. */
  lemma {:induction false} ScanCount(rows: seq<Row>, cols: Columns, current: Option<RawGroup>)
    ensures |Scan(rows, cols, current)| == (if current.Some? then 1 else 0) + |StartRows(rows, cols)|
    decreases |rows|
  {
    if rows == [] {
    } else if IsBlankRow(rows[0]) {
      ScanCount(rows[1..], cols, current);
    } else if IsSummaryRow(rows[0]) {
    } else if StartsTransaction(rows[0], cols) {
      ScanCount(rows[1..], cols, Some(Opened(rows[0], cols)));
    } else {
      ScanCount(rows[1..], cols, Continued(current, rows[0], cols));
    }
  }

  /** The open group comes out first, with its cells as they were. */
  lemma {:induction false} ScanFirst(rows: seq<Row>, cols: Columns, current: Option<RawGroup>)
    requires current.Some?
    ensures |Scan(rows, cols, current)| >= 1
    ensures SameCells(Scan(rows, cols, current)[0], current.value)
    decreases |rows|
  {
    if rows == [] {
    } else if IsBlankRow(rows[0]) {
      ScanFirst(rows[1..], cols, current);
    } else if IsSummaryRow(rows[0]) {
    } else if StartsTransaction(rows[0], cols) {
    } else {
      ScanFirst(rows[1..], cols, Continued(current, rows[0], cols));
    }
  }

  /** After the open group, the k-th group comes from the k-th opening row. */
  predicate GroupsFollow(rows: seq<Row>, cols: Columns, current: Option<RawGroup>) {
    GroupsMatch(Scan(rows, cols, current), if current.Some? then 1 else 0, StartRows(rows, cols), cols)
  }

  /** The groups of `gs` after the first `o` are opened, in order, by the rows of `starts`. */
  predicate GroupsMatch(gs: seq<RawGroup>, o: nat, starts: seq<Row>, cols: Columns) {
    o + |starts| <= |gs| && forall k :: 0 <= k < |starts| ==> OpenedBy(gs[o + k], starts[k], cols)
  }

  lemma {:induction false} ScanOpened(rows: seq<Row>, cols: Columns, current: Option<RawGroup>)
    ensures GroupsFollow(rows, cols, current)
    decreases |rows|
  {
    ScanCount(rows, cols, current);
    if rows == [] {
      assert GroupsFollow(rows, cols, current);
    } else if IsBlankRow(rows[0]) {
      ScanOpened(rows[1..], cols, current);
      SkippedRow(rows, cols, current, current);
    } else if IsSummaryRow(rows[0]) {
      assert GroupsFollow(rows, cols, current);
    } else if StartsTransaction(rows[0], cols) {
      var next := Some(Opened(rows[0], cols));
      ScanOpened(rows[1..], cols, next);
      ScanFirst(rows[1..], cols, next);
      OpeningRow(rows, cols, current);
    } else {
      var next := Continued(current, rows[0], cols);
      ScanOpened(rows[1..], cols, next);
      SkippedRow(rows, cols, current, next);
    }
  }

  /** A dated row closes the open group and opens the group of the next position. */
  lemma OpeningRow(rows: seq<Row>, cols: Columns, current: Option<RawGroup>)
    requires rows != [] && !IsBlankRow(rows[0]) && !IsSummaryRow(rows[0])
    requires StartsTransaction(rows[0], cols)
    requires GroupsFollow(rows[1..], cols, Some(Opened(rows[0], cols)))
    requires var rest := Scan(rows[1..], cols, Some(Opened(rows[0], cols)));
      |rest| >= 1 && SameCells(rest[0], Opened(rows[0], cols))
    ensures GroupsFollow(rows, cols, current)
  {
    OpensGroup(rows, cols, current);
    var rest := Scan(rows[1..], cols, Some(Opened(rows[0], cols)));
    var later := StartRows(rows[1..], cols);
    DropPrefix(Flush(current), rest);
    ShiftOpened(Scan(rows, cols, current), |Flush(current)|, rest, rows[0], later, cols);
  }

  lemma OpensGroup(rows: seq<Row>, cols: Columns, current: Option<RawGroup>)
    requires rows != [] && !IsBlankRow(rows[0]) && !IsSummaryRow(rows[0])
    requires StartsTransaction(rows[0], cols)
    ensures Scan(rows, cols, current) == Flush(current) + Scan(rows[1..], cols, Some(Opened(rows[0], cols)))
    ensures StartRows(rows, cols) == [rows[0]] + StartRows(rows[1..], cols)
  {
  }

  lemma DropPrefix(a: seq<RawGroup>, b: seq<RawGroup>)
    ensures (a + b)[|a|..] == b
  {
  }

  /** A row that opens no group leaves the opening rows and the groups as the scan of
      the rows after it gives them. */
  lemma SkippedRow(rows: seq<Row>, cols: Columns, current: Option<RawGroup>, next: Option<RawGroup>)
    requires rows != [] && !(!IsBlankRow(rows[0]) && IsSummaryRow(rows[0]))
    requires !IsBlankRow(rows[0]) ==> !StartsTransaction(rows[0], cols) && next == Continued(current, rows[0], cols)
    requires IsBlankRow(rows[0]) ==> next == current
    requires next.Some? <==> current.Some?
    requires GroupsFollow(rows[1..], cols, next)
    ensures GroupsFollow(rows, cols, current)
  {
    assert Scan(rows, cols, current) == Scan(rows[1..], cols, next);
    assert StartRows(rows, cols) == StartRows(rows[1..], cols);
  }

  /** The groups after the first `o` are the groups of the opening rows `[row] + later`. */
  lemma ShiftOpened(gs: seq<RawGroup>, o: nat, rest: seq<RawGroup>, row: Row, later: seq<Row>, cols: Columns)
    requires o <= |gs| && gs[o..] == rest && 1 + |later| <= |rest|
    requires OpenedBy(rest[0], row, cols)
    requires forall k :: 0 <= k < |later| ==> OpenedBy(rest[1 + k], later[k], cols)
    ensures forall k :: 0 <= k < |[row] + later| ==> OpenedBy(gs[o + k], ([row] + later)[k], cols)
  {
    forall k | 0 <= k < |[row] + later|
      ensures OpenedBy(gs[o + k], ([row] + later)[k], cols)
    {
      assert gs[o + k] == rest[k];
      if k > 0 {
        assert ([row] + later)[k] == later[k - 1];
        assert rest[k] == rest[1 + (k - 1)];
      }
    }
  }

  /** Nothing after the summary row takes part: the scan ends there. */
  lemma {:induction false} ScanStops(before: seq<Row>, stop: Row, after: seq<Row>, cols: Columns, current: Option<RawGroup>)
    requires IsSummaryRow(stop) && !IsBlankRow(stop)
    ensures Scan(before + [stop] + after, cols, current) == Scan(before + [stop], cols, current)
    decreases |before|
  {
    var rows := before + [stop] + after;
    var short := before + [stop];
    if before == [] {
      assert rows[0] == stop && short[0] == stop;
    } else {
      assert rows[0] == before[0] && short[0] == before[0];
      assert rows[1..] == before[1..] + [stop] + after;
      assert short[1..] == before[1..] + [stop];
      var next := if StartsTransaction(before[0], cols) then Some(Opened(before[0], cols))
                  else if IsBlankRow(before[0]) then current
                  else Continued(current, before[0], cols);
      ScanStops(before[1..], stop, after, cols, next);
    }
  }

  /** `parseFloat(String(x).replace(',', '.')) || 0` for the income or outcome cell. */
  function CellAmount(c: Cell): Decimal {
    AmountFromText(CellText(c))
  }

  /** `-Math.abs(x)` */
  function NegatedMagnitude(d: Decimal): (r: Decimal)
    ensures r.digits <= 0 && Abs(r.digits) == Abs(d.digits) && r.scale == d.scale
  {
    Decimal(-(Abs(d.digits) as int), d.scale)
  }

  /** The signed amount: the income if it is not zero, otherwise minus the magnitude of
      the outcome if that is not zero, otherwise zero. */
  function Importo(income: Decimal, outcome: Decimal): Decimal {
    if income.digits != 0 then income
    else if outcome.digits != 0 then NegatedMagnitude(outcome)
    else Decimal(0, 0)
  }

  function SignedAmount(g: RawGroup): Decimal {
    Importo(CellAmount(g.income), CellAmount(g.outcome))
  }

  /** A blank cell counts as zero. */
  lemma BlankCellIsZero()
    ensures CellAmount(Empty) == Decimal(0, 0)
  {
    assert ReplaceFirst("", ',', '.') == "";
  }

  lemma NegatedDenotes(d: Decimal, cents: int)
    requires Denotes(d, cents)
    ensures Denotes(NegatedMagnitude(d), -(Abs(cents) as int))
  {
    var p := Pow10(d.scale);
    if d.digits < 0 {
      assert cents * p < 0;
      assert cents < 0;
    } else if d.digits > 0 {
      assert cents * p > 0;
      assert cents > 0;
      assert -d.digits * 100 == -cents * p;
    } else {
      assert cents * p == 0;
      assert cents == 0;
    }
  }

  /** For amounts that are whole numbers of cents: the income when it is not zero,
      otherwise minus the magnitude of the outcome, otherwise zero. */
  lemma ImportoCents(income: Decimal, outcome: Decimal, i: int, o: int)
    requires Denotes(income, i) && Denotes(outcome, o)
    ensures Denotes(Importo(income, outcome), if i != 0 then i else if o != 0 then -(Abs(o) as int) else 0)
  {
    var p := Pow10(income.scale);
    assert income.digits == 0 <==> i == 0 by {
      assert income.digits * 100 == i * p;
      if i != 0 {
        assert i * p != 0;
      }
    }
    var q := Pow10(outcome.scale);
    assert outcome.digits == 0 <==> o == 0 by {
      assert outcome.digits * 100 == o * q;
      if o != 0 {
        assert o * q != 0;
      }
    }
    if i == 0 && o != 0 {
      NegatedDenotes(outcome, o);
    }
  }

  /** With the amounts as number cells in cents: the income when it is not zero,
      otherwise minus the magnitude of the outcome, otherwise zero. */
  lemma NumberCellsAmount(g: RawGroup, income: int, outcome: int)
    requires g.income == Num(Decimal(income, 2)) && g.outcome == Num(Decimal(outcome, 2))
    ensures RoundCents(SignedAmount(g))
      == if income != 0 then income else if outcome != 0 then -(Abs(outcome) as int) else 0
  {
    NumberCellAmount(income);
    NumberCellAmount(outcome);
    var c := if income != 0 then income else if outcome != 0 then -(Abs(outcome) as int) else 0;
    ImportoCents(CellAmount(g.income), CellAmount(g.outcome), income, outcome);
    RoundCentsExact(SignedAmount(g), c);
  }

  /** The day of the record: a date object's own day, the parsed Italian date text, or
      `today` when the text does not give a valid date. */
  function RecordDay(g: RawGroup, today: int): int {
    match g.dateCell
    case DateValue(day, _) => day
    case Str(t) =>
      (match ParseItalianDate(t)
       case Some(p) => (match DateDay(p) case Some(day) => day case None => today)
       case None => today)
    case _ => today
  }

  /** A date text the import can read gives the day of that date. */
  lemma TextDateDay(g: RawGroup, today: int, day: nat, name: string, month: nat, year: nat)
    requires ' ' !in name && MonthOf(Prefix3(Lower(name))) == Some(month)
    requires g.dateCell == Str(DateText(day, name, year, ""))
    requires DateDay(DateParts(year, month, day)).Some?
    ensures RecordDay(g, today) == DateDay(DateParts(year, month, day)).value
  {
    ParseItalianDateText(day, name, month, year, "");
  }

  /** A date text whose month word is not in the month table gives `today`. */
  lemma UnknownMonthIsToday(g: RawGroup, today: int, day: nat, name: string, year: nat)
    requires ' ' !in name && MonthOf(Prefix3(Lower(name))).None?
    requires g.dateCell == Str(DateText(day, name, year, ""))
    ensures RecordDay(g, today) == today
  {
    var s := DateText(day, name, year, "");
    LowerDateText(day, name, year, "");
    LowerKeepsSpaceOut(name);
    assert Lower("") == "";
    SplitDateText(NatText(day), Lower(name), NatText(year), "");
    assert Split(Lower(s), ' ')[1] == Lower(name);
  }

  /** The record a group becomes. */
  function ToRecord(g: RawGroup, today: int, id: string): (r: Transaction)
    ensures r.id == id
    ensures r.name == NormalizeName(g.description) && IsNormalName(r.name)
    ensures r.accountingDate == RecordDay(g, today)
    ensures r.amount == Decimal(RoundCents(SignedAmount(g)), 2)
    ensures r.kind == if SignedAmount(g).digits < 0 then "ADDEBITO" else "ACCREDITO"
    ensures r.accountingDate == r.currencyDate
    ensures r.kind == "ADDEBITO" || r.kind == "ACCREDITO"
    ensures r.amount.digits < 0 ==> r.kind == "ADDEBITO"
    ensures r.kind == "ADDEBITO" ==> r.amount.digits <= 0
    ensures r.amount.scale == 2
    ensures r.details == "Importato da file" && r.category == "payment"
  {
    var amount := SignedAmount(g);
    var day := RecordDay(g, today);
    NormalizeNameIsNormal(g.description);
    Transaction(id, day, day, NormalizeName(g.description),
                if amount.digits < 0 then "ADDEBITO" else "ACCREDITO",
                Decimal(RoundCents(amount), 2), "Importato da file", "payment")
  }

  /** The record of each group, in order; the group at position `k` gets the id `idOf(k)`. */
  function Records(raw: seq<RawGroup>, today: int, idOf: nat -> string): (r: seq<Transaction>)
    ensures |r| == |raw|
    ensures forall k {:trigger r[k]} :: 0 <= k < |raw| ==> r[k] == ToRecord(raw[k], today, idOf(k))
  {
    seq(|raw|, k requires 0 <= k < |raw| => ToRecord(raw[k], today, idOf(k)))
  }

  /** `x.toFixed(2)`: a minus sign when `x` is below zero, and the magnitude in cents. */
  datatype Fixed2 = Fixed2(negative: bool, cents: nat)

  function ToFixed2(d: Decimal): (r: Fixed2)
    ensures RoundCents(d) == if r.negative then -(r.cents as int) else r.cents
    ensures r.negative == (d.digits < 0) && r.cents == Abs(RoundCents(d))
  {
    Fixed2(d.digits < 0, Abs(RoundCents(d)))
  }

  /** The duplicate key: day, amount text and name. The text key joins the three with
      `_`, and since neither the date nor the amount text contains `_`, equal texts
      mean equal triples. */
  datatype Key = Key(day: int, amount: Fixed2, name: string)

  function StoredKey(t: Transaction): Key {
    Key(t.accountingDate, ToFixed2(t.amount), t.name)
  }

  function StoredKeys(stored: seq<Transaction>): set<Key> {
    set t | t in stored :: StoredKey(t)
  }

  /** The key as the import writes it: from the amount before its rounding to cents. */
  function AsWrittenKey(g: RawGroup, today: int): Key {
    Key(RecordDay(g, today), ToFixed2(SignedAmount(g)), NormalizeName(g.description))
  }

  /** The amount text of the unrounded amount and of the stored one agree, except for
      an amount below zero that rounds to zero cents: `-0.00` against `0.00`. */
  lemma FixedOfStoredAmount(a: Decimal)
    ensures ToFixed2(a) == ToFixed2(Decimal(RoundCents(a), 2))
      <==> !(a.digits < 0 && RoundCents(a) == 0)
  {
    var c := RoundCents(a);
    RoundCentsExact(Decimal(c, 2), c);
  }

  /** The key as written is the key of the stored record, except for an amount below
      zero that rounds to zero cents. */
  lemma AsWrittenKeyAgrees(g: RawGroup, today: int, id: string)
    ensures AsWrittenKey(g, today) == StoredKey(ToRecord(g, today, id))
      <==> !(SignedAmount(g).digits < 0 && RoundCents(SignedAmount(g)) == 0)
  {
    var a := SignedAmount(g);
    assert ToRecord(g, today, id).amount == Decimal(RoundCents(a), 2);
    FixedOfStoredAmount(a);
  }

  lemma FourThousandthsText()
    ensures CellAmount(Num(Decimal(4, 3))) == Decimal(4, 3)
  {
    var d := Decimal(4, 3);
    assert Trimmed(d) == d;
    DecimalTextRoundTrip(d);
    NumberTextLacks(false, NatText(0), Places(4, 3), ',');
    assert Pow10(3) == 1000;
    ReplaceFirstAbsent(DecimalText(d), ',', '.');
  }

  /** An outcome of 0,004 rounds to zero cents from below. */
  lemma TinyOutcome(g: RawGroup)
    requires g.income == Empty && g.outcome == Num(Decimal(4, 3))
    ensures SignedAmount(g).digits < 0 && RoundCents(SignedAmount(g)) == 0
  {
    BlankCellIsZero();
    FourThousandthsText();
    assert SignedAmount(g) == Decimal(-4, 3);
    assert Pow10(3) == 1000;
  }

  lemma StoredKeysOne(t: Transaction)
    ensures StoredKeys([t]) == {StoredKey(t)}
  {
  }

  /** The key as written misses the stored copy of a record whose outcome is 0,004,
      so the second import of the same file adds that record again. */
  lemma AsWrittenKeyMissesStoredCopy(g: RawGroup, today: int, id: string)
    requires g.income == Empty && g.outcome == Num(Decimal(4, 3))
    ensures AsWrittenKey(g, today) !in StoredKeys([ToRecord(g, today, id)])
  {
    TinyOutcome(g);
    AsWrittenKeyAgrees(g, today, id);
    StoredKeysOne(ToRecord(g, today, id));
  }

  /** The records whose keys are not among `keys`, in order. */
  function Fresh(recs: seq<Transaction>, keys: set<Key>): (r: seq<Transaction>)
    ensures |r| <= |recs|
    ensures forall t :: t in r <==> t in recs && StoredKey(t) !in keys
  {
    if recs == [] then []
    else
      var rest := Fresh(recs[1..], keys);
      assert forall t :: t in recs <==> t == recs[0] || t in recs[1..];
      if StoredKey(recs[0]) in keys then rest else [recs[0]] + rest
  }

  /** Each record is kept or dropped on its own key, in order, as often as it occurs. */
  lemma {:induction false} FreshAppend(a: seq<Transaction>, b: seq<Transaction>, keys: set<Key>)
    ensures Fresh(a + b, keys) == Fresh(a, keys) + Fresh(b, keys)
  {
    if a != [] {
      HeadOfAppend(a, b);
      FreshAppend(a[1..], b, keys);
      if StoredKey(a[0]) !in keys {
        Associative([a[0]], Fresh(a[1..], keys), Fresh(b, keys));
      }
    } else {
      EmptyAppend(a, b);
    }
  }


  lemma FreshOne(t: Transaction, keys: set<Key>)
    ensures Fresh([t], keys) == if StoredKey(t) in keys then [] else [t]
  {
    assert [t][1..] == [];
  }

  /** The keys are not extended during the batch: when no record's key is known, every
      record is kept, in order, even two records that are alike. */
  lemma {:induction false} FreshKeepsAllNew(recs: seq<Transaction>, keys: set<Key>)
    requires forall k :: 0 <= k < |recs| ==> StoredKey(recs[k]) !in keys
    ensures Fresh(recs, keys) == recs
  {
    if recs != [] {
      assert StoredKey(recs[0]) !in keys;
      FreshKeepsAllNew(recs[1..], keys);
      assert [recs[0]] + recs[1..] == recs;
    }
  }

  /** When every record's key is known, nothing is kept. */
  lemma {:induction false} FreshAllKnown(recs: seq<Transaction>, keys: set<Key>)
    requires forall k :: 0 <= k < |recs| ==> StoredKey(recs[k]) in keys
    ensures Fresh(recs, keys) == []
  {
    if recs != [] {
      assert StoredKey(recs[0]) in keys;
      FreshAllKnown(recs[1..], keys);
    }
  }

  datatype ImportError = HeaderNotFound | ColumnsNotFound

  /** The groups of the rows below the header row, or the error of a grid without one. */
  function HeaderScan(rows: seq<Row>): Result<seq<RawGroup>, ImportError> {
    match FindHeader(rows)
    case None => Failure(HeaderNotFound)
    case Some(h) => ScanBelow(rows, h, ColumnsOf(rows[h]))
  }

  /** The groups of the rows below the header at `h`, given its column map. */
  function ScanBelow(rows: seq<Row>, h: nat, columns: Option<Columns>): Result<seq<RawGroup>, ImportError>
    requires h < |rows|
  {
    match columns
    case None => Failure(ColumnsNotFound)
    case Some(cols) => Success(Scan(rows[h + 1..], cols, None))
  }

  lemma HeaderScanOf(rows: seq<Row>, h: nat, cols: Columns)
    requires FindHeader(rows) == Some(h) && ColumnsOf(rows[h]) == Some(cols)
    ensures HeaderScan(rows) == Success(Scan(rows[h + 1..], cols, None))
  {
    HeaderScanAt(rows, h);
    ScanBelowOf(rows, h, cols);
  }

  lemma HeaderScanAt(rows: seq<Row>, h: nat)
    requires FindHeader(rows) == Some(h)
    ensures HeaderScan(rows) == ScanBelow(rows, h, ColumnsOf(rows[h]))
  {
  }

  lemma ScanBelowOf(rows: seq<Row>, h: nat, cols: Columns)
    requires h < |rows|
    ensures ScanBelow(rows, h, Some(cols)) == Success(Scan(rows[h + 1..], cols, None))
  {
  }

  /** What `parseComplexExcelData` returns for a grid, given the stored transactions,
      the day of `new Date()` and the ids the records get. */
  function ImportResult(rows: seq<Row>, stored: seq<Transaction>, today: int, idOf: nat -> string): Result<seq<Transaction>, ImportError> {
    match HeaderScan(rows)
    case Failure(e) => Failure(e)
    case Success(raw) => Success(Fresh(Records(raw, today, idOf), StoredKeys(stored)))
  }

  lemma ImportOfGroups(rows: seq<Row>, stored: seq<Transaction>, today: int, idOf: nat -> string, raw: seq<RawGroup>)
    requires HeaderScan(rows) == Success(raw)
    ensures ImportResult(rows, stored, today, idOf) == Success(Fresh(Records(raw, today, idOf), StoredKeys(stored)))
  {
  }

  /** The import fails with a missing header exactly when no row names both columns. */
  lemma HeaderMissingIff(rows: seq<Row>, stored: seq<Transaction>, today: int, idOf: nat -> string)
    ensures ImportResult(rows, stored, today, idOf) == Failure(HeaderNotFound)
      <==> forall j :: 0 <= j < |rows| ==> !IsHeaderRow(rows[j])
  {
    var h := FindHeader(rows);
    if h.Some? {
      HeaderHasColumns(rows[h.value]);
    }
  }

  /** The import never fails with missing columns: the header row test already
      found both column names. */
  lemma ColumnsErrorUnreachable(rows: seq<Row>, stored: seq<Transaction>, today: int, idOf: nat -> string)
    ensures ImportResult(rows, stored, today, idOf) != Failure(ColumnsNotFound)
  {
    var h := FindHeader(rows);
    if h.Some? {
      HeaderHasColumns(rows[h.value]);
    }
  }

  /** Every record of `recs` has its key among the keys of `stored` plus the fresh ones. */
  lemma FreshCoversKeys(recs: seq<Transaction>, stored: seq<Transaction>)
    ensures forall k :: 0 <= k < |recs| ==>
      StoredKey(recs[k]) in StoredKeys(stored + Fresh(recs, StoredKeys(stored)))
  {
    var added := Fresh(recs, StoredKeys(stored));
    forall k | 0 <= k < |recs| ensures StoredKey(recs[k]) in StoredKeys(stored + added) {
      var t := recs[k];
      if StoredKey(t) in StoredKeys(stored) {
        var u :| u in stored && StoredKey(u) == StoredKey(t);
        assert u in stored + added;
      } else {
        assert t in added;
        assert t in stored + added;
      }
    }
  }

  /** Importing the same grid a second time, right after its records were added,
      imports nothing, provided both imports have the same `today`. Rows whose date
      text cannot be read are dated `today`, so a re-import of such rows on a later
      day adds them again, in the program as in the model. */
  lemma ImportIdempotent(rows: seq<Row>, stored: seq<Transaction>, today: int, idOf: nat -> string)
    requires ImportResult(rows, stored, today, idOf).Success?
    ensures ImportResult(rows, stored + ImportResult(rows, stored, today, idOf).value, today, idOf) == Success([])
  {
    var recs := Records(HeaderScan(rows).value, today, idOf);
    FreshCoversKeys(recs, stored);
    FreshAllKnown(recs, StoredKeys(stored + Fresh(recs, StoredKeys(stored))));
  }

  /** The records of an import, when no stored transaction shares a key with them:
      one per group, in order, duplicates within the file included. */
  lemma ImportKeepsNewRecords(rows: seq<Row>, stored: seq<Transaction>, today: int, idOf: nat -> string, h: nat, cols: Columns)
    requires FindHeader(rows) == Some(h) && ColumnsOf(rows[h]) == Some(cols)
    requires var recs := Records(Scan(rows[h + 1..], cols, None), today, idOf);
      forall k :: 0 <= k < |recs| ==> StoredKey(recs[k]) !in StoredKeys(stored)
    ensures ImportResult(rows, stored, today, idOf) == Success(Records(Scan(rows[h + 1..], cols, None), today, idOf))
  {
    HeaderScanOf(rows, h, cols);
    FreshKeepsAllNew(Records(Scan(rows[h + 1..], cols, None), today, idOf), StoredKeys(stored));
  }

  lemma {:induction false} FindHeaderPrefix(rows: seq<Row>, more: seq<Row>)
    requires FindHeader(rows).Some?
    ensures FindHeader(rows + more) == FindHeader(rows)
  {
    assert (rows + more)[0] == rows[0];
    if !IsHeaderRow(rows[0]) {
      assert (rows + more)[1..] == rows[1..] + more;
      FindHeaderPrefix(rows[1..], more);
    }
  }

  /** Rows after the first summary row below the header never change the result. */
  lemma RowsAfterSummaryIgnored(rows: seq<Row>, more: seq<Row>, stored: seq<Transaction>, today: int, idOf: nat -> string)
    requires FindHeader(rows).Some? && FindHeader(rows).value < |rows| - 1
    requires IsSummaryRow(rows[|rows| - 1]) && !IsBlankRow(rows[|rows| - 1])
    ensures ImportResult(rows + more, stored, today, idOf) == ImportResult(rows, stored, today, idOf)
  {
    HeaderScanAfterSummary(rows, more);
  }

  lemma HeaderScanAfterSummary(rows: seq<Row>, more: seq<Row>)
    requires FindHeader(rows).Some? && FindHeader(rows).value < |rows| - 1
    requires IsSummaryRow(rows[|rows| - 1]) && !IsBlankRow(rows[|rows| - 1])
    ensures HeaderScan(rows + more) == HeaderScan(rows)
  {
    var h := FindHeader(rows).value;
    FindHeaderPrefix(rows, more);
    HeaderHasColumns(rows[h]);
    var cols := ColumnsOf(rows[h]).value;
    ScanAfterSummary(rows, more, h, cols);
    assert (rows + more)[h] == rows[h];
    HeaderScanOf(rows, h, cols);
    HeaderScanOf(rows + more, h, cols);
  }

  lemma ScanAfterSummary(rows: seq<Row>, more: seq<Row>, h: nat, cols: Columns)
    requires h < |rows| - 1
    requires IsSummaryRow(rows[|rows| - 1]) && !IsBlankRow(rows[|rows| - 1])
    ensures Scan((rows + more)[h + 1..], cols, None) == Scan(rows[h + 1..], cols, None)
  {
    var stop := rows[|rows| - 1];
    var body := rows[h + 1..|rows| - 1];
    assert rows[h + 1..] == body + [stop];
    assert (rows + more)[h + 1..] == body + [stop] + more;
    ScanStops(body, stop, more, cols, None);
  }

  /** Before duplicates are dropped there is one group per dated row of the scanned
      rows before the first summary row, with that row's date, income and outcome, and
      with the description of that row followed by the rows that continue it. */
  lemma GroupsOfScan(body: seq<Row>, cols: Columns)
    ensures |Scan(body, cols, None)| == |StartRows(body, cols)|
    ensures GroupsMatch(Scan(body, cols, None), 0, StartRows(body, cols), cols)
    ensures Descriptions(Scan(body, cols, None)) == GroupTexts(body, cols)
  {
    assert OpenDescription(None, body, cols) + GroupTexts(body, cols) == GroupTexts(body, cols);
    ScanCount(body, cols, None);
    ScanOpened(body, cols, None);
    ScanDescriptions(body, cols, None);
  }

  /** The name of the k-th record is the normalized description of the k-th dated row
      together with the rows that continue it. */
  lemma RecordNames(body: seq<Row>, cols: Columns, today: int, idOf: nat -> string)
    ensures var recs := Records(Scan(body, cols, None), today, idOf);
      |recs| == |GroupTexts(body, cols)|
      && forall k :: 0 <= k < |recs| ==> recs[k].name == NormalizeName(GroupTexts(body, cols)[k])
  {
    var raw := Scan(body, cols, None);
    GroupsOfScan(body, cols);
    forall k | 0 <= k < |raw| ensures raw[k].description == GroupTexts(body, cols)[k] {
      assert Descriptions(raw)[k] == raw[k].description;
    }
  }

  /** The loop of `parseComplexExcelData` over the rows from `start` on, with the open
      group in `current`: blank rows are skipped, a summary row ends the loop, a dated
      row closes the open group and opens the next one, any other row extends the open
      group's description. */
  method ScanRows(rows: seq<Row>, start: nat, cols: Columns) returns (raw: seq<RawGroup>)
    requires start <= |rows|
    ensures raw == Scan(rows[start..], cols, None)
  {
    raw := [];
    var current: Option<RawGroup> := None;
    var i := start;
    assert raw + Scan(rows[i..], cols, current) == Scan(rows[start..], cols, None);
    while i < |rows|
      invariant start <= i <= |rows|
      invariant raw + Scan(rows[i..], cols, current) == Scan(rows[start..], cols, None)
      decreases |rows| - i
    {
      var row := rows[i];
      if IsBlankRow(row) {
        ScanBlank(rows, i, cols, current);
      } else if IsSummaryRow(row) {
        ScanSummary(rows, i, cols, current);
        break;
      } else if StartsTransaction(row, cols) {
        var group := Opened(row, cols);
        ScanStart(raw, rows, i, cols, current);
        raw := raw + Flush(current);
        current := Some(group);
      } else {
        ScanOther(rows, i, cols, current);
        current := Extend(current, row, cols);
      }
      i := i + 1;
    }
    if i == |rows| {
      assert rows[i..] == [];
    }
    raw := raw + Flush(current);
  }

  /** A continuation row: `current.description += ' ' + desc` when there is an open
      group and the row's description text is not empty. */
  method Extend(current: Option<RawGroup>, row: Row, cols: Columns) returns (next: Option<RawGroup>)
    ensures next == Continued(current, row, cols)
    ensures next.Some? <==> current.Some?
    ensures next.Some? ==> SameCells(next.value, current.value)
    ensures next.Some? ==> next.value.description == current.value.description + Piece(DescriptionText(row, cols))
  {
    next := current;
    if current.Some? {
      var text := DescriptionText(row, cols);
      if text != "" {
        next := Some(current.value.(description := current.value.description + " " + text));
      }
    }
  }

  lemma ScanBlank(rows: seq<Row>, i: nat, cols: Columns, current: Option<RawGroup>)
    requires i < |rows| && IsBlankRow(rows[i])
    ensures Scan(rows[i..], cols, current) == Scan(rows[i + 1..], cols, current)
  {
    ScanStep(rows, i, cols, current);
  }

  lemma ScanSummary(rows: seq<Row>, i: nat, cols: Columns, current: Option<RawGroup>)
    requires i < |rows| && !IsBlankRow(rows[i]) && IsSummaryRow(rows[i])
    ensures Scan(rows[i..], cols, current) == Flush(current)
  {
    ScanStep(rows, i, cols, current);
  }

  lemma ScanStart(raw: seq<RawGroup>, rows: seq<Row>, i: nat, cols: Columns, current: Option<RawGroup>)
    requires i < |rows| && !IsBlankRow(rows[i]) && !IsSummaryRow(rows[i])
    requires StartsTransaction(rows[i], cols)
    ensures raw + Scan(rows[i..], cols, current)
      == (raw + Flush(current)) + Scan(rows[i + 1..], cols, Some(Opened(rows[i], cols)))
  {
    ScanStep(rows, i, cols, current);
    Associative(raw, Flush(current), Scan(rows[i + 1..], cols, Some(Opened(rows[i], cols))));
  }

  lemma ScanOther(rows: seq<Row>, i: nat, cols: Columns, current: Option<RawGroup>)
    requires i < |rows| && !IsBlankRow(rows[i]) && !IsSummaryRow(rows[i])
    requires !StartsTransaction(rows[i], cols)
    ensures Scan(rows[i..], cols, current) == Scan(rows[i + 1..], cols, Continued(current, rows[i], cols))
  {
    ScanStep(rows, i, cols, current);
  }

  /** `parseComplexExcelData`: the header search, the scan of the rows below the header,
      and the records of the groups that are not stored already. */
  method ParseComplexExcelData(rows: seq<Row>, stored: seq<Transaction>, today: int, idOf: nat -> string)
    returns (r: Result<seq<Transaction>, ImportError>)
    ensures r == ImportResult(rows, stored, today, idOf)
  {
    var header := FindHeader(rows);
    if header.None? {
      return Failure(HeaderNotFound);
    }
    var h := header.value;
    var columns := ColumnsOf(rows[h]);
    if columns.None? {
      return Failure(ColumnsNotFound);
    }
    var cols := columns.value;
    var raw := ScanRows(rows, h + 1, cols);
    HeaderScanOf(rows, h, cols);
    ImportOfGroups(rows, stored, today, idOf, raw);
    r := Success(Fresh(Records(raw, today, idOf), StoredKeys(stored)));
  }
}
