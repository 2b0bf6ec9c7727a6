/**
 * Spreadsheet ingestion (`parsers/excel_parser.py`): article extraction,
 * the mapping of a sheet row to the values inserted, and the
 * clear-then-insert import over an abstract sheet.
 */
module ExcelParser {
  import opened Wrappers
  import opened Seqs
  import opened Text
  import opened Database

  /**
   * A cell of a text column as pandas hands it over: NaN, for an empty cell or
   * one holding the empty string, or a value. `Str("")` stands for a falsy
   * value that is not NaN, such as a `0` or `FALSE` cell.
   */
  datatype Cell = NaN | Str(value: string)

  /** One sheet row, already reduced to the five columns; `total` is `Итого` after numeric coercion (NaN is `None`). */
  datatype SheetRow = SheetRow(article: Cell, address: Cell, name: Cell, unit: Cell, total: Option<real>)

  /** The sheet: its header and its rows. */
  datatype Sheet = Sheet(columns: set<string>, rows: seq<SheetRow>)

  /** The exceptions `parse_and_save` lets escape. */
  datatype ParseError =
    | FileNotFound                      // the file does not exist
    | KeyError(column: string)          // `dropna(subset=...)` or `df["Итого"]` on an absent column
    | MissingColumns(columns: set<string>)  // the explicit ValueError
    | InsertFailed(message: string)     // the RuntimeError of `insert_many`

  const ArticleColumn := "Артикул"
  const AddressColumn := "Номенклатура.Адрес (Общие)"
  const NameColumn := "Номенклатура, Серия"
  const UnitColumn := "Ед. изм."
  const TotalColumn := "Итого"
  const RequiredColumns: set<string> := {ArticleColumn, AddressColumn, NameColumn, UnitColumn, TotalColumn}

  /** `s[i..j]` is a run of digits with no word character touching it on either side. */
  predicate IsStandaloneRun(s: string, i: nat, j: nat)
  {
    i < j <= |s| && AllDigits(s[i..j])
    && (i == 0 || !IsWordChar(s[i - 1]))
    && (j == |s| || !IsWordChar(s[j]))
  }

  /** The leftmost standalone run, the one `re.search(r'\b(\d+)\b', s)` reports. */
  ghost predicate IsLeftmostStandalone(s: string, i: nat, j: nat)
  {
    IsStandaloneRun(s, i, j) && forall i', j' :: IsStandaloneRun(s, i', j') ==> i <= i'
  }

  /** A standalone run extends over the whole digit run it starts. */
  lemma StandaloneRunEnd(s: string, i: nat, j: nat)
    requires IsStandaloneRun(s, i, j)
    ensures j == DigitRunEnd(s, i)
  {
    forall k | i <= k < j ensures IsDigit(s[k]) {
      assert s[k] == s[i..j][k - i];
    }
    DigitRunEndAt(s, i, j);
  }

  /**
   * The start of the leftmost standalone run at or after `from`. As for the
   * weight pattern, the regex cannot succeed by backtracking: a shorter run
   * is followed by a digit, where `\b` fails.
   */
  function LeftmostStandalone(s: string, from: nat): (m: Option<nat>)
    requires from <= |s|
    ensures m.Some? ==> from <= m.value <= |s| && IsStandaloneRun(s, m.value, DigitRunEnd(s, m.value))
    ensures forall i, j :: from <= i && IsStandaloneRun(s, i, j) ==> m.Some? && m.value <= i
    decreases |s| - from
  {
    if from == |s| then None
    else
      var end := DigitRunEnd(s, from);
      if IsDigit(s[from]) && (from == 0 || !IsWordChar(s[from - 1])) && (end == |s| || !IsWordChar(s[end])) then
        assert AllDigits(s[from..end]);
        Some(from)
      else
        assert forall j :: !IsStandaloneRun(s, from, j) by {
          forall j | IsStandaloneRun(s, from, j) ensures false {
            StandaloneRunEnd(s, from, j);
          }
        }
        LeftmostStandalone(s, from + 1)
  }

  /**
   * `clean_article`: `None` for NaN; otherwise the leftmost standalone
   * integer of the stripped text, or `None` when no digit run stands alone.
   */
  function CleanArticle(article: Cell): Option<string>
  {
    match article
    case NaN => None
    case Str(v) =>
      var t := Strip(v);
      var m := LeftmostStandalone(t, 0);
      if m.Some? then Some(t[m.value..DigitRunEnd(t, m.value)]) else None
  }

  /**
   * What `clean_article` returns: `None` for NaN; otherwise `None` exactly
   * when the stripped text has no standalone digit run, and else the leftmost one.
   */
  lemma CleanArticleFacts(article: Cell)
    ensures article.NaN? ==> CleanArticle(article).None?
    ensures article.Str? ==>
              var t := Strip(article.value);
              var r := CleanArticle(article);
              && (r.None? <==> forall i, j :: !IsStandaloneRun(t, i, j))
              && (r.Some? ==> exists i: nat, j: nat :: IsLeftmostStandalone(t, i, j) && r.value == t[i..j])
  {
    if article.Str? {
      LeftmostFacts(Strip(article.value));
    }
  }

  /** The search from the start finds the leftmost standalone run, and fails exactly when there is none. */
  lemma LeftmostFacts(t: string)
    ensures var m := LeftmostStandalone(t, 0);
            && (m.None? <==> forall i, j :: !IsStandaloneRun(t, i, j))
            && (m.Some? ==> IsLeftmostStandalone(t, m.value, DigitRunEnd(t, m.value)))
  {
    var m := LeftmostStandalone(t, 0);
    if m.Some? {
      assert IsStandaloneRun(t, m.value, DigitRunEnd(t, m.value));
    }
  }

  /** A trimmed text that opens with a standalone run yields that run as its article. */
  lemma LeadingRunArticle(s: string, j: nat)
    requires s != "" && !IsSpace(s[0]) && !IsSpace(s[|s| - 1])
    requires IsStandaloneRun(s, 0, j)
    ensures CleanArticle(Str(s)) == Some(s[..j])
  {
    StripKeepsTrimmed(s);
    StandaloneRunEnd(s, 0, j);
    assert LeftmostStandalone(s, 0) == Some(0);
  }

  /** The doc example: `917 / СВ917Т` yields `917`. */
  lemma CleanArticleExample(s: string)
    requires s == "917 / СВ917Т"
    ensures CleanArticle(Str(s)) == Some("917")
  {
    assert s[..3] == "917";
    assert AllDigits(s[0..3]);
    assert IsStandaloneRun(s, 0, 3);
    LeadingRunArticle(s, 3);
  }

  /** A text made only of word characters has no standalone run unless it starts with a digit. */
  lemma NoStandaloneInWord(s: string)
    requires s != [] && !IsDigit(s[0])
    requires forall k :: 0 <= k < |s| ==> IsWordChar(s[k])
    ensures forall i, j :: !IsStandaloneRun(s, i, j)
  {
  }

  /** A number glued to letters, as in `СВ917Т`, is no article. */
  lemma CleanArticleGluedExample(u: string)
    requires u == "СВ917Т"
    ensures CleanArticle(Str(u)) == None
  {
    assert forall k :: 0 <= k < |u| ==> IsWordChar(u[k]);
    StripKeepsTrimmed(u);
    NoStandaloneInWord(u);
    CleanArticleFacts(Str(u));
  }

  /** Python truthiness of a cell: NaN is truthy, and only the falsy value `Str("")` is false. */
  predicate IsTruthy(c: Cell) { c.NaN? || c.value != "" }

  /** What SQLite stores for a cell value: NaN becomes NULL. */
  function Stored(c: Cell): Option<string>
  {
    match c
    case NaN => None
    case Str(v) => Some(v)
  }

  /** `cell or fallback`, as stored. */
  function OrElse(c: Cell, fallback: Option<string>): Option<string>
  {
    if IsTruthy(c) then Stored(c) else fallback
  }

  /** The tuple `parse_and_save` prepares for one sheet row. */
  function BuildRow(row: SheetRow): Item
  {
    Item(CleanArticle(row.article), OrElse(row.address, None), OrElse(row.name, None),
         OrElse(row.unit, Some(DefaultUnit)), row.total)
  }

  /**
   * The fields of a prepared row: no text field is left empty; a falsy
   * unit becomes the default unit while a NaN unit stays NULL; a falsy or
   * NaN address or name becomes NULL; the quantity is passed on.
   */
  lemma BuildRowFacts(row: SheetRow)
    ensures var item := BuildRow(row);
            && item.quantity == row.total
            && item.unit != Some("") && item.address != Some("") && item.name != Some("")
            && (row.unit == Str("") ==> item.unit == Some(DefaultUnit))
            && (row.unit.NaN? ==> item.unit.None?)
            && (row.unit.Str? && row.unit.value != "" ==> item.unit == Some(row.unit.value))
            && (item.name.None? <==> row.name == NaN || row.name == Str(""))
            && (item.address.None? <==> row.address == NaN || row.address == Str(""))
  {
  }

  /** `dropna(subset=[NameColumn])` keeps the rows whose name is not NaN. */
  predicate HasName(row: SheetRow) { !row.name.NaN? }

  /** The rows built from `named`, one each, in order. */
  function BuildRows(named: seq<SheetRow>): (items: seq<Item>)
    ensures |items| == |named|
  {
    if named == [] then [] else BuildRows(named[..|named| - 1]) + [BuildRow(named[|named| - 1])]
  }

  /** The `k`th built row is built from the `k`th named row. */
  lemma {:induction false} BuildRowsAt(named: seq<SheetRow>, k: nat)
    requires k < |named|
    ensures BuildRows(named)[k] == BuildRow(named[k])
    decreases |named|
  {
    var init := named[..|named| - 1];
    if k < |init| {
      BuildRowsAt(init, k);
      assert named[k] == init[k];
    }
  }

  /** The rows `parse_and_save` prepares: one per named sheet row, in sheet order. */
  function PreparedRows(sheet: Sheet): (items: seq<Item>)
    ensures |items| <= |sheet.rows|
  {
    BuildRows(Filter(sheet.rows, HasName))
  }

  /** The loop over the remaining sheet rows, appending one prepared row per sheet row. */
  method PrepareRows(named: seq<SheetRow>) returns (rows: seq<Item>)
    ensures rows == BuildRows(named)
  {
    rows := [];
    var i := 0;
    while i < |named|
      invariant 0 <= i <= |named|
      invariant rows == BuildRows(named[..i])
    {
      assert named[..i + 1][..i] == named[..i];
      rows := rows + [BuildRow(named[i])];
      i := i + 1;
    }
    assert named[..i] == named;
  }

  /** Every named sheet row is prepared. */
  lemma NamedRowPrepared(sheet: Sheet, k: nat)
    requires k < |sheet.rows| && HasName(sheet.rows[k])
    ensures BuildRow(sheet.rows[k]) in PreparedRows(sheet)
  {
    var named := Filter(sheet.rows, HasName);
    FilterFacts(sheet.rows, HasName);
    assert sheet.rows[k] in named;
    var m :| 0 <= m < |named| && named[m] == sheet.rows[k];
    BuildRowsAt(named, m);
  }

  /** Every prepared row is built from a named sheet row. */
  lemma PreparedRowFromNamed(sheet: Sheet, m: nat)
    requires m < |PreparedRows(sheet)|
    ensures exists k :: 0 <= k < |sheet.rows| && HasName(sheet.rows[k]) && PreparedRows(sheet)[m] == BuildRow(sheet.rows[k])
  {
    var named := Filter(sheet.rows, HasName);
    FilterFacts(sheet.rows, HasName);
    BuildRowsAt(named, m);
    assert named[m] in sheet.rows;
    var k :| 0 <= k < |sheet.rows| && sheet.rows[k] == named[m];
    assert HasName(sheet.rows[k]);
  }

  /** The error raised before the table is touched, in the order the source meets them. */
  function PreInsertError(fileExists: bool, columns: set<string>): Option<ParseError>
  {
    if !fileExists then Some(FileNotFound)
    else if NameColumn !in columns then Some(KeyError(NameColumn))
    else if TotalColumn !in columns then Some(KeyError(TotalColumn))
    else if RequiredColumns - columns != {} then Some(MissingColumns(RequiredColumns - columns))
    else None
  }

  /** The import gets past its checks exactly when the file exists and has every required column. */
  lemma PreInsertErrorIff(fileExists: bool, columns: set<string>)
    ensures PreInsertError(fileExists, columns).None? <==> fileExists && RequiredColumns <= columns
  {
    if RequiredColumns <= columns {
      assert RequiredColumns - columns == {};
    } else {
      var x :| x in RequiredColumns && x !in columns;
      assert x in RequiredColumns - columns;
    }
  }

  /**
   * The NOT NULL failure after clearing happens exactly when some sheet row
   * has a falsy name that is not NaN (it survives `dropna`, and `or None`
   * turns it into NULL).
   */
  lemma NullNameIff(sheet: Sheet)
    ensures HasNullName(PreparedRows(sheet)) <==>
              exists k :: 0 <= k < |sheet.rows| && sheet.rows[k].name == Str("")
  {
    if HasNullName(PreparedRows(sheet)) {
      NullNameFromSheet(sheet);
    }
    if exists k :: 0 <= k < |sheet.rows| && sheet.rows[k].name == Str("") {
      var k :| 0 <= k < |sheet.rows| && sheet.rows[k].name == Str("");
      NullNameToPrepared(sheet, k);
    }
  }

  lemma NullNameFromSheet(sheet: Sheet)
    requires HasNullName(PreparedRows(sheet))
    ensures exists k :: 0 <= k < |sheet.rows| && sheet.rows[k].name == Str("")
  {
    var named := Filter(sheet.rows, HasName);
    var items := PreparedRows(sheet);
    var k :| 0 <= k < |items| && items[k].name.None?;
    BuildRowsAt(named, k);
    BuildRowFacts(named[k]);
    assert HasName(named[k]);
    assert named[k].name == Str("");
    FilterFacts(sheet.rows, HasName);
    assert named[k] in sheet.rows;
  }

  lemma NullNameToPrepared(sheet: Sheet, k: nat)
    requires k < |sheet.rows| && sheet.rows[k].name == Str("")
    ensures HasNullName(PreparedRows(sheet))
  {
    var named := Filter(sheet.rows, HasName);
    FilterFacts(sheet.rows, HasName);
    assert sheet.rows[k] in named;
    var m :| 0 <= m < |named| && named[m] == sheet.rows[k];
    BuildRowsAt(named, m);
    BuildRowFacts(named[m]);
    assert PreparedRows(sheet)[m].name.None?;
  }

  /**
   * `ExcelParser.parse_and_save` over an abstract sheet. `fileExists` is
   * the `os.path.exists` check. Every error but the insert failure is met
   * before `clear_all`, so it leaves the table as it was; an insert failure
   * comes after `clear_all` has been committed and leaves the table empty.
   */
  method ParseAndSave(db: DBManager, fileExists: bool, sheet: Sheet) returns (res: Result<nat, ParseError>)
    requires db.Valid()
    modifies db
    ensures db.Valid()
    ensures PreInsertError(fileExists, sheet.columns).Some? ==>
              res == Failure(PreInsertError(fileExists, sheet.columns).value)
              && db.items == old(db.items) && db.lastId == old(db.lastId)
    ensures PreInsertError(fileExists, sheet.columns).None? && !HasNullName(PreparedRows(sheet)) ==>
              res == Success(|PreparedRows(sheet)|) && ItemsOf(db.items) == PreparedRows(sheet)
    ensures PreInsertError(fileExists, sheet.columns).None? && HasNullName(PreparedRows(sheet)) ==>
              res == Failure(InsertFailed(InsertError)) && db.items == []
  {
    if !fileExists {
      return Failure(FileNotFound);
    }
    if NameColumn !in sheet.columns {
      return Failure(KeyError(NameColumn));
    }
    var named := Filter(sheet.rows, HasName);
    if TotalColumn !in sheet.columns {
      return Failure(KeyError(TotalColumn));
    }
    var missing := RequiredColumns - sheet.columns;
    if missing != {} {
      return Failure(MissingColumns(missing));
    }
    var rows := PrepareRows(named);
    db.ClearAll();
    var outcome := db.InsertMany(rows);
    if outcome.Fail? {
      return Failure(InsertFailed(outcome.error));
    }
    return Success(|rows|);
  }
}
