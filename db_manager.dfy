/**
 * The `items` table and the queries over it (`DBManager`): bulk replace,
 * lookup by storage address, and the hybrid search that dispatches between
 * listing, exact article match and free-text token matching.
 */
module Database {
  import opened Wrappers
  import opened Seqs
  import opened Text
  import opened Search

  /** The values one INSERT binds: (article, address, name, unit, quantity). NULL is `None`. */
  datatype Item = Item(article: Option<string>, address: Option<string>, name: Option<string>,
                       unit: Option<string>, quantity: Option<real>)

  /** A row as `SELECT *` returns it: (id, article, address, name, unit, quantity). */
  datatype Row = Row(id: int, article: Option<string>, address: Option<string>, name: Option<string>,
                     unit: Option<string>, quantity: Option<real>)

  /** The inserted values a row holds, without its id. */
  function ItemOf(row: Row): Item
  {
    Item(row.article, row.address, row.name, row.unit, row.quantity)
  }

  function ItemsOf(rows: seq<Row>): (items: seq<Item>)
    ensures |items| == |rows|
    ensures forall k :: 0 <= k < |rows| ==> items[k] == ItemOf(rows[k])
  {
    seq(|rows|, k requires 0 <= k < |rows| => ItemOf(rows[k]))
  }

  /** The rows one `executemany` adds: AUTOINCREMENT ids `first`, `first + 1`, ... in list order. */
  function Numbered(items: seq<Item>, first: int): (rows: seq<Row>)
    ensures |rows| == |items|
    ensures forall k :: 0 <= k < |items| ==> rows[k].id == first + k && ItemOf(rows[k]) == items[k]
  {
    seq(|items|, k requires 0 <= k < |items| =>
      Row(first + k, items[k].article, items[k].address, items[k].name, items[k].unit, items[k].quantity))
  }

  /**
   * The table's integrity: ids are positive, increase in storage order and
   * never exceed the AUTOINCREMENT counter `lastId`; `name` is NOT NULL.
   */
  predicate ValidTable(rows: seq<Row>, lastId: int)
  {
    0 <= lastId
    && (forall i, j :: 0 <= i < j < |rows| ==> rows[i].id < rows[j].id)
    && (forall k :: 0 <= k < |rows| ==> 0 < rows[k].id <= lastId && rows[k].name.Some?)
  }

  /** Some value of the list would violate `name TEXT NOT NULL`. */
  predicate HasNullName(items: seq<Item>)
  {
    exists k :: 0 <= k < |items| && items[k].name.None?
  }

  /** The error `insert_many` raises after rolling back. */
  const InsertError := "Ошибка при вставке данных в БД: NOT NULL constraint failed: items.name"

  /** The unit shown and stored when a row's unit is empty. */
  const DefaultUnit := "упак"

  /** The safety cap on free-text results. */
  const MaxResults: nat := 20

  /** `not query.strip()`. */
  predicate IsBlank(query: string) { Strip(query) == "" }

  /** `query.isdigit()`: non-empty and digits only. */
  predicate IsDigitString(query: string) { query != "" && AllDigits(query) }

  /** `SELECT * FROM items WHERE address = ?` with `fetchone()`: the first row with that address. */
  function FirstWithAddress(rows: seq<Row>, address: string): (r: Option<Row>)
    ensures r.None? <==> forall k :: 0 <= k < |rows| ==> rows[k].address != Some(address)
    ensures r.Some? ==> exists k :: 0 <= k < |rows| && rows[k] == r.value && r.value.address == Some(address)
                                    && forall j :: 0 <= j < k ==> rows[j].address != Some(address)
  {
    if rows == [] then None
    else if rows[0].address == Some(address) then Some(rows[0])
    else
      var r := FirstWithAddress(rows[1..], address);
      assert r.Some? ==> exists k :: 1 <= k < |rows| && rows[k] == r.value && r.value.address == Some(address)
                                     && forall j :: 1 <= j < k ==> rows[j].address != Some(address) by {
        if r.Some? {
          var k :| 0 <= k < |rows[1..]| && rows[1..][k] == r.value && r.value.address == Some(address)
                   && forall j :: 0 <= j < k ==> rows[1..][j].address != Some(address);
          assert forall j :: 1 <= j < k + 1 ==> rows[j] == rows[1..][j - 1];
        }
      }
      r
  }

  /** `SELECT * FROM items WHERE article = ?`: exactly the rows whose article is the query, in table order. */
  function ArticleMatches(rows: seq<Row>, query: string): (r: seq<Row>)
    ensures forall x :: x in r <==> x in rows && x.article == Some(query)
    ensures forall x :: multiset(r)[x] == if x.article == Some(query) then multiset(rows)[x] else 0
    ensures IsSubsequence(r, rows)
  {
    FilterFacts(rows, (row: Row) => row.article == Some(query));
    Filter(rows, (row: Row) => row.article == Some(query))
  }

  /** The acceptance rule for a row that contains `matched` of the `n` tokens. */
  predicate Accepts(n: nat, matched: nat)
  {
    (n <= 2 && matched == n) || (n > 2 && matched >= 2)
  }

  /** The tokens that occur in a normalised name. */
  function MatchedTokens(tokens: set<string>, normName: string): (m: set<string>)
    ensures m <= tokens
  {
    set t | t in tokens && Contains(normName, t)
  }

  /** A free-text row: it has a name whose normalised form passes the acceptance rule. */
  predicate RowAccepted(tokens: set<string>, row: Row)
  {
    row.name.Some? && Accepts(|tokens|, |MatchedTokens(tokens, Normalize(row.name.value))|)
  }

  /** The rows a free-text scan accepts, in table order. */
  function AcceptedRows(rows: seq<Row>, tokens: set<string>): seq<Row>
  {
    Filter(rows, (row: Row) => RowAccepted(tokens, row))
  }

  /** The free-text path: no rows for an empty token set, else the first 20 accepted rows in table order. */
  function FreeTextResults(rows: seq<Row>, tokens: set<string>): seq<Row>
  {
    if tokens == {} then []
    else
      var accepted := AcceptedRows(rows, tokens);
      if |accepted| <= MaxResults then accepted else accepted[..MaxResults]
  }

  /** `DBManager.search`: blank lists the table, digits match the article exactly, anything else is free text. */
  function SearchResults(rows: seq<Row>, query: string, aliases: map<string, seq<string>>): seq<Row>
  {
    if IsBlank(query) then rows
    else if IsDigitString(query) then ArticleMatches(rows, query)
    else FreeTextResults(rows, ExpandQuery(query, aliases))
  }

  /** A subset as large as its superset is the superset. */
  lemma SubsetOfSameSize<T>(a: set<T>, b: set<T>)
    requires a <= b && |a| == |b|
    ensures a == b
  {
    if a != b {
      var x :| x in b && x !in a;
      assert a <= b - {x};
      SubsetSize(a, b - {x});
    }
  }

  lemma {:induction false} SubsetSize<T>(a: set<T>, b: set<T>)
    requires a <= b
    ensures |a| <= |b|
    decreases |b|
  {
    if a != {} {
      var x :| x in a;
      SubsetSize(a - {x}, b - {x});
    }
  }

  /**
   * With one or two tokens the rule accepts exactly the names that contain
   * every token; the ">= 2 of more than two" branch never applies.
   */
  lemma AcceptedIffAllTokens(tokens: set<string>, row: Row)
    requires tokens != {} && |tokens| <= 2
    ensures RowAccepted(tokens, row) <==>
              row.name.Some? && forall t :: t in tokens ==> Contains(Normalize(row.name.value), t)
  {
    if row.name.Some? {
      var norm := Normalize(row.name.value);
      var m := MatchedTokens(tokens, norm);
      if |m| == |tokens| {
        SubsetOfSameSize(m, tokens);
        assert forall t :: t in tokens ==> t in m;
      }
      if forall t :: t in tokens ==> Contains(norm, t) {
        assert tokens <= m;
        assert m == tokens;
      }
    }
  }

  /**
   * The free-text results: an order-preserving subsequence of the table,
   * at most 20 rows, exactly 20 when at least 20 rows pass, each of them
   * accepted; none at all for an empty token set.
   */
  lemma FreeTextShape(rows: seq<Row>, tokens: set<string>)
    ensures var r := FreeTextResults(rows, tokens);
            var accepted := AcceptedRows(rows, tokens);
            && |r| <= MaxResults
            && (tokens != {} ==> |r| == if |accepted| < MaxResults then |accepted| else MaxResults)
            && IsSubsequence(r, rows)
            && (forall k :: 0 <= k < |r| ==> RowAccepted(tokens, r[k]))
            && (tokens == {} ==> r == [])
  {
    var accepted := AcceptedRows(rows, tokens);
    FilterFacts(rows, (row: Row) => RowAccepted(tokens, row));
    if tokens != {} && |accepted| > MaxResults {
      SubsequencePrefix(accepted, rows, MaxResults);
    }
  }

  /**
   * Every free-text result of a query has a name whose normalised form
   * contains every token the query expands to.
   */
  lemma FreeTextRowsContainAllTokens(rows: seq<Row>, query: string, aliases: map<string, seq<string>>)
    ensures var tokens := ExpandQuery(query, aliases);
            forall x :: x in FreeTextResults(rows, tokens) ==>
              x.name.Some? && forall t :: t in tokens ==> Contains(Normalize(x.name.value), t)
  {
    var tokens := ExpandQuery(query, aliases);
    var r := FreeTextResults(rows, tokens);
    FreeTextShape(rows, tokens);
    forall x | x in r
      ensures x.name.Some? && forall t :: t in tokens ==> Contains(Normalize(x.name.value), t)
    {
      AcceptedIffAllTokens(tokens, x);
    }
  }

  /** The values held after an append are the old ones followed by the inserted ones. */
  lemma ItemsOfAppend(rows: seq<Row>, items: seq<Item>, first: int)
    ensures ItemsOf(rows + Numbered(items, first)) == ItemsOf(rows) + items
  {
    var all := rows + Numbered(items, first);
    forall k | |rows| <= k < |all| ensures ItemsOf(all)[k] == items[k - |rows|] {
      assert all[k] == Numbered(items, first)[k - |rows|];
    }
  }

  /** Appending rows numbered after the counter keeps the table valid. */
  lemma AppendKeepsValid(rows: seq<Row>, lastId: int, items: seq<Item>)
    requires ValidTable(rows, lastId)
    requires !HasNullName(items)
    ensures ValidTable(rows + Numbered(items, lastId + 1), lastId + |items|)
  {
    var added := Numbered(items, lastId + 1);
    var all := rows + added;
    forall k | 0 <= k < |added| ensures added[k].name.Some? {
      assert ItemOf(added[k]).name == items[k].name;
    }
    forall i, j | 0 <= i < j < |all| ensures all[i].id < all[j].id {
      if j >= |rows| && i < |rows| {
        assert all[j] == added[j - |rows|];
      }
    }
    forall k | 0 <= k < |all| ensures 0 < all[k].id <= lastId + |items| && all[k].name.Some? {
      if k >= |rows| {
        assert all[k] == added[k - |rows|];
      }
    }
  }

  /** One scan step: the next row is appended exactly when it is accepted. */
  lemma ScanStep(rows: seq<Row>, i: nat, tokens: set<string>)
    requires i < |rows|
    ensures AcceptedRows(rows[..i + 1], tokens)
            == AcceptedRows(rows[..i], tokens)
               + (if RowAccepted(tokens, rows[i]) then [rows[i]] else [])
  {
    assert rows[..i + 1][..i] == rows[..i];
  }

  /** A scan that has accepted 20 rows of a prefix has the complete free-text result. */
  lemma ScanCapReached(rows: seq<Row>, i: nat, tokens: set<string>)
    requires tokens != {} && i <= |rows|
    requires |AcceptedRows(rows[..i], tokens)| == MaxResults
    ensures FreeTextResults(rows, tokens) == AcceptedRows(rows[..i], tokens)
  {
    FilterPrefix(rows, i, (row: Row) => RowAccepted(tokens, row));
  }

  /** A scan that reached the end before 20 rows has the complete free-text result. */
  lemma ScanFinished(rows: seq<Row>, tokens: set<string>)
    requires tokens != {}
    requires |AcceptedRows(rows, tokens)| < MaxResults
    ensures FreeTextResults(rows, tokens) == AcceptedRows(rows, tokens)
  {
  }

  /** The record store: the SQLite table `items` held as a sequence in storage order. */
  class DBManager {
    var items: seq<Row>
    /** AUTOINCREMENT's counter: the largest id ever handed out; DELETE does not reset it. */
    var lastId: int

    predicate Valid()
      reads this
    {
      ValidTable(items, lastId)
    }

    /** Opening the database file: the table holds what earlier sessions left in it. */
    constructor (stored: seq<Row>, storedLastId: int)
      requires ValidTable(stored, storedLastId)
      ensures Valid() && items == stored && lastId == storedLastId
    {
      items := stored;
      lastId := storedLastId;
    }

    /** `clear_all`: DELETE FROM items. */
    method ClearAll()
      requires Valid()
      modifies this
      ensures Valid()
      ensures items == [] && lastId == old(lastId)
    {
      items := [];
    }

    /**
     * `insert_many`: an empty list changes nothing; a list with a NULL name
     * violates NOT NULL, is rolled back and raises; otherwise the rows are
     * appended in order with fresh ids.
     */
    method InsertMany(rows: seq<Item>) returns (outcome: Outcome<string>)
      requires Valid()
      modifies this
      ensures Valid()
      ensures outcome == if HasNullName(rows) then Fail(InsertError) else Pass
      ensures outcome.Fail? ==> items == old(items) && lastId == old(lastId)
      ensures outcome.Pass? ==> items == old(items) + Numbered(rows, old(lastId) + 1)
                                && lastId == old(lastId) + |rows|
                                && ItemsOf(items) == ItemsOf(old(items)) + rows
    {
      if rows == [] {
        assert items + Numbered(rows, lastId + 1) == items;
        assert ItemsOf(items) + rows == ItemsOf(items);
        return Pass;
      }
      if HasNullName(rows) {
        return Fail(InsertError);
      }
      AppendKeepsValid(items, lastId, rows);
      ItemsOfAppend(items, rows, lastId + 1);
      var added := Numbered(rows, lastId + 1);
      items := items + added;
      lastId := lastId + |rows|;
      outcome := Pass;
    }

    /** `get_by_address`: the first stored row with exactly that address. */
    method GetByAddress(address: string) returns (r: Option<Row>)
      ensures r == FirstWithAddress(items, address)
      ensures r.None? <==> forall k :: 0 <= k < |items| ==> items[k].address != Some(address)
    {
      r := FirstWithAddress(items, address);
    }

    /**
     * `search`: the dispatch of `SearchResults`, with the free-text scan that
     * stops once 20 rows are accepted. `aliases` is the alias table in effect.
     */
    method Search(query: string, aliases: map<string, seq<string>>) returns (r: seq<Row>)
      ensures r == SearchResults(items, query, aliases)
    {
      if IsBlank(query) {
        return items;
      }
      if IsDigitString(query) {
        return ArticleMatches(items, query);
      }
      var tokens := ExpandQuery(query, aliases);
      if tokens == {} {
        return [];
      }
      r := ScanFreeText(tokens);
    }

    /**
     * The free-text scan of `search`: one pass over the table in storage
     * order, appending each accepted row and stopping at the 20th.
     */
    method ScanFreeText(tokens: set<string>) returns (matched: seq<Row>)
      requires tokens != {}
      ensures matched == FreeTextResults(items, tokens)
    {
      var allItems := items;
      matched := [];
      var i := 0;
      while i < |allItems|
        invariant 0 <= i <= |allItems|
        invariant matched == AcceptedRows(allItems[..i], tokens)
        invariant |matched| < MaxResults
      {
        var item := allItems[i];
        ScanStep(allItems, i, tokens);
        if item.name.Some? {
          var normName := Normalize(item.name.value);
          var matchedTokens := |MatchedTokens(tokens, normName)|;
          assert Accepts(|tokens|, matchedTokens) == RowAccepted(tokens, item);
          if Accepts(|tokens|, matchedTokens) {
            matched := matched + [item];
          }
          if |matched| >= MaxResults {
            ScanCapReached(allItems, i + 1, tokens);
            return;
          }
        }
        i := i + 1;
      }
      assert allItems[..i] == allItems;
      ScanFinished(allItems, tokens);
    }

    /** `search_by_name`: the same search, kept for compatibility. */
    method SearchByName(query: string, aliases: map<string, seq<string>>) returns (r: seq<Row>)
      ensures r == SearchResults(items, query, aliases)
    {
      r := Search(query, aliases);
    }
  }
}
