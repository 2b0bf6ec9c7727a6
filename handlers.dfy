/**
 * The message handler `search_product` (`bot/handlers.py`): dispatch of a
 * user's text to the address lookup or to the search, and the reply text.
 * Sending is modelled as returning the one reply that is sent.
 */
module Handlers {
  import opened Wrappers
  import opened Text
  import opened Search
  import opened Database

  /** The first letters an address-shaped query may start with. */
  const AddressLetters := "ABCDEFGHKLMNORSTX"
  /** Shown for a missing or empty field. */
  const Placeholder := "—"
  const AddressNotFound := "Товар по адресу не найден."
  const NothingFound := "Ничего не найдено. Уточните запрос."
  /** The number of results after which the reply asks for a narrower query. */
  const ShownBeforeHint: nat := 5

  /** The address guard: at least ten characters, a dash second, an address letter first. */
  predicate IsAddressQuery(query: string)
  {
    |query| >= 10 && query[1] == '-' && query[0] in AddressLetters
  }

  /** `value or fallback` for a text column: NULL and the empty string fall back. */
  function TextOr(value: Option<string>, fallback: string): string
  {
    if value.Some? && value.value != "" then value.value else fallback
  }

  /** The balance: the quantity as `fmt` renders it, the placeholder for NULL (zero is shown). */
  function BalanceText(quantity: Option<real>, fmt: real -> string): string
  {
    match quantity
    case None => Placeholder
    case Some(q) => fmt(q)
  }

  /** The text block describing one row. */
  function RenderRow(row: Row, fmt: real -> string): string
  {
    TextOr(row.name, Placeholder) + "\nАдрес: " + TextOr(row.address, Placeholder)
    + "\nОстаток: " + BalanceText(row.quantity, fmt) + " " + TextOr(row.unit, DefaultUnit)
  }

  /** `s` ends with `suffix`. */
  predicate EndsWith(s: string, suffix: string)
  {
    |suffix| <= |s| && s[|s| - |suffix|..] == suffix
  }

  /** The first line of a row's block is its name, or the placeholder when the name is NULL or empty. */
  lemma RenderRowNameLine(row: Row, fmt: real -> string)
    ensures row.name.None? || row.name == Some("") ==> Placeholder + "\nАдрес: " <= RenderRow(row, fmt)
    ensures row.name.Some? && row.name.value != "" ==> row.name.value + "\nАдрес: " <= RenderRow(row, fmt)
  {
  }

  /**
   * The second line is `Адрес: ` and the address, or the placeholder when
   * the address is NULL or empty.
   */
  lemma RenderRowAddressLine(row: Row, fmt: real -> string)
    ensures var name := TextOr(row.name, Placeholder);
            row.address.None? || row.address == Some("") ==>
              name + "\nАдрес: " + Placeholder + "\nОстаток: " <= RenderRow(row, fmt)
    ensures var name := TextOr(row.name, Placeholder);
            row.address.Some? && row.address.value != "" ==>
              name + "\nАдрес: " + row.address.value + "\nОстаток: " <= RenderRow(row, fmt)
  {
  }

  /**
   * The last line is `Остаток: `, the balance and the unit: a NULL quantity
   * shows the placeholder, any other quantity, zero included, is shown by
   * `fmt`, and a NULL or empty unit shows as `упак`.
   */
  lemma RenderRowBalanceLine(row: Row, fmt: real -> string)
    ensures row.unit.None? || row.unit == Some("") ==> EndsWith(RenderRow(row, fmt), " " + DefaultUnit)
    ensures row.unit.Some? && row.unit.value != "" ==> EndsWith(RenderRow(row, fmt), " " + row.unit.value)
    ensures row.quantity.None? ==>
              EndsWith(RenderRow(row, fmt), "\nОстаток: " + Placeholder + " " + TextOr(row.unit, DefaultUnit))
    ensures row.quantity.Some? ==>
              EndsWith(RenderRow(row, fmt), "\nОстаток: " + fmt(row.quantity.value) + " " + TextOr(row.unit, DefaultUnit))
  {
    var unit := TextOr(row.unit, DefaultUnit);
    var head := TextOr(row.name, Placeholder) + "\nАдрес: " + TextOr(row.address, Placeholder);
    var balance := "\nОстаток: " + BalanceText(row.quantity, fmt);
    assert RenderRow(row, fmt) == head + (balance + " " + unit);
    assert RenderRow(row, fmt) == (head + balance) + (" " + unit);
    EndsWithAppend(head, balance + " " + unit);
    EndsWithAppend(head + balance, " " + unit);
  }

  /** A concatenation ends with its second part. */
  lemma EndsWithAppend(a: string, b: string)
    ensures EndsWith(a + b, b)
  {
    assert (a + b)[|a|..] == b;
  }

  /** The listing: every row's block followed by a blank line, in result order. */
  function RenderList(rows: seq<Row>, fmt: real -> string): string
  {
    if rows == [] then ""
    else RenderList(rows[..|rows| - 1], fmt) + RenderRow(rows[|rows| - 1], fmt) + "\n\n"
  }

  /** The hint appended after more than five results. */
  function MoreHint(count: nat): (r: string)
    ensures count <= ShownBeforeHint <==> r == ""
  {
    if count > ShownBeforeHint then "Ещё " + NatToString(count - ShownBeforeHint) + " позиций. Уточните запрос."
    else ""
  }

  /** The reply to an address-shaped query. */
  function AddressAnswer(rows: seq<Row>, query: string, fmt: real -> string): string
  {
    match FirstWithAddress(rows, query)
    case Some(row) => RenderRow(row, fmt)
    case None => AddressNotFound
  }

  /** The reply listing the results of a search. */
  function ListingAnswer(results: seq<Row>, fmt: real -> string): string
  {
    if results == [] then NothingFound
    else RenderList(results, fmt) + MoreHint(|results|)
  }

  /** The reply to a stripped, non-empty query. */
  function Answer(rows: seq<Row>, query: string, aliases: map<string, seq<string>>, fmt: real -> string): string
  {
    if IsAddressQuery(query) then AddressAnswer(rows, query, fmt)
    else ListingAnswer(SearchResults(rows, query, aliases), fmt)
  }

  /** The reply `search_product` sends for `text`, or `None` when it sends nothing. */
  function ReplyFor(rows: seq<Row>, text: string, aliases: map<string, seq<string>>, fmt: real -> string): Option<string>
  {
    var query := Strip(text);
    if query == "" then None else Some(Answer(rows, query, aliases, fmt))
  }

  /**
   * `search_product` against an open database: the address lookup for an
   * address-shaped query, otherwise `search`, and the listing built row by row.
   */
  method SearchProduct(db: DBManager, text: string, aliases: map<string, seq<string>>, fmt: real -> string)
    returns (reply: Option<string>)
    requires db.Valid()
    ensures reply == ReplyFor(db.items, text, aliases, fmt)
  {
    var query := Strip(text);
    if query == "" {
      return None;
    }
    if IsAddressQuery(query) {
      var item := db.GetByAddress(query);
      if item.Some? {
        return Some(RenderRow(item.value, fmt));
      }
      return Some(AddressNotFound);
    }
    var results := db.Search(query, aliases);
    if results == [] {
      return Some(NothingFound);
    }
    var response := RenderResults(results, fmt);
    response := response + MoreHint(|results|);
    return Some(response);
  }

  /** The listing loop of `search_product`: one block per result, appended in order. */
  method RenderResults(results: seq<Row>, fmt: real -> string) returns (response: string)
    ensures response == RenderList(results, fmt)
  {
    response := "";
    var i := 0;
    while i < |results|
      invariant 0 <= i <= |results|
      invariant response == RenderList(results[..i], fmt)
    {
      assert results[..i + 1][..i] == results[..i];
      response := response + RenderRow(results[i], fmt) + "\n\n";
      i := i + 1;
    }
    assert results[..i] == results;
  }

  /** Nothing is sent exactly when the text is all white space. */
  lemma SilentIffBlank(rows: seq<Row>, text: string, aliases: map<string, seq<string>>, fmt: real -> string)
    ensures ReplyFor(rows, text, aliases, fmt).None? <==> forall k :: 0 <= k < |text| ==> IsSpace(text[k])
  {
  }

  /** A row's block starts with its name, followed by a line break. */
  lemma RenderRowStartsWithName(row: Row, fmt: real -> string)
    ensures var name := TextOr(row.name, Placeholder);
            |name| < |RenderRow(row, fmt)| && RenderRow(row, fmt)[..|name|] == name
            && RenderRow(row, fmt)[|name|] == '\n'
  {
  }

  /**
   * The listing is built block by block: the listing of the first `k`
   * results, then the block of result `k`, is a prefix of the whole listing,
   * so every result appears once, in result order.
   */
  lemma {:induction false} RenderListPrefix(rows: seq<Row>, k: nat, fmt: real -> string)
    requires k < |rows|
    ensures RenderList(rows[..k], fmt) + RenderRow(rows[k], fmt) + "\n\n" <= RenderList(rows, fmt)
    decreases |rows|
  {
    var init := rows[..|rows| - 1];
    if k == |rows| - 1 {
      assert rows[..k] == init;
    } else {
      RenderListPrefix(init, k, fmt);
      assert init[..k] == rows[..k];
      assert init[k] == rows[k];
    }
  }

  /** A non-empty listing ends with a blank line. */
  lemma RenderListEnds(rows: seq<Row>, fmt: real -> string)
    requires rows != []
    ensures var l := RenderList(rows, fmt); |l| >= 2 && l[|l| - 1] == '\n'
  {
  }

  /**
   * The handler passes a stripped, non-empty query to `search`, so the
   * search's list-everything branch is never taken from here.
   */
  lemma NeverListsEverything(text: string)
    requires Strip(text) != ""
    ensures !IsBlank(Strip(text))
  {
    StripIdempotent(text);
  }

  /** The fixed replies are one line each. */
  lemma MessagesAreOneLine()
    ensures '\n' !in AddressNotFound && '\n' !in NothingFound
  {
  }

  /** A row's block is never mistaken for the not-found message. */
  lemma BlockIsNotNotFound(row: Row, fmt: real -> string)
    ensures RenderRow(row, fmt) != AddressNotFound
  {
    RenderRowStartsWithName(row, fmt);
    MessagesAreOneLine();
    assert '\n' in RenderRow(row, fmt);
  }

  /**
   * The address reply: the not-found message exactly when no row has the
   * address, and otherwise the block of the first row that has it.
   */
  lemma AddressAnswerFacts(rows: seq<Row>, query: string, fmt: real -> string)
    ensures AddressAnswer(rows, query, fmt) == AddressNotFound <==>
              forall k :: 0 <= k < |rows| ==> rows[k].address != Some(query)
    ensures (exists k :: 0 <= k < |rows| && rows[k].address == Some(query)) ==>
              exists j :: 0 <= j < |rows| && rows[j].address == Some(query)
                          && (forall k :: 0 <= k < j ==> rows[k].address != Some(query))
                          && AddressAnswer(rows, query, fmt) == RenderRow(rows[j], fmt)
  {
    match FirstWithAddress(rows, query)
    case Some(row) => BlockIsNotNotFound(row, fmt);
    case None =>
  }

  /**
   * An address-shaped query gets the block of the first row with that
   * address, or the not-found message when no row has it.
   */
  lemma AddressReply(rows: seq<Row>, text: string, aliases: map<string, seq<string>>, fmt: real -> string)
    requires IsAddressQuery(Strip(text))
    ensures ReplyFor(rows, text, aliases, fmt) == Some(AddressNotFound) <==>
              forall k :: 0 <= k < |rows| ==> rows[k].address != Some(Strip(text))
    ensures (exists k :: 0 <= k < |rows| && rows[k].address == Some(Strip(text))) ==>
              exists j :: 0 <= j < |rows| && rows[j].address == Some(Strip(text))
                          && (forall k :: 0 <= k < j ==> rows[k].address != Some(Strip(text)))
                          && ReplyFor(rows, text, aliases, fmt) == Some(RenderRow(rows[j], fmt))
  {
    assert ReplyFor(rows, text, aliases, fmt) == Some(AddressAnswer(rows, Strip(text), fmt));
    AddressAnswerFacts(rows, Strip(text), fmt);
  }

  /** An address-shaped query never reaches the search: its reply does not depend on the alias table. */
  lemma AddressReplyIgnoresAliases(rows: seq<Row>, text: string, aliases: map<string, seq<string>>,
                                   other: map<string, seq<string>>, fmt: real -> string)
    requires IsAddressQuery(Strip(text))
    ensures ReplyFor(rows, text, aliases, fmt) == ReplyFor(rows, text, other, fmt)
  {
  }

  /** The listing reply is the not-found message exactly when there are no results. */
  lemma ListingAnswerIff(results: seq<Row>, fmt: real -> string)
    ensures ListingAnswer(results, fmt) == NothingFound <==> results == []
  {
    if results != [] {
      RenderListEnds(results, fmt);
      MessagesAreOneLine();
      var l := RenderList(results, fmt);
      assert (l + MoreHint(|results|))[|l| - 1] == '\n';
    }
  }

  /**
   * Any other non-blank query gets the not-found message exactly when the
   * search finds nothing, and otherwise the listing of all results and the hint.
   */
  lemma SearchReply(rows: seq<Row>, text: string, aliases: map<string, seq<string>>, fmt: real -> string)
    requires Strip(text) != "" && !IsAddressQuery(Strip(text))
    ensures var results := SearchResults(rows, Strip(text), aliases);
            && (ReplyFor(rows, text, aliases, fmt) == Some(NothingFound) <==> results == [])
            && (results != [] ==> ReplyFor(rows, text, aliases, fmt) == Some(RenderList(results, fmt) + MoreHint(|results|)))
  {
    ListingAnswerIff(SearchResults(rows, Strip(text), aliases), fmt);
  }

  /** With at most twenty results the hint counts at most fifteen further positions. */
  lemma HintBound(count: nat)
    requires count <= MaxResults
    ensures MoreHint(count) == "" || exists n: nat :: 1 <= n <= MaxResults - ShownBeforeHint
                                      && MoreHint(count) == "Ещё " + NatToString(n) + " позиций. Уточните запрос."
  {
    if count > ShownBeforeHint {
      var n: nat := count - ShownBeforeHint;
      assert MoreHint(count) == "Ещё " + NatToString(n) + " позиций. Уточните запрос.";
    }
  }

  /** A free-text search returns at most twenty rows. */
  lemma FreeTextCount(rows: seq<Row>, query: string, aliases: map<string, seq<string>>)
    requires !IsBlank(query) && !IsDigitString(query)
    ensures |SearchResults(rows, query, aliases)| <= MaxResults
  {
    FreeTextShape(rows, ExpandQuery(query, aliases));
  }

  /**
   * A free-text query lists at most twenty rows, so the hint never counts
   * more than fifteen further positions.
   */
  lemma FreeTextHintBound(rows: seq<Row>, text: string, aliases: map<string, seq<string>>)
    requires Strip(text) != "" && !IsDigitString(Strip(text))
    ensures |SearchResults(rows, Strip(text), aliases)| <= MaxResults
    ensures var hint := MoreHint(|SearchResults(rows, Strip(text), aliases)|);
            hint == "" || exists n: nat :: 1 <= n <= MaxResults - ShownBeforeHint
                                          && hint == "Ещё " + NatToString(n) + " позиций. Уточните запрос."
  {
    NeverListsEverything(text);
    FreeTextCount(rows, Strip(text), aliases);
    HintBound(|SearchResults(rows, Strip(text), aliases)|);
  }
}
