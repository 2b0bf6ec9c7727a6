# Phenix Warehouse Bot — search, store and ingestion core in Dafny

The Phenix Warehouse Bot answers warehouse staff on Telegram: a text message is
either a storage-location address (such as `A-01-02-000`), an article number
or free text naming a product, and the bot replies with the product's name,
address, balance and unit. Its stock lives in a SQLite table refilled from an
Excel export. This project models the parts of the bot that decide what is
stored and what is answered:

- `search.dfy` (module `Search`): the search canonicaliser `normalize_for_search`
  (lower case, expansion of word-bounded decimal weights into grams, removal of
  everything outside `[а-яa-z0-9]`), the alias expander
  `expand_query_with_aliases` and `tokenize_query`.
- `db_manager.dfy` (module `Database`): the `items` table as a class
  `DBManager` holding a sequence of rows and the AUTOINCREMENT counter, with
  `clear_all`, `insert_many`, `get_by_address`, the three-way `search`
  (everything / exact article / free text with the acceptance rule and the
  20-row cap), and `search_by_name`.
- `excel_parser.dfy` (module `ExcelParser`): `clean_article` (leftmost
  standalone integer) and `parse_and_save` over an abstract sheet: the column
  checks, the drop of unnamed rows, the row mapping and the clear-then-insert.
- `handlers.dfy` (module `Handlers`): the message handler `search_product`:
  stripping, the address-shape guard, the placeholders, the listing and the
  "more items" hint.
- `text.dfy` (module `Text`), `seqs.dfy` (module `Seqs`) and `wrappers.dfy`
  (module `Wrappers`): the character classes, `str.strip`, digit strings,
  `' '.join`, an order-preserving filter and the Option/Result types they share.

The alias table is a parameter (`map<string, seq<string>>`). The way a
quantity is printed (Python's `str` of a float) is a parameter
`fmt: real -> string`. Whether the Excel file exists is a parameter.

Points where the code, and so the model, behaves in a way its comments or its column checks do not suggest:

- The docstring of `normalize_for_search` (utils/search.py:11) describes the
  weight expansion as `0.9 → 0.9 900`, but `normalize_for_search("0.9")` is
  `"09900"`: the weight is expanded to `0.9900`, without a space, and the dot
  is then removed with the other punctuation.
- The gram value is truncated (`int(...)`), never rounded.
- At ingestion, `or None` and `or "упак"` fire only on a falsy cell that is
  not NaN. `pd.read_excel` reads an empty cell, and a cell holding the empty
  string, as NaN under its default NA values. So the falsy cells that remain
  are a numeric `0` or a boolean `FALSE`. A NaN cell is truthy and is stored as
  NULL. So an empty unit is stored as NULL, and the default unit for NULL is
  applied only when a reply is rendered.
- Import is not all-or-nothing. `clear_all` commits before `insert_many` runs.
  A name cell that is falsy but not NaN, such as `0`, survives the NaN filter
  and becomes NULL. The insert then violates NOT NULL and is rolled back, and
  the table is left empty, not as it was.
- A missing name or `Итого` column fails with a KeyError before the explicit
  missing-columns check is reached.

## Model

| member | source | states |
|---|---|---|
| Text.Lower | utils/search.py:16 | lower-casing changes each character on its own and keeps the length, word characters and digits |
| Text.Strip | bot/handlers.py:119 | no longer than the input; empty exactly when the input is all white space; otherwise it starts and ends with a non-space; and it is a slice of the input with only white space before and after it |
| Text.StripIdempotent | bot/handlers.py:119 | stripping a stripped text changes nothing |
| Text.NatToString | utils/search.py:26 | `str(int)`: a non-empty digit string without a leading zero whose value is the number |
| Text.Contains | database/db_manager.py:105 | definition of `token in norm_name`: the token occurs as a contiguous piece of the name; used by Database.MatchedTokens and Database.AcceptedIffAllTokens |
| Text.Join | utils/search.py:59 | `' '.join`: no words give the empty text and one word gives itself; the joined keywords are checked in Search.KeywordsExample |
| Search.Normalize | utils/search.py:6-39 | every output character is in `а-я`, `a-z` or `0-9`; an empty text gives `""` |
| Search.NormalizeIdempotent | utils/search.py:16-37 | normalising a normalised text changes nothing |
| Search.NormalizeWithoutDot | utils/search.py:16-37 | a text without dots is only lowered and filtered: no weight expansion can fire |
| Search.ExpandFromWithoutDot | utils/search.py:34 | the weight substitution leaves a dot-free text unchanged |
| Search.Thousandths | utils/search.py:26 | the gram value is the truncation of (integer part + fraction) × 1000: `g ≤ value × 1000 < g + 1` |
| Search.Grams | utils/search.py:26 | the same truncation bound stated on the two digit strings of a decimal |
| Search.WeightMatchAt | utils/search.py:34 | a reported match is a word-bounded `\d+\.\d+` starting at that position |
| Search.WeightMatchAtComplete | utils/search.py:34 | every word-bounded decimal starting at a position is the match reported there |
| Search.ExpandWeight | utils/search.py:22-31 | definition of the `expand_weight` callback for a match that holds a dot: the decimal followed by its gram value, with no separator; its facts are stated in Search.ExpandIsolatedDecimal |
| Search.ExpandFrom | utils/search.py:34 | definition of `re.sub` with the weight pattern, scanning left to right from a position and resuming after each match; its facts are stated in Search.ExpandFromWithoutDot and Search.ExpandIsolatedDecimal |
| Search.ExpandWeights | utils/search.py:34 | definition of the whole substitution; its facts are stated in Search.ExpandIsolatedDecimal, Search.NormalizeWithoutDot and Search.GluedDecimalNotExpanded |
| Search.ExpandIsolatedDecimal | utils/search.py:22-34 | an isolated decimal `i.f` is rewritten as `i.f` followed by its gram value |
| Search.NormalizeDecimal | utils/search.py:6-39 | an isolated decimal `i.f` normalises to `i`, `f`, then the gram value, with no dot |
| Search.LowerDecimal | utils/search.py:16 | lower-casing leaves a decimal unchanged |
| Search.DecimalCleanup | utils/search.py:37 | the cleanup of a decimal followed by digits removes only the dot |
| Search.DecimalExpandExample | utils/search.py:22-34 | `0.9` is rewritten as `0.9900` |
| Search.NormalizeExample | utils/search.py:6-39 | `normalize("0.9") == "09900"` |
| Search.GramsExample | utils/search.py:26 | the gram value of `0.9` is `900` |
| Search.GluedDecimalNotExpanded | utils/search.py:34 | a decimal directly followed by a letter has no word boundary and is not matched |
| Search.NormalizeGluedExample | utils/search.py:6-39 | `normalize("0.9кг") == "09кг"`: not expanded |
| Search.FilterDropsSeparator | utils/search.py:37 | a removed character at the end vanishes from the cleaned text |
| Search.FilterJoinsAround | utils/search.py:37 | removing one separator joins the kept text on both sides |
| Search.AliasKey | utils/search.py:55 | the alias key is the concatenation of the query's digits, so all digits |
| Search.AliasForm | utils/search.py:55-60 | definition of the alias lookup: the normalised, space-joined keywords of the key when the key is known, otherwise nothing; its facts are stated in Search.ExpandQuery |
| Search.ExpandQuery | utils/search.py:42-64 | tokens are non-empty and at most two; the normalised query is a token exactly when non-empty; any other token is the alias form of the digit key; the alias form is present when the key is in the map and the form is non-empty |
| Search.ExpandQueryExample | utils/search.py:55-62 | query `200` with alias `["Мисо", "паста"]` gives `{"200", "мисопаста"}` |
| Search.KeywordsExample | utils/search.py:59-60 | joined and normalised alias keywords `["Мисо", "паста"]` give `мисопаста` |
| Search.CodeNormalizeExample | utils/search.py:47 | `200` is its own normal form |
| Search.CodeKeyExample | utils/search.py:55 | `200` is its own alias key |
| Search.TokenizeQuery | utils/search.py:67-72 | `[normalize(q)]` when that is non-empty, else `[]` |
| Search.TokenizeIsExpandWithoutAliases | utils/search.py:42-72 | with no aliases the expander yields exactly the tokenizer's tokens |
| Database.FirstWithAddress | database/db_manager.py:64-66 | `None` exactly when no row has the address; otherwise the first row that has it |
| Database.ArticleMatches | database/db_manager.py:81-86 | exactly the rows whose article equals the query, with their multiplicities, in table order |
| Database.IsBlank | database/db_manager.py:76 | definition of `not query.strip()`; it is never true for a query the handler passes, as Handlers.NeverListsEverything states |
| Database.IsDigitString | database/db_manager.py:81 | definition of `query.isdigit()` (a non-empty run of digits); its use is stated in Database.DBManager.Search |
| Database.Accepts | database/db_manager.py:106 | definition of the acceptance rule on the token count and the matched count; its facts are stated in Database.AcceptedIffAllTokens |
| Database.RowAccepted | database/db_manager.py:101-107 | definition of one loop step's test: the row has a name and its normalised name passes the acceptance rule; its facts are stated in Database.AcceptedIffAllTokens |
| Database.AcceptedRows | database/db_manager.py:99-107 | definition of every accepted row in table order, before the cap; its facts are stated in Database.FreeTextShape and Database.ScanStep |
| Database.FreeTextResults | database/db_manager.py:92-112 | definition of the free-text path: no rows for no tokens, else the first 20 accepted rows; its facts are stated in Database.FreeTextShape and Database.DBManager.ScanFreeText |
| Database.SearchResults | database/db_manager.py:70-112 | definition of `search`: blank lists the table, digits match the article exactly, anything else is free text; Database.DBManager.Search is proved equal to it |
| Database.MatchedTokens | database/db_manager.py:105 | the matched tokens are tokens of the query |
| Database.AcceptedIffAllTokens | database/db_manager.py:101-107 | with one or two tokens a row is accepted exactly when it has a name whose normal form contains every token |
| Database.FreeTextShape | database/db_manager.py:92-109 | at most 20 rows; exactly min(accepted, 20) of them; an order-preserving subsequence of the table; each accepted; `[]` for no tokens |
| Database.FreeTextRowsContainAllTokens | database/db_manager.py:92-107 | every free-text result has a name containing all the query's tokens, so the `>= 2` branch never decides |
| Database.ItemsOfAppend | database/db_manager.py:52-56 | after an insert the table holds the old values followed by the inserted ones, in list order |
| Database.AppendKeepsValid | database/db_manager.py:52-56 | appending named rows with fresh increasing ids keeps the table well formed |
| Database.ScanStep | database/db_manager.py:100-107 | one step of the scan appends the row exactly when it is accepted |
| Database.ScanCapReached | database/db_manager.py:108-109 | stopping at the 20th accepted row yields the first 20 accepted rows |
| Database.ScanFinished | database/db_manager.py:99-112 | a full scan with fewer than 20 accepted rows yields all of them |
| Database.DBManager.constructor | database/db_manager.py:13-16 | opens a well-formed table as it was stored |
| Database.DBManager.ClearAll | database/db_manager.py:36-39 | the table is empty afterwards; the id counter is kept |
| Database.DBManager.InsertMany | database/db_manager.py:41-62 | empty list: nothing changes; a NULL name: failure with the NOT NULL message and nothing changes; otherwise the rows are appended in order with fresh ids |
| Database.DBManager.GetByAddress | database/db_manager.py:64-68 | returns the first row with the address, `None` exactly when there is none |
| Database.DBManager.Search | database/db_manager.py:70-112 | blank query: every row; all-digit query: exact article match; otherwise the free-text results of the expanded tokens |
| Database.DBManager.ScanFreeText | database/db_manager.py:96-112 | the scanning loop returns the first 20 accepted rows in table order |
| Database.DBManager.SearchByName | database/db_manager.py:114-116 | the same results as `search` |
| ExcelParser.LeftmostStandalone | parsers/excel_parser.py:22 | a reported position starts a standalone digit run, and no standalone run starts earlier |
| ExcelParser.StandaloneRunEnd | parsers/excel_parser.py:22 | a standalone run covers the whole digit run it starts |
| ExcelParser.LeftmostFacts | parsers/excel_parser.py:22-24 | the search from the start finds the leftmost standalone run, and fails exactly when there is none |
| ExcelParser.CleanArticle | parsers/excel_parser.py:14-26 | definition of `clean_article`; its facts are stated in ExcelParser.CleanArticleFacts |
| ExcelParser.CleanArticleFacts | parsers/excel_parser.py:14-26 | NaN gives `None`; otherwise `None` exactly when the stripped text has no standalone digit run, and a value is the leftmost such run |
| ExcelParser.LeadingRunArticle | parsers/excel_parser.py:19-24 | a trimmed text that opens with a standalone run yields that run |
| ExcelParser.CleanArticleExample | parsers/excel_parser.py:15 | `'917 / СВ917Т'` gives `'917'` |
| ExcelParser.NoStandaloneInWord | parsers/excel_parser.py:22-26 | a text of word characters not starting with a digit has no standalone run |
| ExcelParser.CleanArticleGluedExample | parsers/excel_parser.py:15-26 | `'СВ917Т'` gives `None`: the embedded number does not stand alone |
| ExcelParser.BuildRow | parsers/excel_parser.py:73-78 | definition of the tuple built for one sheet row; its facts are stated in ExcelParser.BuildRowFacts |
| ExcelParser.BuildRowFacts | parsers/excel_parser.py:73-78 | no text field is left empty; a falsy, non-NaN unit becomes `упак` while a NaN (empty) unit stays NULL; falsy or NaN address and name become NULL; the quantity is passed on |
| ExcelParser.BuildRows | parsers/excel_parser.py:71-78 | one prepared row per remaining sheet row |
| ExcelParser.BuildRowsAt | parsers/excel_parser.py:71-78 | the `k`th prepared row is built from the `k`th remaining sheet row |
| ExcelParser.PrepareRows | parsers/excel_parser.py:71-78 | the preparation loop yields the built rows in sheet order |
| ExcelParser.PreparedRows | parsers/excel_parser.py:50-78 | no more prepared rows than sheet rows |
| ExcelParser.NamedRowPrepared | parsers/excel_parser.py:50-78 | every sheet row with a name is prepared |
| ExcelParser.PreparedRowFromNamed | parsers/excel_parser.py:50-78 | every prepared row comes from a sheet row with a name |
| ExcelParser.PreInsertError | parsers/excel_parser.py:38-68 | definition of the checks before the insert, in source order: file, name column, `Итого` column, required columns; its facts are stated in ExcelParser.PreInsertErrorIff |
| ExcelParser.PreInsertErrorIff | parsers/excel_parser.py:38-68 | the import reaches the table exactly when the file exists and every required column is present |
| ExcelParser.NullNameIff | parsers/excel_parser.py:50-86 | the insert fails exactly when some sheet row has a falsy, non-NaN name (`Str("")`) |
| ExcelParser.NullNameFromSheet | parsers/excel_parser.py:50-75 | a NULL prepared name comes from a falsy, non-NaN sheet name |
| ExcelParser.NullNameToPrepared | parsers/excel_parser.py:50-75 | a falsy, non-NaN sheet name yields a NULL prepared name |
| ExcelParser.ParseAndSave | parsers/excel_parser.py:31-95 | errors before clearing leave the table unchanged; on success it returns the number of prepared rows and the table holds exactly them in order; an insert failure leaves the table empty |
| Handlers.IsAddressQuery | bot/handlers.py:128 | definition of the address guard: at least ten characters, a dash second, an address letter first; its use is stated in Handlers.AddressReply and Handlers.SearchReply |
| Handlers.RenderRow | bot/handlers.py:131-135 | definition of one row's text block (the same at lines 158-161); its facts are stated in Handlers.RenderRowNameLine, Handlers.RenderRowAddressLine and Handlers.RenderRowBalanceLine |
| Handlers.RenderList | bot/handlers.py:156-162 | definition of the listing: every result's block and a blank line, in result order; Handlers.RenderResults is proved equal to it and Handlers.RenderListPrefix orders it |
| Handlers.AddressAnswer | bot/handlers.py:129-146 | definition of the reply to an address-shaped query; its facts are stated in Handlers.AddressAnswerFacts |
| Handlers.ListingAnswer | bot/handlers.py:149-166 | definition of the reply to any other query; its facts are stated in Handlers.ListingAnswerIff |
| Handlers.Answer | bot/handlers.py:126-166 | definition of the dispatch on the address guard; its facts are stated in Handlers.AddressReply and Handlers.SearchReply |
| Handlers.ReplyFor | bot/handlers.py:117-166 | definition of what `search_product` sends, or nothing for a blank text; Handlers.SearchProduct is proved equal to it and Handlers.SilentIffBlank states when it is silent |
| Handlers.MoreHint | bot/handlers.py:165-166 | the hint is appended exactly when there are more than five results |
| Handlers.SearchProduct | bot/handlers.py:117-173 | the reply sent is the one `ReplyFor` gives: nothing for blank text, the address lookup for an address-shaped query, else the search reply |
| Handlers.RenderResults | bot/handlers.py:156-162 | the listing loop yields every result's block in order, each followed by a blank line |
| Handlers.SilentIffBlank | bot/handlers.py:119-121 | nothing is sent exactly when the text is all white space |
| Handlers.NeverListsEverything | bot/handlers.py:119-149 | the stripped, non-empty query never takes the search's list-everything branch |
| Handlers.MessagesAreOneLine | bot/handlers.py:144-151 | the fixed replies contain no line break |
| Handlers.BlockIsNotNotFound | bot/handlers.py:131-144 | a row's block never equals the not-found message |
| Handlers.AddressAnswerFacts | bot/handlers.py:129-146 | the not-found message exactly when no row has the address; otherwise the block of a row that has the address and has no earlier row with it |
| Handlers.AddressReply | bot/handlers.py:128-146 | an address-shaped query gets the not-found message exactly when no row has that address; otherwise the block of a row that has the address and has no earlier row with it |
| Handlers.AddressReplyIgnoresAliases | bot/handlers.py:128-146 | an address-shaped query never reaches the search |
| Handlers.RenderRowStartsWithName | bot/handlers.py:131-135 | a row's block starts with its name and a line break |
| Handlers.RenderRowNameLine | bot/handlers.py:131-135 | the first line is the name, or `—` when the name is NULL or empty |
| Handlers.RenderRowAddressLine | bot/handlers.py:132-135 | the second line is `Адрес: ` and the address, or `—` when the address is NULL or empty |
| Handlers.RenderRowBalanceLine | bot/handlers.py:133-135 | the block ends with `Остаток: `, then the balance, then the unit; a NULL quantity shows `—`; any other quantity, zero included, is shown by `fmt`; a NULL or empty unit shows as `упак` |
| Handlers.RenderListPrefix | bot/handlers.py:157-162 | each result's block follows the blocks of the results before it in the reply |
| Handlers.RenderListEnds | bot/handlers.py:162 | a non-empty listing ends with a line break |
| Handlers.ListingAnswerIff | bot/handlers.py:150-166 | the listing reply is the not-found message exactly when there are no results |
| Handlers.SearchReply | bot/handlers.py:149-166 | any other query gets the not-found message exactly when the search is empty, else every result and the hint |
| Handlers.HintBound | bot/handlers.py:165-166 | with at most 20 results the hint names between 1 and 15 further positions |
| Handlers.FreeTextCount | bot/handlers.py:149 | a free-text search returns at most 20 rows |
| Handlers.FreeTextHintBound | bot/handlers.py:149-166 | a free-text reply's hint names at most 15 further positions |

## Left out

- The Telegram transport (aiogram), polling, start-up, keyboards, the admin
  commands and callbacks, `ADMIN_IDS` gating and all logging: network and UI plumbing.
- Send failures in `search_product` and their fallback messages: they depend on the network.
- `message.text` being `None` (a non-text message): the model takes the text as a string.
- SQLite connection, cursor, commit and `close`/`__enter__`/`__exit__`:
  the table is a sequence field, and a `SELECT` without `ORDER BY` is taken to return rows in insertion order.
- Reading the workbook with pandas, `os.path.exists` and `pd.to_numeric`:
  the sheet arrives as its header and rows, with `Итого` already coerced to an
  optional number, and the file check is a boolean.
- Numeric values in the text columns of the sheet: text cells are modelled as strings or NaN.
- Falsy cells: the model's `Str("")` stands for every falsy cell that is not NaN (a `0` or `FALSE` cell after pandas' default NA parsing). The model does not tell these cells apart, and does not model `str()` of a falsy cell in `clean_article`.
- Search.Grams: computed with exact decimal arithmetic. The source's
  `int(float(num) * 1000)` can differ from the exact value in either direction.
  It gives 1 gram for `0.0009999999999999999999`, where the exact value is 0.
  Past 2^53 the difference is whole kilograms. It also overflows to an error
  for huge numbers (caught, returning the decimal unchanged).
- Full Unicode behaviour of `str.lower`, `\d`, `\b`, `str.isdigit` and `str.strip`:
  letters are restricted to ASCII and basic Cyrillic (U+0400–U+045F).
- `utils.aliases` (`ALIASES` and its reload): the alias table is a parameter.
- Handlers.RenderRowBalanceLine: how Python prints a float is the parameter `fmt`. So the model does not exclude a quantity whose printed form is itself `—`.
