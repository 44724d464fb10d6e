# Igloo, modelled and proved in Dafny

Igloo is a query server that federates PostgreSQL tables and Parquet files under
DataFusion. This project models three parts of it and proves what they promise:

1. **Pushdown and the scan.** Filters become PostgreSQL `WHERE` text, a statement
   is assembled around them, PostgreSQL answers it, and DataFusion filters and
   limits the rows again. The translation is modelled character by character, and
   so is a reader written from PostgreSQL's lexical rules (PostgreSQL
   documentation, sections 4.1.1, 4.1.2.1, 7.6 and 9.1; ISO/IEC 9075-2, sections
   5.2, 5.3, 8.2 and 8.4). Both engines have their own evaluator. The main result
   is that the emitted text, as PostgreSQL reads and answers it, changes no query's
   answer, under every collation, on tables with any columns and among filters of
   any kind, exactly if PostgreSQL takes the pushed constants; what else is asked is
   asked of the pushed filters alone. For any list of filters the exact condition is
   proved too, and for tests of columns whose type has its own equality it is spelled
   out.
2. **The result cache.** A tick-stamped map refines a recency list; keys come from
   a quote-aware normalizer; the two query handlers and the polling listener
   interleave on the shared cache.
3. **The catalog.** Introspected columns become ordered table schemas, get
   unqualified aliases, and are registered with the engine.

## How the files fit together

| files | contents |
|---|---|
| `Wrappers`, `Decimal`, `Values` | options, strings, decimal spelling, values, rows and three-valued logic |
| `SqlLexer`, `SqlSyntax`, `Postgres` | PostgreSQL's side: tokens, syntax trees, reader, evaluator |
| `DataFusion`, `Pushdown`, `PostgresTable` | the source's side: expressions, translator, statement, scan |
| `PushdownGrammar`, `PushdownText`, `PushdownMeaning`, `ScanText`, `ScanColumns`, `PushdownPlan` | the proofs: what is translated, fragments read back, same truth values, statements read back, the columns returned, same answers |
| `ExactPushdown`, `TextLikeAnswers`, `TableTypes` | for any filters, exactly when pushdown is safe; exactly when tests of uuid, jsonb and blank-padded columns are safe; how introspected columns are compared and which of them a scan sees |
| `NormalizeQuery`, `Lru`, `Eviction`, `Cache`, `CdcSync`, `Serving`, `SyncRuns`, `Freshness` | cache keys, recency list and its laws, which key goes, the cache class, the listener, the interleavings, whole syncs inside them, exactly when a hit can be stale |
| `Catalog`, `Aliases`, `SchemaPriority`, `Config`, `Registration`, `LegacyName` | grouping and ordering, aliases, what the schema list decides, validation, registration, the legacy alias |

## Where the code and what is said of it differ

The model follows the code; each point has a lemma.

- The module text of `src/pushdown.rs` asks of the server a superset of the matching
  rows (lines 13-21) and takes text equality to be always safe to push (lines 48-53).
  The translator looks no further than a column's name, so it also pushes tests of
  uuid, json, jsonb and blank-padded columns, whose types PostgreSQL has its own rules
  for. Three things follow.
  - PostgreSQL refuses the whole statement over a constant the type does not accept:
    any text on a json column, which has no equality, and any text that is no uuid on
    a uuid column. The query then fails with pushdown on and answers with it off
    (`RefusedPushdownLosesTheAnswer`, `JsonColumnRefusesEveryTest`,
    `UuidColumnRefusesOtherText`).
  - If the constants are accepted, `=` and `IN` give a superset
    (`PushedKeepsAccepted`); `<>` and `NOT IN` need not: on a `character(n)` column
    every constant shorter than `n` has a row that the local filter keeps and
    PostgreSQL drops (`CharacterColumnLosesExcludedRows`).
  - `src/postgres_table.rs` (lines 96-114) lets a limit travel past filters that were
    all translated, because translations are faithful. Here they are not: with jsonb
    `1.0` equal to `1`, a pushed `= '1'` under any positive limit can lose its row
    (`JsonbColumnLosesRowsUnderALimit`). As the same text says, the planner offers no
    such limit; the scan would push it if it did.

  `TextLikeTestIsSafeExactlyWhenHarmless` has the exact condition for the answer of
  one such test to stay what it is, for every server, column, test and limit;
  `PushdownIsSafeExactlyWhenHarmless` has it for every list of filters.
- A test in `src/server.rs` (lines 1153-1176) takes normalization to be idempotent on
  any text. The lexical fallback is not on `a;;`; it is exactly when no second `;` is
  left (`IdempotentExactlyWithoutSecondSemicolon`).
- `quote_ident` is said to make any name safe. An empty name, or one with a NUL, is no
  delimited identifier: the statement then reads as nothing at all, and reads back
  exactly otherwise (`StatementReadsBack`).
- The text of `src/datafusion_engine.rs` (lines 100-101) says that a `my_pg_table` of
  the primary source keeps the legacy alias. It does; and if the primary source has
  none, the code gives the alias to the first source that has one
  (`LegacyNameGoesToTheFirst`, `LaterSourceCanHaveTheLegacyName`).
- Clearing the cache on an event does not make every later hit fresh: a query that
  executes across the clear stores its old result after it
  (`StraddlerCanServeStaleResult`). In every reachable world a stale hit can follow,
  before the next clear, exactly if an entry or a query in flight may have read the
  data before a covered change (`StaleHitIsPossibleExactlyFromSomethingBehind`); over
  a whole run, exactly if some clear left such a query in flight
  (`HitsAreFreshExactlyWhenNoneIsLeftBehind`).

## Model

| member | source | states |
|---|---|---|
| SqlLexer.QuotedInvertsDoubled | src/pushdown.rs:278-283 | a quoted body whose quotes are doubled ends exactly at its closing quote and decodes to the original text, for every text and whatever follows |
| SqlLexer.LexIdent | src/postgres_table.rs:27-29 | a quoted name in front of any text is one delimited identifier of that name, or unreadable exactly when the name is empty or has a NUL |
| SqlLexer.LexStr | src/pushdown.rs:278-283 | an escaped string in front of any text is one string constant with the original content |
| Decimal.ReadDigitsInvertsDigits | src/pushdown.rs:240-247 | the decimal spelling of a number has that number's value |
| Pushdown.TranslateInListLoop | src/pushdown.rs:167-178 | the loop that stops at the first element without a spelling yields exactly the all-or-nothing translation |
| PushdownGrammar.TranslatesExactlyTheGrammar | src/pushdown.rs:36-58 | a filter is translated exactly if it is in the documented grammar, spelled out without the translator's own tests |
| PushdownGrammar.GrammarIsHandedToScan | src/postgres_table.rs:219-239 | with pushdown on the planner is told to hand over exactly the filters of the grammar, with pushdown off none |
| PushdownText.FragmentReads | src/pushdown.rs:77-178 | a filter translates exactly when it has an intended predicate, and its fragment, spliced before any text that breaks it, reads as exactly that predicate's tokens |
| PushdownText.InListReads | src/pushdown.rs:167-178 | an `IN`/`NOT IN` fragment reads as the column, the negation and every literal in order |
| PushdownText.ColumnComparisonReads | src/pushdown.rs:108-135 | a comparison fragment reads as column, operator and constant |
| PushdownText.LexLiteral | src/pushdown.rs:237-258 | a literal's spelling reads as a constant of the same value, negative numbers included |
| SqlSyntax.ReadsPrimary | src/pushdown.rs:77-105 | the reader recovers every predicate, nested conjunctions included, from its tokens and leaves the rest |
| SqlSyntax.ReadsStatement | src/postgres_table.rs:55-91 | the reader recovers every well-formed statement of both forms from its tokens |
| PushdownMeaning.ComparisonMeansTheSame | src/pushdown.rs:108-162 | past the string-ordering gate a comparison has the same three-valued result on both engines |
| PushdownMeaning.FlippedComparison | src/pushdown.rs:194-205 | exchanging the operands and flipping the operator never changes a comparison, NULLs included |
| PushdownMeaning.MembershipMeansTheSame | src/pushdown.rs:164-178 | Arrow's `IN` and the standard's disjunction of equalities agree on every value and list |
| PushdownMeaning.IntendedMeansTheSame | src/pushdown.rs:77-205 | every translated well-typed filter on plain columns has the original's truth value on every conforming row, for any collation order |
| PushdownMeaning.PlainTestsAreNeverRefused | src/pushdown.rs:77-178 | PostgreSQL takes every pushed filter that tests plain columns only |
| PushdownMeaning.FilterTextMeansTheSame | src/pushdown.rs:66-105 | the text itself, read back, is taken by PostgreSQL and has the original's truth value on every row; it reads back exactly when its column names are legal |
| PushdownMeaning.PushedTextOrderingLosesRows | src/pushdown.rs:145-162 | the gate is needed: against any non-empty string, every ordering comparison has a row the filter accepts and a total order of text, bytes reversed, rejects |
| PushdownMeaning.PushedDictionaryOrderingLosesRows | src/pushdown.rs:145-153 | under a dictionary collation, `<` and `<=` against any string starting with a small letter would lose a row |
| PushdownMeaning.PushedKeepsAccepted | src/pushdown.rs:13-21 | the superset standard: of every row the filter accepts, PostgreSQL keeps it exactly if it does not refuse the test, text-like columns included, unless one excludes values with `<>` or `NOT IN` |
| PushdownMeaning.TextLikeTestMeans | src/pushdown.rs:107-178 | on a text-like column the local engine asks for the very constant, PostgreSQL for a value equal to one, NULL being unknown to both |
| PushdownMeaning.TestIsFaithfulExactlyOnPlainColumns | src/pushdown.rs:116-133 | a pushed comparison, null test or membership is taken and has the local truth value on every server with sound equality exactly when its column is plain; `character(n)` tells the engines apart |
| ScanText.StatementReadsBack | src/postgres_table.rs:39-91 | the emitted statement reads back as exactly the intended projection, relation, conjuncts and limit, on both forms, and reads at all exactly when its names are legal |
| ScanText.LexConjuncts | src/postgres_table.rs:62-66 | fragments joined by `AND` read as that list of conjuncts |
| ScanText.LexCountHead | src/postgres_table.rs:72-76 | the head of the `COUNT(*)` form reads as its fixed key words in front of any source |
| PostgresTable.Provider.Scan | src/postgres_table.rs:248-467 | a scan returns what the server answers to the scan text, or fails; rows of the column form are counted as fetched even if they do not decode |
| ScanColumns.ScanReturnsTheColumnsAskedFor | src/postgres_table.rs:248-318 | an index out of range sends nothing and fails; else the text asks for the columns at the given indices, or all, in order, and the answer is the selected rows with just those columns' values, or for no columns their number |
| PostgresTable.Provider.constructor | src/postgres_table.rs:180-194 | a new provider has fetched no rows |
| PushdownPlan.ScanAnswers | src/postgres_table.rs:248-308 | what PostgreSQL answers to the emitted text, whatever the filters: nothing exactly if it refuses a pushed conjunct, and else the rows its conjuncts keep, in order, under the pushed limit, projected or counted |
| PushdownPlan.PushdownChangesNoAnswer | src/postgres_table.rs:248-283 | answering the emitted text, then filtering and limiting locally, is filtering and limiting the table locally, exactly if no pushed constant is refused, with pushdown on or off; pushed filters must be well typed and exclude no text-like values, or test plain columns if a positive limit travels |
| PushdownPlan.RefusedPushdownLosesTheAnswer | src/postgres_table.rs:309-312 | for every filter list with a refused conjunct the query has no answer with pushdown on and the local answer with it off |
| PushdownPlan.QueryIsUnchangedByPushdown | src/postgres_table.rs:226-246 | the same for a whole query whose filters are classified first, when a limit is offered only to a scan that sees every filter |
| PushdownPlan.LimitTravelsExactlyWhenAllTranslate | src/postgres_table.rs:117-123 | the statement carries the limit exactly when every filter was translated |
| PushdownPlan.LimitPastAnUnseenFilterLosesRows | src/postgres_table.rs:93-116 | the limit rule is needed: for all filters that tell two rows apart and every positive limit, a limit before the filters can lose the whole answer |
| PushdownPlan.SelectionLosesNothing | src/postgres_table.rs:93-123 | re-filtering and limiting what the scan selected is filtering and limiting the whole table, under the same condition on the pushed filters |
| PushdownPlan.PushdownFetchesNoMore | src/postgres_table.rs:310-318 | a scan with pushdown, failing exactly if a conjunct is refused, never fetches more rows than the same scan without |
| PushdownPlan.CountFormCountsTheColumnForm | src/postgres_table.rs:290-308 | the `COUNT(*)` form reports the number of rows the column form returns, and fails exactly when it does |
| PushdownPlan.WhereIsFilter | src/postgres_table.rs:260-271 | on plain columns the pushed `WHERE` keeps exactly the rows the translated filters accept |
| PushdownPlan.WhereKeepsAccepted | src/pushdown.rs:13-21 | filtering what the pushed `WHERE` keeps is filtering the table, for any filter list with the pushed ones in it |
| ExactPushdown.PushdownIsSafeExactlyWhenHarmless | src/postgres_table.rs:93-123 | for every list of filters, server, table and limit: pushdown gives the local answer on every table exactly when no conjunct is refused and no accepted row is dropped and, under a limit that travels, no rejected row kept where some row is accepted |
| TextLikeAnswers.TextLikeTestIsSafeExactlyWhenHarmless | src/postgres_table.rs:93-123 | a pushed test of a text-like column leaves the answer alone on every table exactly when the type accepts its constants and the limit is zero, or the type equates no other text it shows with a constant, or the test is `=`/`IN` with no limit or no constant that is ever shown |
| TextLikeAnswers.ConstantsAsShownAreSafe | src/pushdown.rs:48-53 | constants written as the type shows its values are safe where the type accepts what it shows and distinct shown texts are distinct values |
| TextLikeAnswers.CharacterColumnLosesExcludedRows | src/pushdown.rs:48-53 | on `character(n)` a pushed `<>` or `NOT IN` with shorter constants loses rows under every limit but zero |
| TextLikeAnswers.JsonbColumnLosesRowsUnderALimit | src/postgres_table.rs:105-110 | on jsonb a pushed `= '1'` loses rows under every positive limit |
| TextLikeAnswers.JsonColumnRefusesEveryTest | src/pushdown.rs:48-53 | on a json column every pushed test makes the query fail, which without pushdown gives the local answer |
| TextLikeAnswers.UuidColumnRefusesOtherText | src/pushdown.rs:48-53 | on a uuid column so does a test with a constant that is no uuid |
| TextLikeAnswers.UuidColumnIsSafeForShownText | tests/catalog.rs:365-372 | on a uuid column tests with constants in canonical form are safe under every limit |
| TableTypes.VisibleTypesAreTheStoredOnes | src/catalog.rs:207-274 | the columns a scan sees have the types PostgreSQL compares them by, whatever other columns the table has |
| TableTypes.VisibleSchemaIsTheFields | src/catalog.rs:64-105 | that schema is the catalog's table schema, field by field and type by type |
| TableTypes.TypeNamesAreMapped | src/catalog.rs:64-104 | the sixteen types, under either name and in any letter case, are mapped alike, the SQL name deciding first, and nothing else is mapped |
| TableTypes.StampsAre | src/catalog.rs:109-122 | a field is stamped exactly for uuid, json and jsonb, with the small-letter name |
| TableTypes.IntrospectedTablesAreHosted | src/catalog.rs:207-274 | every introspected table meets what the pushdown results ask of the database |
| TableTypes.BlankPaddedLooksLikeText | src/catalog.rs:109-122 | a blank-padded column and a plain text column can have the same Arrow field, stamp included |
| NormalizeQuery.NormalizeLexicalLoop | src/cache_layer.rs:45-94 | the character loop yields the tokens of the stripped text with one space between them |
| NormalizeQuery.TokensLoseOnlyUnquotedWhitespace | src/cache_layer.rs:59-92 | splitting loses nothing but unquoted whitespace |
| NormalizeQuery.CollapsedKeepsTokens | src/cache_layer.rs:41-44 | normalized text has the tokens of the stripped input, quoted text verbatim |
| NormalizeQuery.KeysAgreeExactlyOnTokens | src/cache_layer.rs:45-94 | two texts share a lexical key exactly when their stripped token lists are equal |
| NormalizeQuery.KeysAgreeExactly | src/cache_layer.rs:31-40 | two texts of one statement each share a key exactly when the canonical statements are equal, texts of statement lists free of the separator exactly when the lists are, unparsed texts exactly when their tokens are |
| NormalizeQuery.EqualKeysAskTheSame | src/cache_layer.rs:31-40 | what two texts of one key have in common, in every combination of parsed and unparsed; lists that differ in the last statement alone never share one |
| NormalizeQuery.WhitespaceIsWhiteSpace | src/cache_layer.rs:61-65 | what counts as white space is the 25 code points of the Unicode property |
| NormalizeQuery.SurroundingsAreStripped | src/cache_layer.rs:53-54 | white space around a text and one semicolon after it are dropped, and nothing else |
| NormalizeQuery.QuotedTextIsKept | src/cache_layer.rs:70-89 | a stretch between two single or two double quotes goes into its token as it is, white space and all |
| NormalizeQuery.WordIsKept | src/cache_layer.rs:66-75 | so does a word without quotes and white space |
| NormalizeQuery.WhiteSpaceSeparates | src/cache_layer.rs:61-65 | white space outside quotes, however much, ends the current token |
| NormalizeQuery.CollapseIsIdempotent | src/cache_layer.rs:56-93 | the whitespace-collapsing loop alone is idempotent |
| NormalizeQuery.IdempotentExactlyWithoutSecondSemicolon | src/cache_layer.rs:53-93 | the whole normalizer is idempotent on a text exactly when the stripped text does not end in `;` |
| NormalizeQuery.DoubledSemicolonIsNotStable | src/cache_layer.rs:53-54 | on `a;;` normalizing twice differs from normalizing once |
| CacheLayer.Cache.constructor | src/cache_layer.rs:139-160 | a new cache represents the empty recency list |
| CacheLayer.Cache.Get | src/cache_layer.rs:162-201 | a get returns and does what the recency list does: a live hit moves to the front with its age kept, an expired entry is removed |
| CacheLayer.Cache.Set | src/cache_layer.rs:203-232 | a set puts the key in front and, for a new key at capacity, drops the last of the list |
| CacheLayer.Cache.FindLru | src/cache_layer.rs:213-218 | the least stamp, found in any iteration order, is the last of the recency list |
| CacheLayer.Cache.Clear | src/cache_layer.rs:236-241 | clearing removes every entry and no count |
| CacheLayer.Cache.Len | src/cache_layer.rs:243-245 | the length is that of the recency list |
| CacheLayer.Cache.IsEmpty | src/cache_layer.rs:247-249 | empty exactly when the recency list is |
| CacheLayer.Cache.Stats | src/cache_layer.rs:251-260 | the counters and the number of entries |
| CacheLayer.LeastStampIsLast | src/cache_layer.rs:210-222 | stamps are distinct, so the evicted key is unique whatever the iteration order |
| CacheLayer.TouchRepresents | src/cache_layer.rs:174-179 | re-stamping an entry with the next tick moves it to the front of the list |
| Lru.RunIsBounded | src/cache_layer.rs:212-222 | over every history the cache holds at most its capacity and no key twice |
| Lru.HitAnswersLastSet | src/cache_layer.rs:162-189 | a hit in any history answers with the most recent set of its key, no clear since, at most the time to live after that set |
| Lru.PresentKeyIsAnsweredExactlyInTime | src/cache_layer.rs:169-189 | a key in the cache is answered exactly until the time to live has passed since its last set |
| Lru.TouchedKeySurvives | src/cache_layer.rs:210-231 | a key set, or got and answered, by whatever operation, stays until at least the capacity of distinct other keys were touched, unless expired or cleared |
| Eviction.SetEvictsTheLeastRecentlyUsed | src/cache_layer.rs:203-231 | after every history a set puts nothing out unless its key is new and the cache full; then exactly the present key whose last set or answered get lies furthest back |
| Eviction.ListIsInOrderOfLastUse | src/cache_layer.rs:174-231 | after every history the recency list is in the order of each key's last set or answered get |
| Eviction.GetDropsOnlyAnExpiredKey | src/cache_layer.rs:181-197 | a get puts out no key but its own, exactly if it was there and is not answered |
| Lru.LargerCacheIncludesSmaller | src/cache_layer.rs:162-241 | on one history a larger cache always holds the smaller one's entries, in the same order |
| Lru.LargerCacheAnswersMore | src/cache_layer.rs:162-201 | and answers every get the smaller one answers, with the same value |
| Lru.CountersAddUp | src/cache_layer.rs:162-260 | hits are the answered gets and misses the others, expirations the gets that found an entry and no answer; inserted entries are alive, evicted, expired or cleared |
| CdcSync.CdcListener.ReadNewLocalEvents | src/cdc_sync.rs:92-116 | the loop takes exactly the new readable files of the listing whose name has the extension json, in order |
| CdcSync.CdcListener.Sync | src/cdc_sync.rs:39-67 | a sync returns the number of new events, empties the cache if there is one, and else leaves it alone |
| CdcSync.CdcListener.constructor | src/cdc_sync.rs:26-31 | a new listener has processed nothing |
| CdcSync.EventsAreCountedOnce | src/cdc_sync.rs:101-115 | each event path is counted once, and a path is taken exactly if it is json and readable in the listing, or was taken before |
| CdcSync.JsonFilesAre | src/cdc_sync.rs:104 | the event files are those named `x.json` in any directory, `x` not empty |
| CdcSync.ReturnsSumToProcessed | src/cdc_sync.rs:33-67 | over any series of syncs the return values sum to the number of processed paths |
| CdcSync.UnreadableStaysPending | src/cdc_sync.rs:106-112 | an unreadable event is not taken, and the first listing that reads it takes it |
| Serving.RunKeepsInv | src/server.rs:117-144 | in every interleaving, entries and in-flight queries that started after the last invalidation reflect the data of that instant, and entries have distinct keys |
| Serving.HitsAreOwnAndRecent | src/server.rs:229-261 | a hit answers a parameterless SELECT or WITH with the result of a text that asks the same, stored since the last invalidation and within one time to live |
| Serving.CacheIsForReadsOnly | src/server.rs:100-109 | a query may use the cache exactly if it has no parameters and is white space, then SELECT or WITH in any letter case, then the end or no ASCII letter |
| Serving.EveryLookupIsAccountedFor | src/server.rs:117-144 | in every run each lookup is a hit, or an execution that ended once or is still in flight |
| Serving.StaleHitsAreStraddlers | src/cdc_sync.rs:39-67 | a hit that misses a covered event's change comes from an execution of its own query that started before the last invalidation and was still in flight, to be stored, when it happened |
| Serving.HitsAreFreshWithoutStraddlers | src/cdc_sync.rs:33-67 | if no query that may store its result is in flight at any invalidation, every hit reflects every covered event, and when the listener is idle those are all marked events |
| Freshness.StaleHitIsPossibleExactlyFromSomethingBehind | src/server.rs:117-144 | in every reachable world a stale hit can be served before the next invalidation exactly if an entry, or a query in flight that may store, may have read the data before a covered change |
| Freshness.HitsAreFreshExactlyWhenNoneIsLeftBehind | src/cdc_sync.rs:39-67 | from no instant of a run can a stale hit be served exactly if no invalidation of the run left such a query in flight |
| SyncRuns.SyncCoversWhatItMarks | src/cdc_sync.rs:39-67 | in every run, a sync that marked an event ends at an instant, after its last mark, when the cache is empty and all it marked is covered, with one invalidation; one that marked nothing invalidates nothing |
| SyncRuns.UninterruptedSyncIsTheListeners | src/cdc_sync.rs:39-67 | a sync nothing interrupts processes the same paths, takes as many events and does the same to the cache as `CdcListener.Sync` |
| Serving.StraddlerCanServeStaleResult | src/server.rs:132-142 | for every cacheable query there is a run, ending idle, that serves a result missing a signalled change |
| Catalog.GroupColumnsIntoTables | src/catalog.rs:207-274 | the two loops yield the gathered tables that have a field |
| Catalog.GroupingConservesColumns | src/catalog.rs:204-274 | from table-ordered input there is exactly one schema per table with a typed column, its fields exactly those columns in order |
| Catalog.OrderingSorts | src/catalog.rs:276-291 | the order is a permutation, sorted by schema priority then name, stable on ties |
| SchemaPriority.OrderFollowsTheSchemaList | src/catalog.rs:276-291 | a later table's schema is never listed before an earlier one's, so unlisted schemas come last, and within a schema names never fall in byte order |
| SchemaPriority.LaterSchemaNeverGetsTheBareName | src/catalog.rs:314-333 | of two same-named tables of one source, the one whose schema is listed later or not at all never gets the bare alias |
| SchemaPriority.FirstSchemaGetsTheBareName | src/catalog.rs:314-333 | the first source with a table of a plain, unreserved name gives the bare alias to the one in the schema it lists first |
| Values.BytesLessIsLexicographic | src/catalog.rs:286-290 | one text is below another where they first differ, or where it ends |
| Catalog.StableOrderIsUnique | src/catalog.rs:286-290 | any stable sort by that comparison gives the same order |
| Aliases.ResolveAliases | src/catalog.rs:334-381 | the nested loops yield the aliases of the assignment below |
| Aliases.AssignedIsTheGreedyOne | src/catalog.rs:314-333 | the assignment is the one in which each table gets the first of its three candidates not reserved or assigned earlier, and none exactly when all three are taken |
| Aliases.AliasesNeverClash | src/catalog.rs:314-333 | aliases are pairwise distinct, never reserved, and the bare, schema-qualified or source-qualified name of their own table |
| Aliases.AppendingSourcesKeepsAliases | src/catalog.rs:329-333 | appending sources leaves every earlier alias as it was |
| Config.ValidateSourceName | src/config.rs:455-482 | no fault exactly for lowercase names of letters, digits and underscores that start with a letter and are not the engine's |
| Config.ValidateSources | src/config.rs:268-325 | no fault exactly for a non-empty list of uniquely named sources whose names and settings are valid, and else a fault of the first source that has one |
| Config.ValidSettingsMean | src/config.rs:283-322 | valid settings are a connection string by prefix or key-value form, and lists that are not empty and name nothing blank |
| Registration.CatalogHoldsItsTables | src/datafusion_engine.rs:142-147 | a source's catalog resolves exactly its tables, and building it fails exactly on a repeated name |
| Registration.EveryAliasHasItsProvider | src/datafusion_engine.rs:166-174 | looking up an alias's provider never fails, whatever was discovered |
| Registration.RegistrationIsTotalAndClashFree | src/datafusion_engine.rs:104-199 | with distinct unreserved sources nothing fails, every table keeps its canonical name on its own connection, every alias and the legacy name reach their own table, and nothing is shadowed |
| LegacyName.LegacyNameGoesToTheFirst | src/datafusion_engine.rs:162-197 | the legacy name is registered exactly if some discovered table is named `my_pg_table`; it is the first such table, by source and then by table, and the primary source's exactly if that has one |
| LegacyName.LaterSourceCanHaveTheLegacyName | src/datafusion_engine.rs:100-101 | of two sources of which only the later has such a table, the later gets the name |
| LegacyName.FirstNamedTakesTheBareName | src/catalog.rs:334-381 | the bare name `my_pg_table` stays free for the first table so named, which takes it |
| Registration.ValidatedSourcesAreRegistrable | src/config.rs:268-325 | validated configuration over table-ordered columns meets what registration needs |
| Registration.ValidatedConfigurationAlwaysRegisters | src/datafusion_engine.rs:104-160 | from validated configuration, canonical names resolve exactly for the tables with a supported column |
| Registration.SessionContext.constructor | src/datafusion_engine.rs:54-58 | the session starts with the Parquet table alone in the default schema |
| Registration.SessionContext.RegisterTable | src/datafusion_engine.rs:175 | registering fails exactly if the name is taken or the default schema is gone |
| Registration.SessionContext.BuildCatalog | src/datafusion_engine.rs:142-147 | the inner loop builds the source's catalog or fails on a repeated name |
| Registration.SessionContext.RegisterCanonical | src/datafusion_engine.rs:138-160 | the outer loop registers every source's catalog |
| Registration.SessionContext.RegisterAliases | src/datafusion_engine.rs:165-197 | the alias loop registers each alias, and the legacy name once |
| Registration.SessionContext.RegisterPostgresSources | src/datafusion_engine.rs:104-199 | the imperative registration succeeds and ends exactly as the specification does |

## Left out

- Floats in filters: their spelling is Rust's `Display` and their comparison is the libraries'; integers, booleans and text are modelled.
- Integer widths: literals are unbounded integers, which covers every width; PostgreSQL reads an out-of-range constant as numeric and compares it by value.
- Rows that do not fit their columns' types, and comparisons across types, are left arbitrary on both engines; the results about meaning ask translated filters, and only those, to be well typed, as DataFusion's planner leaves them.
- Which texts a text-like type accepts, shows and equates is a parameter, spelled out for uuid, json and `character(n)` only.
- Text equality under non-deterministic collations, which PostgreSQL has only by opt-in: the results ask for deterministic equality and allow any order.
- The server setting `standard_conforming_strings = off`, and PostgreSQL's truncation of names beyond 63 bytes, which no name it reported can reach.
- A limit beyond PostgreSQL's bigint, which the server refuses.
- Decoding rows into Arrow arrays (src/postgres_table.rs, lines 320-467): whether it succeeds is a parameter of the scan.
- The row order of an unordered limit: the same upstream order is assumed with and without pushdown.
- The SQL parser's canonical spelling: a parameter of `Normalize`; only the lexical fallback is modelled in full.
- Locking: each cache operation is one step, as the mutex makes it; the time an operation reads before it takes the lock is its parameter.
- Reading event files one by one is one step each; listing the directory is a parameter of `CdcListener.ReadNewLocalEvents`.
- More than one listener on one cache: the polling task runs one sync at a time.
- Catalog.OrderBySchemaPriority: sorts a value, so the update in place of the source's slice is not captured; its outcome is unique for any stable sort.
- Registration.SessionContext.RegisterPostgresSources: connecting and introspecting are its input, and the state left behind by a failed registration is not stated.
- The allowlist of tables, which the introspection query applies inside the database, and its warning.
- Case folding of names passed to the engine, and warnings for tables without an alias or a supported column.
- Parameter decoding, result encoding and type descriptions of the wire protocol (src/server.rs).
- src/adbc_postgres.rs, src/main.rs, src/errors.rs and src/crypto_metrics.rs: plumbing, input and output, and fixed statements.
