# Inventory-form ingest and synthetic loader, in Dafny

This project models the two pieces of logic inside an inventory web service
that turns scanned inventory forms into rows of a relational table. It then
proves properties of that model.

- **Upload ingest** (`upload_pdf`, the POST branch in `app.py`). The request
  handles its uploaded files in order:
  - A file whose name does not end in `.pdf` ends the request with the
    failure page.
  - The target table is named after the document's first paragraph, with
    every space replaced by an underscore.
  - That table is dropped and re-created.
  - Each recognized table is rebuilt as a dense `row_count × column_count`
    grid. The grid starts filled with the integer `0`, and its cells are
    written in list order, so the last write wins.
  - Every grid row after the header is inserted as one nine-column
    inventory record. A clash on the unique `inventory_id` or `name` is an
    error.
  - After each insert, every row without an embedding gets one.
  - After each insert, every row whose description equals the inserted
    row's description gets that description's Spanish translation.
- **Synthetic loader** (`load_synthetic_data.py`):
  - `generate_descriptions` grows a set of stripped names from chat replies
    until the set holds 50, and sorts it. It then merges name→description
    batches with dictionary-update semantics until 50 names are described.
  - `generate_unique_ids` keeps the first `n` stripped, non-empty lines of a
    reply.
  - `insert_synthetic_data` builds one record per described name. Its id is
    `"IN"` plus the parsed id, and its numbers are bounded random draws.
    Price and inventory value are written as `$` amounts, with value = price
    × stock.
  - Each record is inserted with `ON CONFLICT DO NOTHING` and committed.
  - An embedding pass then fills the NULL embeddings.
  - A translation pass then stores a translation on every row, keyed by
    `inventory_id`.

Files (all modules are top level):

- `wrappers.dfy`: `Option` and `Result`.
- `text.dfy`: the Python string operations the code relies on:
  - `str.strip` and `str.isspace`;
  - `split(sep)` and its inverse `join`;
  - `str(n)` and its parse back;
  - the code-point order `sorted` uses.
- `dict.dfy`: Python's insertion-ordered `dict`, as a list of pairs, with
  item assignment (`Put`) and `update` (`UpdateAll`).
- `store.dfy`: the inventory record and stored row, pure table operations
  on `seq<Row>`, and `class Database`. The class holds the tables a session
  sees (`tables`) and the tables as of the last COMMIT (`committed`). Its
  methods are the statements both programs issue.
- `ingest.dfy`: the upload handler.
  - Specification functions: `Reconstruct`, `RecordOf`, `IngestRow`,
    `IngestGrid`, `IngestTables` and `UploadFiles`. `GridPending`,
    `TablePending`, `TablesPending` and `UploadPending` give what the session holds,
    committed or not, when a loop stops at an error.
  - Imperative counterparts:
    - `BuildGrid` fills an `array2` in place.
    - `InsertTableRows`, `InsertDocumentTables`, `ReplaceTable` and
      `UploadPdf` issue the statements against a `Database`.
- `synthetic.dfy`: the synthetic loader.
  - Specification functions: `NamesAfter`, `MergedAfter`,
    `DescriptionRounds`, `ParseIds`, `SyntheticRecord`, `InsertSynthetic`,
    `TranslateEach` and `LoadSynthetic`.
  - Methods carrying the loops: `CollectNames`, `MergeDescriptions`,
    `InsertItems`, `TranslateAll` and `InsertSyntheticData`.

External services and inputs become parameters:

- The document-recognition result is a `Document` value: paragraphs, plus
  tables given as declared dimensions and a cell list.
- The embedding service, the translation service and the store's
  text-to-INTEGER conversion are function values in `Services`, or plain
  parameters.
- The chat replies are given as a finite sequence:
  - for the names phase, the reply texts;
  - for the descriptions phase, the key/value pairs the description
    pattern matched in each reply;
  - for the ids, one reply text.
- The random draws are a function from the loop index to a `Draw`, with a
  range precondition.

How the handler fails, as the code is written:

- A data row with fewer than nine entries raises an `IndexError` at
  `app.py` line 103 and ends the request. No row is skipped.
- A row with more than nine entries is accepted, and the extra entries are
  ignored.
- The drop (`app.py` line 65) and the re-creation (lines 76-93) are
  committed before the first insert. An error later in the same file ends
  the request with that table committed empty. The inserts and updates
  already issued for the file are not committed by this request. What
  becomes of them afterwards is listed under "## Left out".

## Model

| member | source | states |
|---|---|---|
| Text.StripIsTrimmedSlice | load_synthetic_data.py:43 | `strip()` returns a slice of its input with only whitespace cut from both ends, and the result is stripped |
| Text.StripFixesStripped | load_synthetic_data.py:43 | stripping a string without surrounding whitespace gives it back unchanged |
| Text.StripIdempotent | load_synthetic_data.py:89 | stripping twice is the same as stripping once |
| Text.StripStartSuffix | load_synthetic_data.py:43 | the left strip is a suffix of the input, preceded only by whitespace, and does not start with whitespace |
| Text.StripEndPrefix | load_synthetic_data.py:43 | the right strip is a prefix of the input, followed only by whitespace, and does not end with whitespace |
| Text.JoinSplitAfter | load_synthetic_data.py:40 | joining what `split` produces, from any point with any pending piece, rebuilds that piece followed by the rest of the input |
| Text.JoinSplit | load_synthetic_data.py:40 | `split(sep)` yields at least one piece, joining the pieces with `sep` gives back the original string, and no piece contains `sep` anywhere |
| Text.SplitAfterPiecesClean | load_synthetic_data.py:40 | when no separator starts inside the piece being built, none of the pieces contains the separator |
| Text.Split | load_synthetic_data.py:40 | `s.split(sep)`: scans left to right and cuts at each occurrence of `sep` |
| Text.Strip | load_synthetic_data.py:43 | `s.strip()`: drops the whitespace at both ends |
| Text.DigitChar | load_synthetic_data.py:117 | a digit value below 10 is written as a decimal digit character |
| Text.DigitValue | load_synthetic_data.py:117 | a decimal digit character reads back as a value below 10 |
| Text.Decimal | load_synthetic_data.py:117 | `str(n)` of a natural number is a non-empty string of digits with no leading zero (except "0") |
| Text.DigitRoundTrip | load_synthetic_data.py:117 | writing a digit and reading it back gives the digit |
| Text.DecimalRoundTrip | load_synthetic_data.py:119 | the decimal text of `n` reads back as `n` |
| Text.BelowTotal | load_synthetic_data.py:45 | the string order `sorted` uses relates every two strings one way or the other |
| Text.BelowAntisymmetric | load_synthetic_data.py:45 | two strings each ordered before the other are equal |
| Text.BelowTransitive | load_synthetic_data.py:45 | the string order is transitive |
| Dict.PutShape | load_synthetic_data.py:66 | assigning an existing key keeps the dict's size; a new key is appended at the end; keys already present keep their positions |
| Dict.PutKeepsKeys | load_synthetic_data.py:66 | assignment never shrinks the dict and keeps every key at its position |
| Dict.PutPresent | load_synthetic_data.py:66 | assigning a key already present keeps the dict's size |
| Dict.PutAbsent | load_synthetic_data.py:66 | assigning a missing key appends the pair at the end |
| Dict.GetPut | load_synthetic_data.py:66 | after `d[k] = v`, looking up `k` gives `v` and every other key gives what it gave before |
| Dict.PutDistinct | load_synthetic_data.py:66 | assignment keeps the keys distinct |
| Dict.PutKeys | load_synthetic_data.py:66 | after assignment, the keys are the old keys plus `k` |
| Dict.GetUpdateAll | load_synthetic_data.py:67 | after `update(e)`, a key takes its last value in `e` if `e` has it, and keeps its old value otherwise |
| Dict.UpdateAllKeys | load_synthetic_data.py:67 | `update` keeps the keys distinct, keeps every old key, and adds exactly the keys of `e` |
| Dict.KeysGet | load_synthetic_data.py:66 | a key is among the dict's keys exactly when looking it up finds a value |
| Dict.LastValueOfDict | load_synthetic_data.py:66 | with distinct keys, the last pair for a key carries its lookup value |
| Dict.GetAppend | load_synthetic_data.py:66 | appending a pair changes no existing key's lookup; a new key looks up the appended value |
| Dict.GetAbsent | load_synthetic_data.py:66 | a key not in the dict looks up nothing |
| Dict.LastValueKey | load_synthetic_data.py:66 | a list of pairs gives a value for a key exactly when the key is among its keys |
| Dict.Put | load_synthetic_data.py:66 | `d[k] = v`: replaces the value of a present key in place, appends a new key at the end |
| Dict.UpdateAll | load_synthetic_data.py:66-67 | `d.update(e)`: assigns the pairs of `e` in order; from the empty dict it is the comprehension at line 66 |
| Store.SameRecordsUnique | load_synthetic_data.py:95-96 | rewriting only derived columns keeps the UNIQUE constraints |
| Store.UniqueColumns | app.py:78-79 | the UNIQUE constraints hold exactly when neither the `inventory_id` column nor the `name` column holds a value twice |
| Store.InsertKeepsUnique | app.py:78-79 | adding a record that clashes on neither unique column keeps both columns unique |
| Store.InsertOrIgnoreAccounts | load_synthetic_data.py:123-134 | after `ON CONFLICT DO NOTHING` the record clashes with the table, being in it or blocked by a row that is, and an earlier clash stays |
| Store.ConflictsByRecords | load_synthetic_data.py:129 | whether a record clashes with a table depends only on its rows' inserted columns |
| Store.InsertOrIgnore | load_synthetic_data.py:123-134 | `INSERT … ON CONFLICT DO NOTHING`: on a clash the table is unchanged; otherwise exactly the record is appended, with NULL embedding and NULL Spanish description; uniqueness is kept |
| Store.EmbedNulls | load_synthetic_data.py:138-142 | the embedding pass fills every NULL embedding from the row's description, leaves embedded rows unchanged and touches no other column |
| Store.EmbedNullsNoOp | app.py:104-106 | on a fully embedded table the embedding pass changes nothing |
| Store.EmbedNullsIdempotent | app.py:104-106 | running the embedding pass twice is the same as running it once |
| Store.TranslateWhereDescription | app.py:111 | the Spanish description is set on exactly the rows with the given description; no other column changes |
| Store.TranslateWhereId | load_synthetic_data.py:152 | the Spanish description is set on exactly the rows with the given id; no other column changes |
| Store.TranslateWhereIdTouchesOne | load_synthetic_data.py:152 | with unique ids, the update by id changes exactly that one row, and only its Spanish description |
| Store.Database.constructor | app.py:26-27 | a session over committed tables whose unique columns hold; it sees exactly what is committed |
| Store.Database.Commit | app.py:66 | COMMIT makes the session's tables the committed ones |
| Store.Database.DropTable | app.py:65 | `DROP TABLE IF EXISTS` removes the table from the session; nothing is committed |
| Store.Database.CreateTable | app.py:76-90 | `CREATE TABLE` on a missing name adds it empty |
| Store.Database.CreateTableIfNotExists | load_synthetic_data.py:93-107 | an existing table is kept; a missing one is added empty |
| Store.Database.Select | load_synthetic_data.py:145-146 | a SELECT returns the session's rows, whose unique columns hold |
| Store.Database.Insert | app.py:100-103 | a plain INSERT succeeds exactly when the record clashes on neither unique column, and then appends it |
| Store.Database.InsertOnConflictDoNothing | load_synthetic_data.py:123-134 | the table becomes `InsertOrIgnore` of its rows; the constraints are kept |
| Store.Database.EmbedWhereNull | app.py:104-106 | the table becomes `EmbedNulls` of its rows |
| Store.Database.SetSpanishWhereDescription | app.py:111 | the table becomes `TranslateWhereDescription` of its rows |
| Store.Database.SetSpanishWhereId | load_synthetic_data.py:152 | the table becomes `TranslateWhereId` of its rows |
| Ingest.TableName | app.py:64 | the table name has the paragraph's length and no space; every space becomes an underscore and every other character is kept in place |
| Ingest.TableNameCollision | app.py:64 | two paragraphs give the same table name exactly when they agree position by position up to exchanging spaces and underscores |
| Ingest.IsPdfName | app.py:49 | `file.filename.endswith(".pdf")` |
| Ingest.LastWrite | app.py:95-97 | the entry at `(r, c)`: the content of the last cell at that position, or the sentinel `0` |
| Ingest.LastWriteWins | app.py:95-97 | a grid entry is the sentinel exactly when no cell has that position; otherwise it is the content of the last cell with that position |
| Ingest.Reconstruct | app.py:95-97 | the grid has `row_count` rows of `column_count` entries, each entry being the last write to it |
| Ingest.BuildGrid | app.py:95-97 | the in-place fill of a `row_count × column_count` array succeeds exactly when every cell index is in bounds, and then holds the reconstructed grid |
| Ingest.RecordOf | app.py:100-103 | a row maps to a record exactly when it has at least nine entries and the store accepts entries 4, 6, 7 and 8 as integers; field k is entry k; a short row fails with a column error |
| Ingest.RecordOfIgnoresExtraColumns | app.py:100-103 | entries past column 8 do not affect the record |
| Ingest.TextOf | app.py:100-103 | the value a TEXT column receives from a grid entry: its text, or "0" for the sentinel |
| Ingest.IntegerOf | app.py:100-103 | the value an INTEGER column receives from a grid entry: the store's conversion of its text, or 0 for the sentinel |
| Ingest.IngestRow | app.py:99-111 | one row iteration: INSERT the row's record (an error on a clash or a bad integer), embed the NULL embeddings, then translate every row with the inserted description |
| Ingest.IngestGrid | app.py:98-111 | the row loop over rows 1 to `n - 1`, stopping at the first error |
| Ingest.IngestTable | app.py:95-111 | one recognized table: an out-of-range cell is an error; otherwise the row loop over the reconstructed grid |
| Ingest.IngestTables | app.py:94-111 | the table loop: every recognized table in order into the same table, stopping at the first error |
| Ingest.UploadFiles | app.py:48-116 | the POST request: per file, the name check, the table name, the drop and re-create, then the ingest; it returns the response and the committed tables |
| Ingest.DataRecords | app.py:98-103 | when every data row of a grid maps, they give `row_count - 1` records, the i-th from grid row i+1 |
| Ingest.IngestRowAppends | app.py:99-111 | a successful row step appends exactly that row's record; a table whose rows are unique, embedded and carry their own description's translation stays so |
| Ingest.IngestGridAppends | app.py:98-111 | a successful row loop appends the grid's data records in row order, the header never among them |
| Ingest.IngestTableAppends | app.py:94-111 | a successful table contributes exactly `row_count - 1` records, the i-th mapped from grid row i+1, and leaves every row enriched |
| Ingest.IngestTableRecords | app.py:94-103 | a successful table appends exactly its data records |
| Ingest.IngestTablesRecords | app.py:94-103 | all recognized tables' records go, table after table, into the one named table |
| Ingest.IngestTablesEnriched | app.py:104-111 | a successful table loop keeps every row unique, embedded and translated with its own description |
| Ingest.IngestTablesAppends | app.py:94-111 | a successful document appends its tables' records in order and leaves every row enriched |
| Ingest.UploadReplacesTable | app.py:64-112 | uploading one good PDF replaces the named table by exactly the document's records, all enriched, and leaves every other table alone |
| Ingest.UploadFilesAppend | app.py:48-116 | processing files `a + b` is processing `a`, then `b` only if `a` succeeded |
| Ingest.UploadStopsAtNonPdf | app.py:48-49 | the first non-PDF name ends the request with the failure page; earlier files stay ingested and later ones are not touched |
| Ingest.IngestGridFailureSticks | app.py:98-103 | once a row fails, the rest of the grid changes neither the outcome nor the rows left pending |
| Ingest.IngestTablesFailureSticks | app.py:94 | once a table fails, later tables change neither the outcome nor the rows left pending |
| Ingest.GridPending | app.py:98-111 | the rows the session holds after the row loop, failed or not: those the last successful row left; on success the loop's result |
| Ingest.TablePending | app.py:95-111 | the rows the session holds after one table, failed or not; an out-of-range cell adds nothing; on success the table's result |
| Ingest.TablesPending | app.py:94-111 | the rows the session holds after the table loop, failed or not; on success the loop's result |
| Ingest.UploadPending | app.py:48-112 | the tables the session sees when the request ends, with the failing document's table holding the rows its loop issued |
| Ingest.GridPendingIsPrefix | app.py:98-111 | what a failed row loop leaves pending is the result of a successful shorter run of the same loop |
| Ingest.UploadPendingCommitted | app.py:26-27 | at the end of a request the session equals the committed state unless it ended in an exception; even then they hold the same tables and differ in at most one, which is committed empty |
| Ingest.InsertGridRow | app.py:99-111 | one iteration of the row loop against the session: it fails with the row step's error and leaves the session's tables as they were, or the table becomes the row step's result |
| Ingest.ReadRow | app.py:99 | reading row r of the filled array gives row r of the reconstructed grid |
| Ingest.InsertNextRow | app.py:98-111 | after row r the session's table is what the row loop through row r leaves pending and no other table changes; on success that is the loop's result, on an error the table as it was, and the error is the loop's |
| Ingest.InsertTableRows | app.py:95-111 | building the grid and running the row loop leaves the table as `IngestTable` says, or returns its error with the table holding `TablePending`, the rows issued before the failing row |
| Ingest.InsertNextTable | app.py:94-111 | after table j the session's table is what the table loop through table j leaves pending and no other table changes; on success that is the loop's result, otherwise the loop's error is returned |
| Ingest.InsertDocumentTables | app.py:94-111 | the table loop leaves the table as `IngestTables` says, or returns its error with the table holding `TablesPending`, the rows issued before the failing row |
| Ingest.RecreateTable | app.py:65-93 | drop, create and commit leave the named table committed empty and everything else as it was |
| Ingest.ReplaceTable | app.py:64-112 | one document: on success the table is committed as exactly the document's ingest; on an error it is committed empty while the session holds the rows issued before the failing row |
| Ingest.UploadPdf | app.py:44-116 | the response and committed tables are those of `UploadFiles` over the uploaded files, and the session's tables are `UploadPending` |
| Synthetic.FirstReaching | load_synthetic_data.py:28 | the round a `while len(...) < 50` loop stops at lies between its start and the last round |
| Synthetic.FirstReachingStop | load_synthetic_data.py:28 | every round before the stop is below the target; the stop round reaches it or is the last |
| Synthetic.NameRounds | load_synthetic_data.py:28 | the names loop uses between `k` and all of the replies |
| Synthetic.Pieces | load_synthetic_data.py:40-43 | one reply's contribution: the stripped pieces of `split(", ")` |
| Synthetic.StrippedAll | load_synthetic_data.py:41-43 | the set of the stripped pieces |
| Synthetic.NamesAfter | load_synthetic_data.py:27-43 | the name set after `k` replies: the union of the stripped `", "`-pieces of each reply |
| Synthetic.NameCounts | load_synthetic_data.py:28 | there is one set size per round, plus one for the start |
| Synthetic.NameCountsAre | load_synthetic_data.py:28 | entry j is the size of the name set after j replies |
| Synthetic.StrippedAllStripped | load_synthetic_data.py:40-43 | every name added from a reply is stripped |
| Synthetic.NamesGrow | load_synthetic_data.py:41-43 | the name set only grows from round to round |
| Synthetic.NamesStripped | load_synthetic_data.py:40-43 | the name set holds only stripped pieces of `", "`-split replies |
| Synthetic.NameRoundsStop | load_synthetic_data.py:28 | before the names loop stops, every set was under 50; where it stops, the set has 50 or the replies ran out |
| Synthetic.NamesRunOut | load_synthetic_data.py:28 | the names loop ends under 50 exactly when even all replies give fewer than 50 names |
| Synthetic.InsertSorted | load_synthetic_data.py:45 | inserting a new name into a strictly sorted list keeps it strictly sorted and adds exactly that name |
| Synthetic.SortNames | load_synthetic_data.py:45 | `sorted(list(s))` is strictly increasing and holds exactly the set's elements, once each |
| Synthetic.AddPieces | load_synthetic_data.py:40-43 | one reply adds exactly its stripped `", "`-pieces to the set, all of them stripped |
| Synthetic.GatherNames | load_synthetic_data.py:27-43 | the names loop stops where `NameRounds` says, holding the set after that many replies |
| Synthetic.CollectNames | load_synthetic_data.py:27-45 | names phase: every earlier round is under 50; running out means even all replies give fewer; the result is sorted, duplicate-free and stripped, and holds exactly the accumulated set |
| Synthetic.DescriptionRounds | load_synthetic_data.py:49 | the descriptions loop merges between `k` and all of the batches |
| Synthetic.MergedAfter | load_synthetic_data.py:47-68 | the description dict after `k` batches: each batch's pairs form a dict (line 66) that updates the previous one (line 67) |
| Synthetic.DescriptionRoundsNext | load_synthetic_data.py:49 | while the dict is under 50 and batches remain, the loop runs one more batch |
| Synthetic.DescriptionRoundsHere | load_synthetic_data.py:49 | at 50 keys, or with no batch left, the loop stops |
| Synthetic.DescriptionCounts | load_synthetic_data.py:49 | there is one dict size per batch, plus one for the start |
| Synthetic.DescriptionCountsAre | load_synthetic_data.py:49 | entry j is the size of the dict after j batches |
| Synthetic.MergedDistinct | load_synthetic_data.py:66-67 | the merged dict never repeats a key |
| Synthetic.MergedPrefix | load_synthetic_data.py:67 | a merge keeps every earlier key and never shrinks the dict |
| Synthetic.MergeStep | load_synthetic_data.py:66-67 | after batch k a name is described exactly when it was before or batch k has it; batch k's last value wins, otherwise the old one stays |
| Synthetic.MergedGrow | load_synthetic_data.py:49-68 | the dict never shrinks as batches are merged |
| Synthetic.DescriptionRoundsStop | load_synthetic_data.py:49 | before the descriptions loop stops, every dict was under 50; where it stops, it has 50 or the batches ran out |
| Synthetic.DescriptionsRunOut | load_synthetic_data.py:49 | the loop ends under 50 exactly when even all batches give fewer than 50 keys |
| Synthetic.MergeBatch | load_synthetic_data.py:63-67 | one iteration turns the dict after batch b-1 into the dict after batch b |
| Synthetic.MergeDescriptions | load_synthetic_data.py:47-69 | descriptions phase: the batch counter ends one past the rounds used; the dict is the merge of those rounds, has distinct keys, and every earlier round was under 50; running out means the dict stays under 50 with all batches used |
| Synthetic.CleanLines | load_synthetic_data.py:89 | cleaning keeps at most as many lines as it is given |
| Synthetic.ParseIds | load_synthetic_data.py:89-90 | `generate_unique_ids`: strip the reply, split it at newlines, keep the stripped non-empty lines, and take the first `n` |
| Synthetic.CleanLinesClean | load_synthetic_data.py:89 | every kept line is stripped and non-empty |
| Synthetic.CleanLinesAppend | load_synthetic_data.py:89 | cleaning works line by line, so it distributes over concatenation |
| Synthetic.CleanLinesMembers | load_synthetic_data.py:89 | a string is kept exactly when it is non-empty and is the strip of some line |
| Synthetic.ParseIdsPrefix | load_synthetic_data.py:89-90 | `generate_unique_ids` returns at most `n` ids, an in-order prefix of the clean lines, all of them when fewer than `n` exist; each id is stripped and non-empty |
| Synthetic.DollarsRoundTrip | load_synthetic_data.py:117 | `f"${n}"` reads back as the amount `n` |
| Synthetic.SyntheticRecordFields | load_synthetic_data.py:115-122 | the record's id is `"IN"` plus the parsed id; its price reads back as the drawn price and its value as price × stock; every number lies in its `randint` range |
| Synthetic.SyntheticRecord | load_synthetic_data.py:115-122 | the record of one loop body: `"IN"` + id, name, description, `$` price, stock, `$` of price × stock, and the three reorder draws |
| Synthetic.Built | load_synthetic_data.py:114-122 | the record the loop builds for its `j`-th name, paired with `ids[j]` and the `j`-th draw |
| Synthetic.Synthesized | load_synthetic_data.py:114-122 | a record is one the loop builds for one of its first `n` names |
| Synthetic.Dollars | load_synthetic_data.py:117 | `f"${n}"` |
| Synthetic.TranslateEachProgress | load_synthetic_data.py:147-153 | with unique ids, after `n` iterations the first `n` rows carry their own description's translation, later rows are untouched, and no other column changes |
| Synthetic.TranslatePassCompletes | load_synthetic_data.py:145-153 | the full translation pass translates every row (already translated ones too) and changes no inserted column or embedding |
| Synthetic.InsertSynthetic | load_synthetic_data.py:113-136 | the insert loop over the first `n` names in dict order: `InsertOrIgnore` of the `i`-th record, built with `ids[i]` and the `i`-th draw |
| Synthetic.AddsStep | load_synthetic_data.py:123-134 | one insert adds, if anything, the fresh row of the next name's record, and keeps the rows added before |
| Synthetic.InsertSyntheticAdds | load_synthetic_data.py:113-136 | every row the insert loop adds is the fresh row of a record built for one of the names |
| Synthetic.InsertSyntheticGrows | load_synthetic_data.py:113-136 | the insert loop keeps the constraints and the rows it started with as a prefix, and adds at most one row per name |
| Synthetic.InsertSyntheticCovers | load_synthetic_data.py:113-136 | no built record is lost: each is in the table after the loop, or a row with its id or name already was |
| Synthetic.CoversStep | load_synthetic_data.py:123-134 | one insert accounts for the next name's record and keeps the earlier records accounted for |
| Synthetic.TranslateEach | load_synthetic_data.py:147-153 | the translation loop over the first `n` rows of a snapshot: each writes the translation of its description on the row with its `inventory_id` |
| Synthetic.Enrich | load_synthetic_data.py:138-153 | the embedding pass over NULL embeddings, then the translation loop over a snapshot of the result |
| Synthetic.LoadSynthetic | load_synthetic_data.py:111-153 | a complete run: the insert loop over every name, then `Enrich` |
| Synthetic.InsertSyntheticKeepsUnique | load_synthetic_data.py:113-136 | the insert loop keeps both unique columns unique and the existing rows as a prefix; it adds at most one row per name, each added row is the fresh row (both derived columns NULL) of the record built for one of the names, and every built record is in the table or clashes with a row that is |
| Synthetic.EnrichCompletes | load_synthetic_data.py:138-153 | after the embedding and translation passes every row is embedded and translated, the inserted columns are unchanged, and uniqueness holds |
| Synthetic.LoadSyntheticEnriched | load_synthetic_data.py:111-153 | a complete load keeps the old rows' records as a prefix; it adds at most one row per name, each holding the record built for one of the names (id `"IN"` + `ids[j]`, value price × stock by SyntheticRecordFields); every built record is in the table or clashes with a row that is; every row ends unique, embedded and translated |
| Synthetic.InsertNext | load_synthetic_data.py:114-136 | one iteration of the insert loop (insert then commit) advances the table from `count` to `count + 1` synthesized records and touches no other table |
| Synthetic.InsertItems | load_synthetic_data.py:113-136 | the insert loop commits one conflict-tolerant insert per name in dict order; it completes exactly when there are at least as many ids as names, and otherwise stops after the last id |
| Synthetic.TranslateNext | load_synthetic_data.py:148-153 | one iteration of the translation loop (update by id, then commit) advances the table by one snapshot row |
| Synthetic.TranslateAll | load_synthetic_data.py:145-153 | the translation loop over the SELECT snapshot leaves the table as the full `TranslateEach` pass over that snapshot |
| Synthetic.EnrichTable | load_synthetic_data.py:138-153 | the embedding pass, its commit and the translation loop leave the table as `Enrich` of its rows |
| Synthetic.LoadItems | load_synthetic_data.py:112-153 | with enough ids the table ends as `LoadSynthetic`; otherwise the inserts before the missing id stay committed and nothing is enriched |
| Synthetic.DescriptionsReachTarget | load_synthetic_data.py:21-69 | a successful `generate_descriptions` returns at least 50 distinct names, and no earlier batch reached 50 |
| Synthetic.Descriptions | load_synthetic_data.py:21-69 | what `generate_descriptions` returns: the merged dict at the first batch reaching 50 names, or the phase whose replies ran out |
| Synthetic.GenerateDescriptions | load_synthetic_data.py:21-69 | the two loops return what `Descriptions` specifies, including which phase ran out of replies |
| Synthetic.PrepareTable | load_synthetic_data.py:93-108 | `CREATE TABLE IF NOT EXISTS` plus commit keeps an existing table's rows and otherwise commits an empty one |
| Synthetic.InsertSyntheticData | load_synthetic_data.py:92-153 | the whole loader: only the named table changes; it ends with the error of the phase that ran out, or with the rows `InsertSynthetic`/`LoadSynthetic` specify for `2 × len(descriptions)` requested ids |

## Left out

- Flask routing, templates, the GET branch's table listing, and blob
  storage (`app.py` lines 47, 50-59 and 113-118 apart from the control
  flow): web and storage I/O. The response is reduced to success page,
  failure page, or the exception that ends the request.
- Document recognition (`app.py` lines 62-63): its result is an input
  value, and a service failure is not modelled.
- The chat service and chat history (`load_synthetic_data.py` lines 23-38,
  50-61 and 72-88): the replies are inputs. The loops wait forever while
  the service keeps answering below 50; here the replies are a finite list,
  and running out is reported as `NamesExhausted` or
  `DescriptionsExhausted`.
- The regular-expression extraction of key/value pairs
  (`load_synthetic_data.py` lines 63-64): the matched pairs of each reply are
  the input.
- `random.randint` (`load_synthetic_data.py` lines 116-122): the draws are a
  function of the loop index with a range precondition.
- The embedding and translation services: total functions of the
  description. Their retries, delays and transient failures are not
  modelled, and neither is the vector's 1536-dimension check. Embeddings are
  opaque sequences of reals that nothing inspects.
- Postgres extensions and `azure_ai.set_setting` (`app.py` lines 67-75):
  configuration with no effect on the tables.
- SQL text construction:
  - No quoting or injection is modelled: a description containing a quote
    character, interpolated at `app.py` lines 109 and 111, would break
    that statement.
  - No identifier folding, truncation or validity check is applied to
    table names.
  - The store is keyed by the derived name verbatim.
- The `created_at` column and its timestamp default: a clock.
- Concurrency: requests are modelled one at a time. `app.run(debug=True)`
  (`app.py` line 157) serves requests on threads, and they all share the
  one connection and cursor of `app.py` lines 26-27. Another request's
  `conn.commit()` (lines 66 and 112) can commit this request's pending
  rows partway through, and a failed statement in another request aborts
  this request's transaction too. `Ingest.UploadPdf` holds only when no
  other request runs at the same time.
- Row order of an unordered SELECT: the model orders a table by
  insertion. The SELECT at `load_synthetic_data.py` line 145 has no
  ORDER BY, so the database may return the rows in any order. Only the
  intermediate states of `Synthetic.TranslateEachProgress` ("the first n
  rows") depend on that order. The final table does not: each update is by
  a unique id and touches one row (`Store.TranslateWhereIdTouchesOne`), so
  the updates commute.
- Synthetic.InsertSyntheticData: the `ALTER TABLE bellevue ADD COLUMN …` at
  `load_synthetic_data.py` line 109 names a fixed table rather than
  `table_name`. Two failures follow that the model does not capture:
  - When no table named `bellevue` exists, that statement raises. The
    loader stops after creating its table, before generating or inserting
    anything.
  - When `table_name` is another table without the column, the update at
    line 152 raises instead.

  The model assumes the Spanish-description column exists on every table,
  as the upload handler's own `ALTER TABLE` at `app.py` line 92 ensures for
  its tables. Table columns are not part of the model.
- Ingest.UploadPdf: after an exception the session keeps the statements
  the failing document issued before the failing row (`UploadPending`). The
  model does not follow them further, and does not distinguish how the
  request failed:
  - `NoParagraph` (`app.py` line 64) is raised before this file issues any
    statement.
  - `CellOutOfRange` (line 97) and `TooFewColumns` (line 103) are Python
    `IndexError`s. They leave the transaction open. The inserts and updates
    already issued stay pending on the shared connection (lines 26-27). The
    next request's `conn.commit()` at line 66 makes them durable, unless
    that request drops the same table first.
  - `DuplicateKey` and `NotAnInteger` are raised by the store. They abort
    the transaction. The model keeps the earlier statements in the session
    and does not record the abort. Nothing calls rollback, so every later
    statement on that connection fails, the next request included.
- Ingest.InsertGridRow, Ingest.InsertNextRow, Ingest.InsertTableRows,
  Ingest.InsertNextTable, Ingest.InsertDocumentTables and
  Ingest.ReplaceTable: on an error the session's tables are the rows
  issued before the failing row. An aborted transaction is not told apart
  from an open one, as for `UploadPdf` above.
- Ingest.RecreateTable, Ingest.ReplaceTable and Ingest.UploadPdf require
  `db.tables == db.committed`, a session with nothing pending and not
  aborted. The source does not guarantee that after an earlier request
  ended with an exception.
- Ingest.RecordOf: integer columns are converted by a service function
  (`toInteger`), not by Postgres's own text-to-integer cast rules. The
  sentinel `0` becomes the text "0" in a TEXT column and the integer 0 in
  an INTEGER column.
- Synthetic.InsertItems: the `IndexError` raised when ids run out is the
  result `complete == false`. The inserts committed before it are kept, and
  no enrichment follows.
- Integers are unbounded. The drawn numbers are small, so no overflow
  arises in the source either.
