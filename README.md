# A Dafny model of the ssdo/data record store

`Data.go` is a thin table-access layer over a relational database and a Redis
counter cache. A `Data` value describes one logical table by its name, its
primary-key column, its soft-delete flag column, an optional version column
and a default projection. Its point writes stamp metadata into the rows they
send:

- Insert forces the generated id and a delete flag of 0.
- Update and Delete address only live rows (rows whose delete flag is 0).
- On a versioned table, every write takes a fresh stamp from a per-table
  counter (`_DATA_VERSION_<table>`). The counter is seeded from
  `MAX(version)+1` when it is cold.

A `List` is a fluent query builder. It renders one `SELECT` in three modes:

- plain, which puts the soft-delete filter right after `WHERE`;
- count, which projects `COUNT(*)`;
- version, which drops the filter and adds the delete column to the projection.

`QueryByVersion` uses version mode for incremental sync. It resolves a ceiling
version, then sends the range `(minVersion, ceiling]` and returns a watermark.

## Layout

| file | module | contents |
|---|---|---|
| `wrappers.dfy` | `Wrappers` | `Option` |
| `text.dfy` | `Text` | Go `strings` functions used by the code: `Split`, `Join`, `TrimSpace`, `Contains`, and first-occurrence removal (`strings.Replace(s, p, "", 1)`) |
| `fields.dfy` | `Fields` | `parseFields`: `QuotedFields` is the specification, `ParseFields` is the loop |
| `store.dfy` | `Store` | values, records, rendered statements; the `Redis` counter cache and the `Db` relational store, as classes holding abstract state |
| `entity.dfy` | `Entity` | the `Data` class and its constructors; `getVersion`; the `Get`, `Insert`, `Update`, `UpdateBy` and `Delete` payloads, where clauses and state changes |
| `query.dfy` | `Query` | `Render` (what `parse` returns), the `List` class with its mutators and terminal operations, the version-range statement and the watermark |
| `scenario.dfy` | `Scenario` | the versioned-sync walk-through of `Data_test.go:79-103`, composed from the methods above |

## External collaborators as parameters

The model passes every outside dependency in explicitly:

- **Id generator.** `Config.IdMaker` is `idMaker: nat -> string`, the answer to the i-th call.
- **Executor outcomes.** Whether the executor and the record mapper succeed is a `bool` parameter (`insertOk`, `updateOk`, `queryOk`). `Count` takes the scalar the executor returns as a parameter.
- **UpdateBy's where clause.** The rows the whole statement selects are the parameter `matches`. That is the clause `` `deleted`=0 AND ` `` followed by the caller's text. Because AND binds tighter than OR, a caller's clause with a top-level OR lets soft-deleted rows through (`UpdateByOrEscapesFilter`). Without one, only live rows change (`UpdateByFilterHolds`).
- **Redis and the database.** They are the objects `rd: Redis` and `db: Db`. `Db` holds the rows of each table keyed by primary key, plus the list of write statements sent to it.
- **MAX(version).** `SELECT MAX(version)` is `Db.QueryMaxVersion`, a scan proved equal to `MaxVersion`.
- **Read errors.** The code never looks at the error of the `SELECT MAX` query or of the counter `GET`. A failed read yields 0. The outcome of each read is a `bool` parameter: `maxOk` for `getVersion` and every write that calls it, and `counterOk` and `maxOk` for `QueryByVersion`. The consequences are proved:
  - on a cold counter, a failed MAX read stamps 1 whatever the table holds (`ColdFailedReadStampsOne`);
  - with no caller ceiling and both reads failing, a pull returns 0 whatever `minVersion` was (`FailedReadsResetCursor`).

## Behaviour as written

The model follows the code, including these quirks:

- `NewDataBy` adds ``,`deleted` `` only when the normalised projection already
  contains `` `deleted` ``. It then names that column twice
  (`ProjectionRepeatsDeleted`). A projection without the column is left as it
  is.
- `parseFields` runs more than once on the same list: twice in `NewData`
  (Data.go:28, then Data.go:42 through `NewDataBy`) and three times in
  `NewDataWithVersion` (once more through the second `NewDataBy`). This is
  harmless (`Fields.Idempotent`, which the proof of `NewData` calls).
- `parseFields("")` panics: the split yields one empty piece and the loop
  reads `fields[0]` (Data.go:57). The model has no panic, so an empty field
  list is excluded by `requires fields != ""` on `QuotedFields`,
  `ParseFields`, `Projection`, `NewDataBy`, `NewData`, `NewDataWithVersion`
  and `List.Fields`.
- `parse` is not cached. With joins it writes `leftJoinArgs + args` back into
  `args`, so a second terminal call on the same builder binds the join
  arguments twice (`ParseTwice`).
- `UpdateBy` prefixes the caller's clause with `` `deleted`=0 AND ` ``, which
  ends in a stray backtick (`UpdateByWhereStrayBacktick`).
- `parse("VERSION")` only leaves the delete filter out. `QueryByVersion` then
  removes the first `` `deleted`=0 AND `` wherever it occurs in the rendered
  text, including the caller's own filter (`VersionQueryStripsCallerFilter`).
- The `BETWEEN` clause is appended at the very end of the statement, so it
  lands after any `ORDER BY` (`VersionQueryAfterOrderBy`).
- `QueryByVersion` can return less than `minVersion`. When `minVersion` is at
  or above the resolved ceiling, the ceiling itself is returned
  (`CursorAheadRegresses`).
- Insert's id loop does not fail when its 10000 attempts run out. It keeps the
  last id. The insert then runs into the primary key and is refused, and the
  stamp it took is still spent (`Data.Insert`).
- The counter is taken to be cold whenever `INCR` returns 1 or less. The stamp
  is then `MAX(version)+1`, and that value is written back (`NextVersion`).

## Model

| member | source | states |
|---|---|---|
| Text.TrimLeft | Data.go:56 | the result is a suffix of the input; everything removed is white space, and the result does not start with white space |
| Text.TrimRight | Data.go:56 | the result is a prefix of the input; everything removed is white space, and the result does not end with white space |
| Text.TrimSpace | Data.go:56 | the input is white space, then the result, then white space; the result neither starts nor ends with white space |
| Text.TrimmedBetween | Data.go:56 | trimming the left and then the right leaves the result between two runs of white space |
| Text.Split | Data.go:53 | at least one piece; no piece contains the separator; the pieces use only characters of the input |
| Text.Join | Data.go:61 | the first piece is a prefix of the joined text |
| Text.JoinSplit | Data.go:53-61 | joining the pieces of a split gives back the text, which is why back-quoted input passes through unchanged |
| Text.SplitJoin | Data.go:53-61 | splitting a join of separator-free pieces gives back the pieces |
| Text.JoinAvoids | Data.go:61 | a character in no piece and unequal to the separator is not in the join |
| Text.IndexFrom | Data.go:283 | the index found is an occurrence and no occurrence lies between the start and it; None means no occurrence from the start |
| Text.Contains | Data.go:44 | an occurrence is no longer than the text; the empty pattern is always contained |
| Text.ContainsIff | Data.go:44 | `Contains` holds exactly when some index starts an occurrence |
| Text.FirstIndex | Data.go:283 | an occurrence with none before it is the index `IndexOf` reports |
| Text.RemoveFirst | Data.go:283 | with an occurrence the text loses exactly the pattern's length; without one it is unchanged |
| Text.RemoveFirstAt | Data.go:283 | the occurrence removed is the first one |
| Text.RemoveFirstAfter | Data.go:283 | an occurrence right after a prefix that holds none is the one removed |
| Text.RemoveFirstInPrefix | Data.go:283 | once the prefix holds an occurrence, text appended after it is untouched |
| Fields.QuotedFields | Data.go:49-62 | the projection is non-empty; without '(' in the input it starts with a backtick and contains no '(' |
| Fields.ParseFields | Data.go:49-62 | the rewrite loop over the split pieces returns exactly `QuotedFields` |
| Fields.PassThrough | Data.go:50-52 | text with '(' or a leading backtick is returned unchanged |
| Fields.QuotedPieces | Data.go:53-61 | otherwise the number of comma pieces is kept, and piece i becomes input piece i, trimmed, in backticks |
| Fields.Idempotent | Data.go:34-42 | normalising a normalised projection changes nothing |
| Store.ToText | Data.go:111 | a primary key reads as "" exactly when it is nil or the empty string |
| Store.LiveRow | Data.go:64-68 | the live-row lookup finds a row iff that key is stored and its delete flag is 0, and returns that row |
| Store.Patch | Data.go:124 | an UPDATE keeps the key set, leaves unselected rows alone and overwrites the selected rows' fields with the payload |
| Store.HasMax | Data.go:153-154 | a non-empty set of versions has a maximum |
| Store.MaxOf | Data.go:153-154 | the maximum bounds every version and is one of them; over no rows it is 0 |
| Store.MaxVersion | Data.go:154 | MAX(version) over the table is some row's version, and 0 over no rows |
| Store.MaxVersionBounds | Data.go:153-154 | MAX(version) bounds the version of every row of the table |
| Store.MaxRead | Data.go:153-155 | MAX(version) as read: a successful read bounds every row's version; a failed read is 0 |
| Store.Redis.Read | Data.go:270 | the counter parsed as unsigned: the counter itself when it is not negative, else 0, and never below the counter |
| Store.Redis.Incr | Data.go:148 | INCR returns the old counter plus one (a missing counter counts as 0) and stores it |
| Store.Redis.Get | Data.go:270 | GET returns the counter read as unsigned, and 0 when the read fails |
| Store.Redis.Set | Data.go:156 | SET stores the value under the key and changes no other counter |
| Store.Db.QueryMaxVersion | Data.go:153-154 | the scan over the rows returns exactly `MaxVersion` of the table; a failed query returns 0 |
| Store.Db.Insert | Data.go:99 | the row is logged as sent; it is stored exactly when the executor succeeds and the key is new |
| Store.Db.Update | Data.go:124 | the statement is logged; on success exactly the selected rows are patched |
| Entity.Projection | Data.go:41-47 | the normalised list is a prefix of the default projection NewDataBy leaves |
| Entity.ProjectionAppendsIff | Data.go:41-47 | the projection is the normalised list, or that list plus ``,`deleted` ``; the second exactly when versioned, with a delete column, and the list already names it |
| Entity.UnversionedProjection | Data.go:22-32 | an unversioned table gets only the normalised list |
| Entity.ProjectionRepeatsDeleted | Data.go:44-46 | when the column is appended it occurs at two distinct positions |
| Entity.NextVersion | Data.go:147-158 | a stamp is at least 1 and above the counter before INCR; from a cold counter, or one not below MAX, it is above MAX |
| Entity.SuccessiveVersions | Data.go:147-151 | two stamps in a row are consecutive, whatever MAX is |
| Entity.FreshStampAboveAll | Data.go:147-158 | from a counter covering every stored version, the next stamp exceeds every stored version, whatever MAX read as |
| Entity.ColdFailedReadStampsOne | Data.go:152-157 | on a cold counter a failed MAX read stamps 1, whatever the table holds |
| Entity.FirstFreeAttempt | Data.go:74-81 | the loop stops at the first attempt whose id is not a stored key, or at the last attempt; every earlier attempt was taken |
| Entity.ChosenId | Data.go:74-85 | the id kept is one of the first 10000 answers of the generator; it is free unless every attempt was taken |
| Entity.FirstFreeAttemptUnique | Data.go:74-81 | any attempt meeting those two conditions is that stopping attempt |
| Entity.InsertPayload | Data.go:88-97 | the row sent has the id and delete columns and every caller field; with a stamp the version column holds it |
| Entity.InsertPayloadFields | Data.go:88-97 | the row sent holds the caller's fields plus id, delete flag 0 and the stamp, and is live |
| Entity.UpdatePayload | Data.go:109-122 | the payload's columns are the record's minus the primary key, plus the version column; with a stamp the version column holds it |
| Entity.UpdatePayloadFields | Data.go:108-122 | the payload is the record without the primary key plus the stamp; the other fields are unchanged |
| Entity.IdOf | Data.go:111 | the id Update reads is the text of the record's id field; it is "" exactly when that field is missing, nil or the empty string |
| Entity.LiveIds | Data.go:124 | the rows a `deleted`=0 clause with a key condition selects: exactly the given keys that are stored and live |
| Entity.UpdateWhere | Data.go:124 | Update's clause opens with the delete filter and ends with the id placeholder |
| Entity.UpdateByWhere | Data.go:139 | UpdateBy's clause opens with the delete filter and ends with the caller's clause, one backtick between them |
| Entity.GetQuery | Data.go:66 | Get's statement starts with the projection, ends with Update's clause and binds only the id |
| Entity.UpdateByWhereStrayBacktick | Data.go:139 | UpdateBy matches Update's clause only when the caller leaves out the opening backtick |
| Entity.DeleteRecord | Data.go:143 | Delete's record has exactly the keys `deleted` and `id`, holds the id, and sets the flag to 1 so the row is no longer live |
| Entity.DeletePayloadIsTombstone | Data.go:142-144 | Delete's record carries the id, and its payload is just the delete flag 1 plus the stamp |
| Entity.TombstoneHidesRow | Data.go:142-144 | after the tombstone is applied, a live lookup of that id finds nothing |
| Entity.PatchKeepsCover | Data.go:118-124 | a patch with a stamp above every stored version leaves the stamp covering the table |
| Entity.Data.constructor | Data.go:23-29 | the descriptor holds the given table, key, delete, version and projection fields |
| Entity.Data.StampFor | Data.go:93-97 | a stamp is taken exactly when the table is versioned; it is at least 1 and above the counter, and on a cold counter with a successful MAX read above every stored version |
| Entity.Data.GetVersion | Data.go:147-158 | the stamp is `NextVersion`(counter before, MAX(version) as read); the counter is left equal to the stamp |
| Entity.Data.Get | Data.go:64-68 | the statement is `SELECT <fields> FROM t WHERE deleted=0 AND id=?` bound to the id; the row is the live row with that key |
| Entity.Data.Insert | Data.go:70-104 | an empty chosen id changes nothing; otherwise the stamped row with id and delete flag 0 is sent; the id is returned iff the insert succeeds and the key was free; the counter keeps covering the table |
| Entity.Data.SendInsert | Data.go:88-103 | the stamping and sending half of Insert, with the same state change |
| Entity.Data.Update | Data.go:106-125 | a record without a key changes nothing and fails; otherwise the key-less stamped payload patches only the live row with that key; the counter keeps covering the table |
| Entity.Data.UpdateBy | Data.go:127-140 | the stamped record is sent with `` `deleted`=0 AND ` `` plus the caller's clause; on success exactly the rows the statement selects are patched, and a covering counter stays covering |
| Entity.UpdateByFilterHolds | Data.go:139 | when the selected rows are the live ones among those the caller's clause matches, no soft-deleted row changes |
| Entity.UpdateByOrEscapesFilter | Data.go:139 | a soft-deleted row that the statement selects (a top-level OR in the caller's clause) is outside the live set and still takes the payload |
| Entity.Data.Delete | Data.go:142-145 | Delete is Update of `{deleted: 1, id: id}`; the counter keeps covering the table |
| Entity.NewDataBy | Data.go:41-47 | the projection becomes `Projection` of the old one |
| Entity.NewData | Data.go:22-32 | a fresh descriptor with key `id`, delete flag `deleted`, no version and the normalised projection |
| Entity.NewDataWithVersion | Data.go:34-39 | as NewData, with version column `version` and `Projection` of the normalised list |
| Query.Render | Data.go:190-214 | an override is returned with its arguments; otherwise the text starts with the SELECT head and ends with the filter and the ordering |
| Query.BoundArgs | Data.go:196-198 | with joins the join arguments come first, then the filter arguments; the list is exactly as long as both together |
| Query.AfterParse | Data.go:195-199 | parse changes only the arguments, and the old arguments end the new list |
| Query.RenderOverride | Data.go:191-193 | an SQL override is returned as it stands, with its arguments, in every mode, and changes no state |
| Query.RenderArgsModeFree | Data.go:195-213 | the arguments do not depend on the mode; they are the join arguments followed by the filter's |
| Query.CountIsPlainCount | Data.go:200-203 | count mode is plain mode with the projection replaced by `COUNT(*)` |
| Query.PlainFiltersDeleted | Data.go:205-213 | plain and count statements contain `` WHERE `deleted`=0 AND `` |
| Query.VersionDropsFilter | Data.go:205-213 | version mode is plain mode over the projection plus the delete column, with the delete filter after WHERE removed |
| Query.ParseWithoutJoins | Data.go:195-199 | without joins parse changes no state |
| Query.ParseTwice | Data.go:195-199 | with joins a second parse gives the same SQL but binds the join arguments once more |
| Query.GetIsListWhere | Data.go:64-68 | Get's statement is what a fresh builder renders after `Where("`id`=?", id)` |
| Query.VersionQuery | Data.go:281-284 | the last two arguments are minVersion+1 and the ceiling |
| Query.VersionQueryRange | Data.go:280-284 | the range bounds minVersion+1 and the ceiling are the last two arguments, and the SQL ends with the BETWEEN clause |
| Query.VersionQueryAfterOrderBy | Data.go:280-284 | without a delete filter in the text, BETWEEN is appended after the ORDER BY clause |
| Query.VersionQueryStripsCallerFilter | Data.go:283 | a caller's filter starting with the delete filter loses that prefix |
| Query.StripLeadingFilter | Data.go:283 | the text-level step of that removal |
| Query.ShorterFilterRender | Data.go:205-213 | in VERSION mode the statement is the select head followed directly by the where and order-by text, with no delete filter in between |
| Query.VersionQueryOverride | Data.go:191-193 | an SQL override only loses its first delete filter and gains the BETWEEN clause and range arguments |
| Query.ResolvedMax | Data.go:268-275 | the ceiling is one of the caller's bound, the counter read and the MAX read; it is 0 only when all three are 0 |
| Query.Watermark | Data.go:262-299 | the returned version is either minVersion or the resolved ceiling |
| Query.CursorNeverRegresses | Data.go:276-298 | fed back as the next minVersion under a ceiling that does not fall, the watermark never decreases |
| Query.CursorAheadRegresses | Data.go:276-279 | a cursor above the ceiling is moved back to the ceiling |
| Query.PullOutcome | Data.go:286-298 | below the ceiling, a successful pull returns the ceiling and a failed one returns minVersion |
| Query.FailedReadsResetCursor | Data.go:268-279 | with no caller ceiling and both reads at 0, a pull returns 0 whatever minVersion was |
| Query.CounterCeilingCoversTable | Data.go:268-271 | a covering counter, used as the ceiling, is at or above every stored version |
| Query.List.constructor | Data.go:175-188 | a new builder has the default projection, filter "1", no override, ordering, joins or arguments |
| Query.List.Parse | Data.go:190-214 | returns `Render` of the builder and leaves it as `AfterParse` |
| Query.List.Sql | Data.go:216-220 | sets the override and its arguments only |
| Query.List.Fields | Data.go:222-225 | sets the projection to the normalised list only |
| Query.List.Where | Data.go:227-231 | replaces the filter and its arguments only |
| Query.List.OrderBy | Data.go:233-236 | sets the ordering clause to `" ORDER BY " + o` only |
| Query.List.LeftJoin | Data.go:238-242 | appends one join clause and its arguments, in call order |
| Query.List.QueryAll | Data.go:244-248 | sends the plain statement; succeeds iff the executor does |
| Query.List.Count | Data.go:250-253 | sends the count statement and returns the executor's scalar |
| Query.List.QueryByPage | Data.go:255-260 | sends the plain statement plus `LIMIT ?,?` with start and num bound last |
| Query.List.Ceiling | Data.go:268-275 | the ceiling is `ResolvedMax` of the caller's bound, the counter read and the MAX read, a failed read being 0 |
| Query.List.QueryByVersion | Data.go:262-299 | the ceiling is maxVersion, else the counter read, else the MAX read (a failed read is 0); a query is sent only for a slice or map below the ceiling; the result is `Watermark` |
| Scenario.ColdInsert | Data_test.go:86 | the first insert into an empty table with a cold counter takes stamp 1 |
| Scenario.WarmInsert | Data_test.go:87-89 | an insert on a warm counter takes the next stamp |
| Scenario.WarmDelete | Data_test.go:98 | a soft delete on a warm counter takes the next stamp |
| Scenario.Pull | Data_test.go:92-101 | a successful pull behind the counter returns the counter |
| Scenario.VersionSync | Data_test.go:79-103 | four inserts from a cold start, then a pull from 0, return 4; after the delete a pull from 4 returns 5 |

## Left out

- I/O, logging and connection handling: the logger, `CopyByLogger`, and the package configuration (`Config.go` is not part of this model).
- The record mapper: `u.Convert` is taken to have already flattened the caller's value into a `Record`. In QueryAll, QueryByPage and QueryByVersion, `r.To` and `r.ToKV` are represented only by the success flag. Which rows a successful read returns, and in what order, is not modelled.
- Entity.Data.Get: `ok` is true exactly when the query succeeds and a live row with that key exists. This assumes `r.To` reports failure on zero rows; the mapper's behaviour there is not part of this model.
- Redis write errors: a failed `INCR` or `SET` in `getVersion` is not modelled. Both are taken to succeed; only the read outcomes are parameters.
- SQL evaluation: the database is not an SQL interpreter. The rows UpdateBy's statement selects are a parameter, so whether the caller's clause has a top-level OR is not derived from its text. QueryAll, QueryByPage and QueryByVersion return only the statement and the outcome, not a row set.
- Probe query errors: in Insert, an error from the id probe reads as "no row", as `StringOnR1C1` returns "".
- Concurrency: two increments racing on a cold counter can both fall back to MAX+1. The model runs one call at a time.
- Go slice aliasing: `append(leftJoinArgs, args...)` may share the join slice's backing array. The model uses value sequences, so that sharing is not represented.
- Entity.NextVersion: does not model 64-bit overflow of the counter or of MAX+1, because integers are unbounded here.
- Store.Redis.Read: a negative counter is read as 0 when parsed unsigned; the exact parse of such text is not modelled.
- Query.List.QueryByVersion: `minVersion+1` and the ceiling are unbounded naturals, so wrap-around at 2^64 is not modelled.
- Store.MaxOf: the column is read as 0 for a missing or non-positive version, so MAX is max(0, …) over the table.
- Entity.Data.Get: does not model projecting the row onto the default fields or mapping it into the caller's object; it returns the stored row.
