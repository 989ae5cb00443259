# kissqlite3 statement builder and the device tracker's views

This project models two parts of Kismet in Dafny.

The first is **kissqlite3**, the small SQL statement builder in
`sqlite3_cpp11.h` / `sqlite3_cpp11.cc`. It covers:

- the grammar elements: the joiners `AND`/`OR`, the comparison operators, the
  `ORDER_BY` and `LIMIT` tail keywords, and `query_element`;
- the variadic `_WHERE` builder, `query::append_where` and `query::append_clause`;
- the eight `_SELECT` overloads;
- `query::bind_stmt`, which writes the placeholdered SELECT text, prepares it,
  binds every non-joiner where value at positions 1, 2, …, and resets the
  statement;
- the `insert` and `update` constructors, with their size check
  `"Supplied fields not equal to supplied template"`, and `_INSERT` / `_UPDATE`;
- the human-readable `operator<<` dumps of queries, inserts and updates.

The second is **`DevicetrackerView`**, a filtered view of the tracked devices.
It holds an ordered device list and a presence map, driven by `newDevice`,
`updateDevice` and `removeDevice` through its two callbacks `new_cb` /
`update_cb`. Readers use `doDeviceWork` (both forms) and `pre_serialize`.
`devicetracker_view.cc` is not part of this model. The header says when the
callbacks run and who calls the mutators (`devicetracker_view.h` lines 53-61,
95-98 and 145-150), that the list is vector-backed and not suited to frequent
eviction (lines 39-40), and that it is kept as a vector beside a presence map
(lines 121-125). How the list changes is the model's choice for such a
vector-backed list:

- a device is appended at the end;
- an update never reorders a device already present;
- a removal is a linear scan that erases the device and clears its presence entry.

Modules:

| file | module | contents |
|---|---|---|
| `seq_lemmas.dfy` | `SeqLemmas` | generic sequence facts used throughout |
| `render.dfy` | `Render` | decimal text of integers and its parser; the `%g` text a stream gives an integral `double`; UTF-8 byte length; the comma-flag join loop; counting `?` marks |
| `sql_types.dfy` | `SqlTypes` | bind values, query elements, operators, `Query` / `Insert` / `Update`, `Result` |
| `sql_where.dfy` | `SqlWhere` | `_WHERE`, `append_where`, `append_clause` |
| `sql_statement.dfy` | `SqlStatement` | `bind_stmt`: the statement text, the bind positions, the two failure paths |
| `sql_dump.dfy` | `SqlDump` | the three `operator<<` dumps; the insert and update constructors, `_INSERT`, `_UPDATE` |
| `sql_queries.dfy` | `SqlQueries` | the `_SELECT` overloads and how the builders change the statement text |
| `sql_findings.dfy` | `SqlFindings` | the tail loop of `bind_stmt` as written, next to the corrected one |
| `device_view.dfy` | `DeviceView` | `DevicetrackerView` |

Quirks of the source that the model keeps, because they are what the code does:

- The dumps put the field list in parentheses (`SELECT (a, b) FROM t`); the
  prepared text does not (`SELECT a, b FROM t`).
- The where loop writes `", "` between two conditions that follow each other
  without a joiner.
- The ordering keyword is written `ORDER_BY`, with an underscore.
- The equality operator is written `==`.
- `append_where` with an empty list on a non-empty clause leaves a joiner with
  nothing after it (`SqlWhere.AppendEmptyLeavesTrailingJoiner`).
- The update dump lists the bind lines of the assigned terms and then those of
  the where conditions. The model states that order but does not bind update
  statements, because the source has no `bind_stmt` for them.

## Model

| member | source | states |
|---|---|---|
| SqlWhere.Where | ubertooth/kismet/sqlite3_cpp11.h:415-458 | `_WHERE(f, op, v, join1, f1, op1, v1, …)` has length 1 + 2·groups, plus one when the argument list ends in a bare `field, op, value` triple. Its first condition comes first, joiner `i` sits at position 2i+1 and the condition of group `i` at 2i+2, and a trailing triple is pushed last with no joiner before it |
| SqlWhere.PushGroups | ubertooth/kismet/sqlite3_cpp11.h:425-438 | the recursive `_WHERE(vec, join, …)` keeps what `vec` held and appends exactly the joiner/condition pairs of the groups after it |
| SqlWhere.WhereAlternates | ubertooth/kismet/sqlite3_cpp11.h:418-458 | a clause built by `_WHERE` alternates condition, joiner, condition, …, starting and ending with a condition, exactly when the argument list does not end in a bare triple; a trailing triple leaves two conditions side by side |
| SqlWhere.AppendWhere | ubertooth/kismet/sqlite3_cpp11.h:272-282 | `append_where` inserts the joiner between the old and extra conditions only when the old clause is non-empty; table, fields and tail are untouched |
| SqlWhere.AppendWhereJoiners | ubertooth/kismet/sqlite3_cpp11.h:272-282 | `append_where` adds exactly one joiner beyond those already in the two clauses, and none when the old clause is empty |
| SqlWhere.AppendWherePreservesAlternating | ubertooth/kismet/sqlite3_cpp11.h:272-282 | appending a well-formed non-empty clause to a well-formed clause gives a well-formed clause |
| SqlWhere.AppendEmptyLeavesTrailingJoiner | ubertooth/kismet/sqlite3_cpp11.h:272-276 | appending an empty list to a non-empty clause leaves a dangling joiner as the last element, so the clause is no longer well-formed |
| SqlWhere.AppendLimit | ubertooth/kismet/sqlite3_cpp11.h:284-286 | `append_clause(LIMIT, n)` adds one LIMIT element carrying `n` at the end of the tail and leaves table, fields, where clause and the earlier tail untouched |
| SqlWhere.AppendOrderBy | ubertooth/kismet/sqlite3_cpp11.h:288-290 | `append_clause(ORDERBY, f)` adds one ORDER_BY element naming `f` at the end of the tail and leaves table, fields, where clause and the earlier tail untouched |
| SqlWhere.GroupElemsKind | ubertooth/kismet/sqlite3_cpp11.h:425-431 | each group contributes a joiner followed by a condition |
| SqlStatement.WhereSection | ubertooth/kismet/sqlite3_cpp11.h:311-329 | the where section is empty exactly when the clause is; otherwise it opens with `" WHERE ("` and closes with `")"` |
| SqlStatement.SelectTextHead | ubertooth/kismet/sqlite3_cpp11.h:296-338 | the prepared text starts with `"SELECT "`, then the field list joined by `", "`, `" FROM "` and the table; with no where clause and no tail, that is the whole text |
| SqlStatement.WhereBodyIsPieces | ubertooth/kismet/sqlite3_cpp11.h:314-327 | the comma-flag loop writes, per element: `" op "` for a joiner, and `field op ?` for a condition, preceded by `", "` exactly when the element before it is not a joiner |
| SqlStatement.WhereBodyJoined | ubertooth/kismet/sqlite3_cpp11.h:316-320 | a joiner resets the flag, so what follows a joiner is written exactly as it would be on its own |
| SqlStatement.WhereBodySnoc | ubertooth/kismet/sqlite3_cpp11.h:316-326 | a condition appended right after a condition adds `", " field op ?` and leaves the text before it unchanged |
| SqlStatement.TailTextAppend | ubertooth/kismet/sqlite3_cpp11.h:331-338 | the tail text of two lists is the text of the first followed by the text of the second; each element writes its own `" op value"` |
| SqlStatement.BindingsFrom | ubertooth/kismet/sqlite3_cpp11.h:349-377 | one binding per non-joiner element, in clause order. Binding `i` sits at position `next + i` and carries that element's value; joiners consume no position |
| SqlStatement.BindWhereClause | ubertooth/kismet/sqlite3_cpp11.h:349-377 | the `bind_pos` loop binds the i-th non-joiner value at position i + 1 and binds nothing else |
| SqlStatement.BindStmt | ubertooth/kismet/sqlite3_cpp11.h:292-383 | `bind_stmt` succeeds exactly when prepare and reset both succeed. On success the statement is the SELECT text, with the where values bound at 1..n in order. A prepare failure reports `"Failed to prepare statement: "` + text + `" "` + backend message; a reset failure reports `"Failed to prepare statement to execute: "` + text + `" "` + backend message |
| SqlStatement.WhereSectionMarks | ubertooth/kismet/sqlite3_cpp11.h:311-329 | when the caller's field names and operators contain no `?`, the where section holds exactly one `?` per non-joiner element, whatever the values hold, since values are bound and never written |
| SqlStatement.SelectTextMarks | ubertooth/kismet/sqlite3_cpp11.h:296-338 | with `?`-free table, field names, operators and tail values, the prepared text has exactly as many `?` as there are where conditions; where values may hold anything |
| SqlStatement.MarkInValueExample | ubertooth/kismet/sqlite3_cpp11.h:311-329 | a where value containing `?` (`url LIKE "a?b"`) still gives exactly one placeholder, because the value is bound rather than written |
| SqlStatement.PlaceholdersMatchBindings | ubertooth/kismet/sqlite3_cpp11.h:343-377 | when names, operators and tail values contain no `?`, a prepared statement has as many `?` as bindings, and the bindings occupy positions 1..n in order; where values are unconstrained |
| SqlDump.WhereBindLines | ubertooth/kismet/sqlite3_cpp11.cc:67-99 | the query dump prints one bind line per non-joiner element. Line `i` shows the value `bind_stmt` binds at position `i + 1` |
| SqlDump.BindCallExamples | ubertooth/kismet/sqlite3_cpp11.cc:76-91 | a `double` bind line shows the stream's `%g` text (`double(1.23457e+06)` for 1234567), and a text bind line shows the UTF-8 byte length (`text("é", 2)` for one accented letter) |
| SqlDump.QueryDumpMatchesSelectText | ubertooth/kismet/sqlite3_cpp11.cc:23-102 | the query dump is the prepared text with the field list put in parentheses and `";"` added, followed by the where bind lines |
| SqlDump.MakeInsert | ubertooth/kismet/sqlite3_cpp11.h:534-542 | the insert constructor fails, with the size-check message, exactly when fields and terms differ in number; otherwise it keeps all three arguments |
| SqlDump.InsertOf | ubertooth/kismet/sqlite3_cpp11.cc:215-218 | `_INSERT` fails exactly as the constructor does; a built insert holds exactly the caller's table, fields and terms, one term per field |
| SqlDump.TermLines | ubertooth/kismet/sqlite3_cpp11.cc:183-210 | one bind line per term, line `i` describing term `i` |
| SqlDump.InsertPlaceholdersMatchFields | ubertooth/kismet/sqlite3_cpp11.cc:158-181 | a constructed insert's statement has one `?` per field, which is also one per bind line |
| SqlDump.MakeUpdate | ubertooth/kismet/sqlite3_cpp11.h:556-577 | both update constructors fail, with the size-check message, exactly when fields and terms differ in number; otherwise they keep their arguments |
| SqlDump.UpdateOf | ubertooth/kismet/sqlite3_cpp11.cc:319-322 | `_UPDATE` without a where clause fails exactly on a size mismatch; otherwise it builds the update of exactly the caller's table, fields and terms, with an empty where clause |
| SqlDump.UpdateWhereOf | ubertooth/kismet/sqlite3_cpp11.cc:324-327 | `_UPDATE` with a where clause fails exactly on a size mismatch; otherwise it builds the update of exactly the caller's table, fields, terms and where clause |
| SqlDump.UpdateBindLinesOrder | ubertooth/kismet/sqlite3_cpp11.cc:254-315 | the update dump's bind lines list every term first, in order, and then the where conditions, joiners skipped |
| SqlDump.UpdateDumpIsLines | ubertooth/kismet/sqlite3_cpp11.cc:220-317 | the update dump is its statement line followed by exactly its bind lines |
| SqlDump.UpdatePlaceholdersMatchBindLines | ubertooth/kismet/sqlite3_cpp11.cc:220-252 | a constructed update's statement has one `?` per bind line, one per assigned field plus one per where condition, when table, fields and the where clause's names and operators are `?`-free; where values are unconstrained |
| SqlQueries.Select | ubertooth/kismet/sqlite3_cpp11.cc:104-107 | `_SELECT(db, table, fields)` prepares `SELECT f1, f2 FROM table` with nothing after it |
| SqlQueries.SelectWhere | ubertooth/kismet/sqlite3_cpp11.cc:109-113 | `_SELECT` with a where clause prepares the head followed by that clause's where section |
| SqlQueries.SelectWhereLimit | ubertooth/kismet/sqlite3_cpp11.cc:115-120 | head, where section, then `" LIMIT n"` |
| SqlQueries.SelectWhereOrderBy | ubertooth/kismet/sqlite3_cpp11.cc:122-127 | head, where section, then `" ORDER_BY field"` |
| SqlQueries.SelectWhereOrderByLimit | ubertooth/kismet/sqlite3_cpp11.cc:129-136 | head, where section, `" ORDER_BY field"`, then `" LIMIT n"` |
| SqlQueries.SelectLimit | ubertooth/kismet/sqlite3_cpp11.cc:138-142 | head then `" LIMIT n"`, with no where section |
| SqlQueries.SelectOrderBy | ubertooth/kismet/sqlite3_cpp11.cc:144-148 | head then `" ORDER_BY field"`, with no where section |
| SqlQueries.SelectOrderByLimit | ubertooth/kismet/sqlite3_cpp11.cc:150-156 | head, `" ORDER_BY field"`, then `" LIMIT n"`, with no where section |
| SqlQueries.TailOverloadsAreAppends | ubertooth/kismet/sqlite3_cpp11.cc:115-156 | every tail-taking overload builds the same query as the plain overload followed by `append_clause` calls in argument order |
| SqlQueries.AppendLimitText | ubertooth/kismet/sqlite3_cpp11.h:284-286 | `append_clause(LIMIT, n)` adds `" LIMIT n"` at the end of the prepared text and changes nothing before it |
| SqlQueries.AppendOrderByText | ubertooth/kismet/sqlite3_cpp11.h:288-290 | `append_clause(ORDERBY, f)` adds `" ORDER_BY f"` at the end of the prepared text and changes nothing before it |
| SqlQueries.AppendWhereSection | ubertooth/kismet/sqlite3_cpp11.h:272-282 | on a non-empty clause, `append_where` writes the old conditions, the joiner and the extra conditions inside one pair of parentheses. The extra conditions are written as they would be on their own |
| SqlQueries.AppendWhereBindings | ubertooth/kismet/sqlite3_cpp11.h:272-282 | after `append_where`, the old conditions are bound first and keep their positions; the extra ones follow |
| SqlQueries.GroupElemsConditions | ubertooth/kismet/sqlite3_cpp11.h:425-438 | of each group's two elements, only the condition takes a placeholder |
| SqlQueries.WhereConditions | ubertooth/kismet/sqlite3_cpp11.h:415-458 | the placeholder-taking elements of a `_WHERE` clause are exactly its terms in argument order: the first, one per group, then a trailing bare term if there is one |
| SqlQueries.WhereBindsTerms | ubertooth/kismet/sqlite3_cpp11.h:415-458 | a clause built by `_WHERE` binds its first term at position 1, the term of group `i` at position `i + 2`, a trailing bare term after all groups, and nothing else |
| SqlQueries.TrailingTermText | ubertooth/kismet/sqlite3_cpp11.h:418-438 | after any number of groups, a trailing bare triple adds exactly its condition, written with `", "` and no joiner, to the text of the clause without it |
| SqlQueries.TrailingTermExample | ubertooth/kismet/sqlite3_cpp11.h:314-327 | `_WHERE("a", EQ, 1, "b", EQ, 2)` is written `a == ?, b == ?` |
| SqlFindings.LimitAsWrittenAgrees | ubertooth/kismet/sqlite3_cpp11.h:331-338 | the as-written LIMIT text equals the corrected decimal text exactly when the limit's magnitude is below one million |
| Render.StreamedLargeHasExponent | ubertooth/kismet/sqlite3_cpp11.h:334-335 | from a magnitude of one million on, the streamed `double` contains an exponent marker |
| SqlFindings.LimitAsWrittenCounterexample | ubertooth/kismet/sqlite3_cpp11.h:198-202 | `LIMIT 1234567` is written `LIMIT 1.23457e+06` as the source stands, where the intended text is `LIMIT 1234567` |
| SqlFindings.LimitTextRoundTrip | ubertooth/kismet/sqlite3_cpp11.h:331-338 | corrected: the limit is written in full decimal, and reading that text back gives the limit, for every integer |
| SqlFindings.OrderByAsWrittenCounterexample | ubertooth/kismet/sqlite3_cpp11.h:193-196 | if the uninitialised tag reads `sql_int` with number 0, `ORDER_BY first_time` is written as `ORDER_BY 0` |
| SqlFindings.OrderByCorrected | ubertooth/kismet/sqlite3_cpp11.h:288-290 | corrected: an ORDER_BY element always writes `" ORDER_BY "` followed by its field |
| Render.IntTextRoundTrip | ubertooth/kismet/sqlite3_cpp11.cc:81-86 | the decimal text an integer value is written as parses back to the same integer: the text loses nothing |
| Render.Utf8Length | ubertooth/kismet/sqlite3_cpp11.cc:76-79 | the length a text or blob dump shows is the UTF-8 byte count: between the character count and four times it, and equal to the character count exactly when every character is ASCII |
| DeviceView.Empty | ubertooth/kismet/devicetracker_view.h:66-67 | a freshly constructed view keeps its id and description, holds no device, and satisfies the list/map pairing |
| DeviceView.NewDevice | ubertooth/kismet/devicetracker_view.h:145-146 | a new device is in the view afterwards exactly when it was already there or `new_cb` accepts it. An accepted device is appended at the end; a rejected or already-present one changes nothing; no other device's presence entry changes; the pairing is kept |
| DeviceView.UpdateDevice | ubertooth/kismet/devicetracker_view.h:95-98 | a changed device is in the view afterwards exactly when `update_cb` accepts it. An absent device that qualifies is appended; a present one that qualifies is left in place; one that no longer qualifies is erased, the others keeping their order. No other entry changes and the pairing is kept |
| DeviceView.RemoveDevice | ubertooth/kismet/devicetracker_view.h:148-150 | a timed-out device is absent afterwards; the other devices keep their relative order; removing an absent device changes nothing; the pairing is kept |
| DeviceView.LateQualification | ubertooth/kismet/devicetracker_view.h:57-61 | an absent device whose update now passes appears exactly once, as the last element |
| DeviceView.LateJoinExample | ubertooth/kismet/devicetracker_view.h:53-61 | a device that `new_cb` rejects is not listed; once an update passes `update_cb`, the list is exactly that device |
| DeviceView.RemoveMiddleExample | ubertooth/kismet/devicetracker_view.h:148-150 | removing device 2 from `[1, 2, 3]` leaves `[1, 3]`, and the presence map holds exactly keys 1 and 3 |
| DeviceView.EraseFirst | ubertooth/kismet/devicetracker_view.h:148-150 | the linear scan-and-erase removes the first occurrence of the key and keeps every other element in order |
| DeviceView.RemoveFirstCount | ubertooth/kismet/devicetracker_view.h:148-150 | erasing takes exactly one occurrence of the key away, if there is one, and keeps every other element |
| DeviceView.RemoveFirstIsWithout | ubertooth/kismet/devicetracker_view.h:122-125 | on a list without duplicates, erasing the first occurrence erases the device entirely |
| DeviceView.PopulateMembers | ubertooth/kismet/devicetracker_view.h:53-55 | after the initial replay of `new_cb`, a key is in the view exactly when some known device with that key passes `new_cb` (or it was there already) |
| DeviceView.Create | ubertooth/kismet/devicetracker_view.h:53-67 | a view built and populated by the initial replay satisfies the pairing and keeps its id and description |
| DeviceView.PreSerialize | ubertooth/kismet/devicetracker_view.h:77-80 | `pre_serialize` writes only the size field (`list_sz`, line 117): the list's length in an unsigned 32-bit field, which under the pairing is also the number of keys in the presence map. Id, description, list and presence map are unchanged |
| DeviceView.ListedKeys | ubertooth/kismet/devicetracker_view.h:122-125 | under the pairing the presence map has exactly one key per listed device |
| DeviceView.DoDeviceWork | ubertooth/kismet/devicetracker_view.h:86-88 | the worker runs on a copy equal to the list at the moment of the call, and the view is unchanged |
| DeviceView.WorkOnCallerVector | ubertooth/kismet/devicetracker_view.h:90-93 | the vector form's result depends only on the caller's vector, never on the view it is called on; called with the view's own list it is the plain form |
| DeviceView.RunPreservesValid | ubertooth/kismet/devicetracker_view.h:122-125 | after any sequence of new/update/remove events and reads, the list and the presence map still pair up: a key is present exactly when it is listed, and no key is listed twice |
| DeviceView.ReadsChangeNothing | ubertooth/kismet/devicetracker_view.h:77-93 | interleaving `doDeviceWork` and `pre_serialize` calls anywhere in a trace leaves id, description, list and presence map exactly as the mutations alone leave them; only the serialised size may differ |
| DeviceView.RunSame | ubertooth/kismet/devicetracker_view.h:95-150 | the mutators depend only on id, description, list and presence map: two views agreeing on those still agree after the same trace |

## Left out

- The sqlite3 library itself is left out: opening, preparing, stepping, finalising, row iteration and the column extractors. Whether `sqlite3_prepare` and `sqlite3_reset` fail, and their error messages, are parameters of `SqlStatement.BindStmt`.
- `query::begin` / `end` and the statement iterator are left out, because they only step the prepared statement.
- `sqlite3_bind_*` is modelled as a list of (position, value) pairs; the SQLITE_TRANSIENT copy semantics are left out.
- Numbers: `query_element` and `insert_elem` widen every number to a `double`. The model keeps integers (`Int`, `Int64`, and `Double` holding an integer). Rounding of 64-bit values and fractional doubles is left out. Only the dumps' `double(...)` bind lines are written as the `%g` text of an integral value at the stream's default precision of six, with ties rounded to even (`Render.StreamedNumber`). A LIMIT, in the prepared text and in the query dump alike, is written in the corrected full decimal form (see "## Findings"); the as-written `%g` LIMIT appears only in `SqlFindings`.
- Text and blob values are character sequences; their dumped length is the byte count of their UTF-8 encoding. Blob bytes that are not valid UTF-8 are not modelled.
- The `(int)` and `(int64_t)` casts in the dumps and the 32-bit `int` argument of LIMIT are not range-checked: integers are unbounded in the model.
- The stream formatting of non-string values in the text-valued `query_element` constructor (`ss << string_like_value`) is left out; a text value is taken as the string it prints.
- The compile-time dispatch of the templates (which constructor an argument type selects) is left out. A `_WHERE` term carries its bind value directly.
- The view's recursive timed mutex, its shared and exclusive locking, and `post_serialize` are left out; each operation is atomic in the model. The concurrency the lock provides is not modelled.
- The destructor, `register_fields`, `view_uuid` and the HTTP endpoints (`device_endpoint_handler`, `device_time_endpoint*`) are left out as plumbing around the view.
- Device records are left out: a device is an abstract type, its key is a natural number standing in for `device_key`, and the callbacks are total functions. `devicetracker_view.cc`, where the bodies live, is not part of this model.
- The worker is an arbitrary function over the key list. Its own filtering and sorting (`DevicetrackerViewWorker`) is not part of this model.
- DeviceView.WorkOnCallerVector: the source leaves the vector form's behaviour undefined if another thread changes the vector; with no threads in the model, the lemma only says the worker sees the caller's vector. That the view is unchanged holds by construction in a pure model; `DoDeviceWorkOn`'s own contract records it, but no lemma relates it to anything else.

## Findings

| source | as written | input that shows it | evidently intended | confidence | as-written member | corrected member |
|---|---|---|---|---|---|---|
| ubertooth/kismet/sqlite3_cpp11.h:331-338 | the tail loop streams a LIMIT element's `num_value`, a `double`, with default formatting (six significant digits) | `_SELECT(db, t, f, LIMIT, 1234567)` writes `LIMIT 1.23457e+06` | the limit written as its full integer, `LIMIT 1234567` | not executed | SqlFindings.LimitAsWrittenCounterexample | SqlFindings.LimitTextRoundTrip |
| ubertooth/kismet/sqlite3_cpp11.h:193-196 | the ORDER_BY `query_element` constructor sets neither `bind_type` nor `num_value`, and the tail loop reads `bind_type` | if the indeterminate `bind_type` reads `sql_int` (with `num_value` 0), `ORDER_BY first_time` comes out as `ORDER_BY 0` | the element always writes its field, as the text branch does | not executed | SqlFindings.OrderByAsWrittenCounterexample | SqlFindings.OrderByCorrected |

The query dump's tail loop (`sqlite3_cpp11.cc` lines 56-63) repeats both behaviours word for word, and `SqlDump.QueryStatementLine` uses the corrected tail text as well. The rest of the model uses the corrected forms: `SqlStatement.TailPiece` writes a LIMIT as `IntText(n)` and an ORDER_BY as its field. `SqlFindings.LimitAsWrittenAgrees` shows that the two LIMIT texts differ exactly from a magnitude of one million on. `SqlFindings.OrderByAsWrittenDependsOnTag` shows that the ORDER_BY text is correct for every tag other than `sql_int`.
