# turboGP in Dafny

A Dafny model of the parts of the turboGP columnar SQL engine where correctness spans several
operations, with proofs about every input, every run or every reachable state:

- **DML and foreign keys** (`DmlWhere`, `WhereMeaning`, `CascadeWhere`, `ForeignKeys`, `DeleteTheory`, `DeleteSuccess`,
  `Constraints`, `CheckLogic`, `Statements`, `ConstraintGaps`, `DmlEngine`): INSERT, UPDATE and DELETE on a mutable catalog
  of column tables. DELETE recurses through CASCADE keys by printing a WHERE clause and evaluating the text.
- **MVCC** (`Mvcc`, `MvccSnapshots`, `MvccOutcomes`, `MvccChains`, `MvccTurns`, `MvccSerializable`, `MvccVacuum`,
  `MvccEngine`): the transaction manager, version chains, visibility, the write-conflict check and VACUUM as a step system, and
  the mutable objects proved against it.
- **Query paths** (`Predicates`, `RowScan`, `ReaderScan`, `Like`, `LikeLoop`, `Grouping`, `GroupBy`): the two WHERE evaluators, the
  serial and the morsel-parallel scan and what a transaction's scan returns, the LIKE shortcut and the
  interpreter's LIKE loop, hashed GROUP BY with ORDER BY and LIMIT.
- **Calendar** (`Calendar`), **window frames** (`WindowFrames`, `Text`) and **savepoints** (`Savepoints`).

`dafny verify dfyconfig.toml` checks the whole project.

## What the proofs found

Where the code does not keep a promise, the model keeps the code, shows an input, and proves exactly when the
promise holds.

- `eval_simple_where` ignores parentheses and folds AND and OR from left to right. That is the condition as written, for
  UPDATE and DELETE, iff every right operand uses only the connective it stands under (`WhereMeaning.StraightIff`,
  `WhereMeaning.WhereSelects`). A CASCADE over a composite key is not of this shape and can leave orphans.
  It selects exactly the rows that reference the last run of deleted parents agreeing on
  every referenced column but the first (`CascadeWhere.LeftToRightIsLastRun`, `CascadeWhere.CascadeMissesIff`), so
  it is exact for the tuples of a statement iff they all agree (`CascadeWhere.TuplesExactIff`,
  `CascadeWhere.CompositeCascadeMissesRow`). It never deletes a row it should keep. A successful cascade leaves a
  row that references a deleted parent iff some such row lies outside the last run (`DeleteTheory.CascadeClearsIff`).
  A DELETE is exact whenever the rows that have to go agree in this way, whatever the rest of the catalog holds
  (`ForeignKeys.ExactForIff`). On a parent whose CASCADE children have no children, a successful DELETE keeps referential
  integrity iff every child row that references a deleted parent is in a last run or finds its key in a spared row
  (`DeleteTheory.LeafIntegrityIff`); `ConstraintGaps.DeleteOrphans` is a DELETE that succeeds and breaks it. A
  referenced value of 2^63 or more prints as a negative number and makes the DELETE fail (`CascadeWhere.CascadeMask`).
- A RESTRICT key lets a DELETE through iff no child row references a deleted tuple; with CASCADE and RESTRICT keys on one
  table, a row that an earlier CASCADE key takes no longer counts (`DeleteSuccess.PassesNowIff`,
  `DeleteSuccess.RestrictPassesIff`).
- CHECK turns an unknown comparison into true where it stands, so `NOT` above it rejects the row. The verdict is SQL's iff
  no comparison stands under an odd number of NOTs (`CheckLogic.CheckExactIff`, `CheckLogic.NotUnknownRejects`).
- UPDATE never checks a PRIMARY KEY that is not also UNIQUE (`Constraints.UpdatePrimaryKey`,
  `ConstraintGaps.UpdateDuplicatesPrimaryKey`), and rows of one statement are compared only with the old table
  (`Constraints.InsertKeepsUnique`, `ConstraintGaps.InsertDuplicates`, `Constraints.UpdateKeepsUnique`,
  `ConstraintGaps.UpdateDuplicates`).
- UPDATE of a parent never looks at its children (`Statements.UpdateIntegrityIff`, `ConstraintGaps.UpdateOrphans`).
- A transaction can see two versions of one row, at every isolation level. At Serializable the conflict check only
  looks for a committed deleter, so a write over a version of another transaction that is still open or was rolled
  back goes through. After an UPDATE the writer sees two versions (`MvccChains.SerializableWriteSafeIff`,
  `MvccChains.OpenWriterShowsTwoVersions`, `MvccChains.AbortedWriterShowsTwoVersions`), and after it
  commits so does a new transaction that never wrote the row (`MvccChains.ReaderAfterAbortedWriter`). After a
  DELETE the row stays visible to its deleter (`MvccChains.OwnDeleteVisibleIff`, `MvccChains.DeleteOverOpenWriter`).
  Below Serializable a lost update shows two versions (`MvccChains.LostUpdateShowsTwoVersions`). None of this happens
  to a reader where writers of a row take turns, and where they do a writer is affected iff it wrote over a version it
  could not see (`MvccTurns.RunVisibleIff`, `MvccTurns.RunReaderSeesOne`); SQL's BEGIN opens RepeatableRead, which
  these two cover.
- An UPDATE of a row whose newest version carries a tombstone, even one of a rolled-back DELETE, overwrites the cells
  and records no version (`MvccChains.UpdateRecordsIff`, `MvccChains.OverwriteWithoutVersion`).
- UPDATE overwrites cells in place, so an UPDATE of another transaction that has not even committed can move the answer of
  an open RepeatableRead reader. The answer stays iff the clause says the same of the changed cells of every row the
  reader sees (`ReaderScan.AnswerStableIff`, `ReaderScan.UncommittedUpdateMovesAnswer`); INSERTs, DELETEs and UPDATEs of
  columns the clause does not read never move it (`ReaderScan.AnswerStable`).
- VACUUM removes rows that have no version chain (`MvccVacuum.VacuumKeepsRowsIff`) and versions written outside a
  transaction (`MvccVacuum.AutocommitKeepsRowsIff`, `MvccVacuum.VacuumDropsAutocommitRows`).
- The serial scan looks a column index up as a name first (`RowScan.SerialExactIff`); the two WHERE evaluators read
  some string literals differently and compare negative numbers differently (`Predicates.CellsAgreeIff`,
  `Predicates.SidecarAgreesIff`); a comparison with the literal on the left is not flipped (`Predicates.LiteralLeftIff`).
- The interpreter's LIKE loop compares characters before it looks for wildcards, so a `%` in the string can be taken for
  the one in the pattern; it is LIKE for every pattern iff the string holds no `%` (`LikeLoop.LoopExactIff`).
- COUNT of a column without a NULL bitmap skips zero cells (`GroupBy.CountSkipsZeros`); composite GROUP BY keys
  can collide (`Grouping.HashGroupingExactIff`, `Grouping.CollidingKeys`).
- Encoded dates before 1970 order after later ones (`Calendar.EncodedDatesOrder`).

## Model

| member | source | states |
|---|---|---|
| DmlWhere.ParsePredicates | src/engine/helpers.rs:279-423 | the token loop yields the predicate list and the AND/OR list that the recursive reading of the text defines, or its error |
| DmlWhere.CombineMasks | src/engine/helpers.rs:425-489 | the per-predicate masks combined in order give every row the left-to-right value of the flat list |
| DmlWhere.EvalSimpleWhere | src/engine/helpers.rs:279-489 | parsing and combining together are the evaluation function the cascade proofs reason about, errors included |
| WhereMeaning.TestSelects | src/engine/helpers.rs:463-470 | `WHERE column op literal` selects a row iff its cell is =, !=, <, >, <= or >= the literal, operator by operator |
| WhereMeaning.StraightIff | src/engine/helpers.rs:474-489 | reading a condition from left to right without parentheses is reading the tree, whatever the tests say, iff every right operand uses only the connective it stands under |
| WhereMeaning.FlatIsTree | src/engine/helpers.rs:425-489 | for every such readable condition the evaluator's answer on a row is the tree's |
| WhereMeaning.WhereSelects | src/engine/helpers.rs:279-489 | UPDATE and DELETE address a row iff such a condition, as written, holds of it |
| DmlWhere.ScanPrinted | src/sql/ast.rs:470-475 | reading back the text of any condition tree gives exactly its leaves and connectives in order, and fails exactly when some leaf is unreadable |
| DmlWhere.WherePrinted | src/engine/helpers.rs:279-489 | on a non-empty table a printed tree evaluates iff it is readable, and then to its flattened form |
| CascadeWhere.CascadeTreeMeans | src/engine/dml.rs:1447-1484 | the condition tree built for a cascade, read as a tree, holds of a row iff the row's key is one of the deleted tuples |
| CascadeWhere.CascadeMask | src/engine/dml.rs:1447-1484 | what the text evaluates to: an error iff some deleted value is 2^63 or more, otherwise the left-to-right reading of every row's key |
| CascadeWhere.LeftToRightSound | src/engine/helpers.rs:474-489 | the left-to-right reading never selects a row that references no deleted tuple |
| CascadeWhere.LeftToRightComplete | src/engine/helpers.rs:474-489 | when the tuples agree beyond their first component it selects every row that does |
| CascadeWhere.LeftToRightIsLastRun | src/engine/helpers.rs:474-489 | for every list of tuples the evaluator accepts exactly the keys of the longest final run that agrees beyond the first column |
| CascadeWhere.TuplesExactIff | src/engine/dml.rs:236-259 | for the tuples of one statement: the evaluator accepts exactly them iff they agree on every column but the first |
| CascadeWhere.CascadeMissesIff | src/engine/dml.rs:1447-1484 | row by row: a row the condition tree selects is missed iff its key is a tuple outside the last run |
| CascadeWhere.CascadeExactIff | src/engine/dml.rs:236-259 | for every set of deleted parent rows at once: exact iff all parent rows agree on every referenced column but the first |
| CascadeWhere.CompositeCascadeMissesRow | src/engine/dml.rs:1447-1484 | a child (1, 2) survives the deletion of parents (1, 2) and (3, 4) although the tree selects it |
| CascadeWhere.NegativeKeyCascadeFails | src/engine/dml.rs:236-259 | cascading a parent key of -1 fails on every non-empty child |
| ForeignKeys.AcyclicIsRanked | src/engine/dml.rs:131-335 | every acyclic foreign-key graph has the rank that the cascade recursion decreases |
| ForeignKeys.LeastClosedUnique | src/engine/dml.rs:131-335 | the set of rows a cascade should remove is unique, so no visiting order of the children can change it |
| ForeignKeys.ClosedUnion | src/engine/dml.rs:236-259 | removing one closed set and then a set closed in what is left removes a closed set |
| ForeignKeys.IntegrityPruned | src/engine/dml.rs:131-335 | removing any closed set of rows keeps a parent for every surviving row |
| ForeignKeys.SingleColumnExact | src/engine/dml.rs:1447-1484 | a one-column key always meets the exactness condition |
| ForeignKeys.WholeCatalogExact | src/engine/dml.rs:131-335 | if all rows of every CASCADE parent agree beyond the first referenced column, every DELETE reads its cascades exactly |
| ForeignKeys.ExactForIff | src/engine/dml.rs:131-335 | a DELETE reads its cascades exactly iff the rows that have to go, its least closed set, agree beyond the first referenced column of every CASCADE key |
| DeleteTheory.CascadeSeed | src/engine/dml.rs:168-259 | the child DELETE of a cascade always has a WHERE clause and addresses only rows referencing a deleted tuple, all of them where the rows that have to go agree beyond the first referenced column, and never fails when all values are below 2^63 |
| DeleteTheory.CascadeStep | src/engine/dml.rs:236-259 | one cascade added to what was removed before stays inside every closed set above the addressed rows, and closed where this DELETE reads its cascades exactly |
| DeleteTheory.StillExact | src/engine/dml.rs:236-259 | a DELETE that reads its cascades exactly hands that on to every DELETE it starts |
| DeleteTheory.CascadeSeedExact | src/engine/dml.rs:236-259 | for any deleted tuples, the child DELETE addresses a row iff its key lies in the last run of the tuples |
| DeleteTheory.CascadeClearsIff | src/engine/dml.rs:236-259 | after a successful cascade no surviving child row references a deleted tuple iff every row that did referenced the last run of the tuples |
| DeleteTheory.LeafCascade | src/engine/dml.rs:236-259 | a cascade into a table without children removes exactly its rows of the last run |
| DeleteTheory.DirectDeadIsTaken | src/engine/dml.rs:137-259 | what the keys take one after the other is, in any order of the keys, the set of child rows some CASCADE key takes |
| DeleteTheory.LeafIntegrityIff | src/engine/dml.rs:1190-1408 | a successful DELETE on a parent whose CASCADE children have no children keeps integrity iff every child row that references a deleted tuple is in the last run of a CASCADE key or finds its key in a spared row |
| DeleteSuccess.CascadeReadsIff | src/engine/dml.rs:236-259 | a cascade's WHERE clause can be evaluated iff the child is empty or every deleted value is below 2^63 |
| DeleteSuccess.PassesNowIff | src/engine/dml.rs:193-259 | whether a key lets the DELETE through when its turn comes is decided by the catalog before the statement: RESTRICT iff every referrer was taken by an earlier CASCADE key of its table, CASCADE iff all values print or no row is left |
| DeleteSuccess.RestrictPassesIff | src/engine/dml.rs:193-235 | where all keys restrict, that is: no row anywhere carries the key of an addressed row |
| DeleteTheory.DeleteCompletes | src/engine/dml.rs:1388-1402 | compacting the addressed table once its children are clear completes the least closed set |
| DeleteTheory.CompactRows | src/engine/dml.rs:1388-1402 | keeping the same positions in every column keeps exactly those rows, in order |
| DmlEngine.CompactColumns | src/engine/dml.rs:1388-1402 | the compaction loops leave equally long columns holding the unmatched rows in order |
| DmlEngine.Engine.ChildKeys | src/engine/dml.rs:137-160 | every foreign key of another table that references the parent is found once, and nothing else, the keys of one table in their order |
| DmlEngine.Engine.DeletedParentValues | src/engine/dml.rs:168-190 | the referenced values of exactly the rows the mask marks |
| DmlEngine.Engine.AnyReferrer | src/engine/dml.rs:193-235 | the RESTRICT scan reports a referrer iff some child row carries a deleted tuple |
| DmlEngine.Engine.EnforceKey | src/engine/dml.rs:193-259 | one key, RESTRICT or CASCADE: RESTRICT changes nothing and succeeds iff no child row carries a deleted tuple, otherwise error 23504; CASCADE into a childless table succeeds iff its clause can be evaluated; the rows removed so far stay inside every closed set above the addressed rows, tables of equal or higher rank are untouched, success leaves no referrer under RESTRICT, and under CASCADE iff all referrers were in the last run, whose rows are gone |
| DmlEngine.Engine.CascadeKey | src/engine/dml.rs:236-259 | the same for the CASCADE branch, with the recursive DELETE |
| DmlEngine.Engine.EnforceFkOnDelete | src/engine/dml.rs:131-335 | the same for all children in any order: all child rows of the last runs are gone, and only they where CASCADE children have no children, where it succeeds iff every key lets the DELETE through; terminates by rank; succeeds when every key cascades and every value prints |
| DmlEngine.Engine.EnforceAndCompact | src/engine/dml.rs:1215-1408 | the outcome of a DELETE with a non-empty mask, successful or stopped by a child, and when it is which |
| DmlEngine.Engine.ExecuteDelete | src/engine/dml.rs:1190-1408 | DELETE terminates, only ever removes rows of the least closed set above the matched rows, removes exactly that set on success when the rows that have to go agree beyond the first referenced column of each CASCADE key, keeps survivors in order, leaves the addressed table alone on failure; on success the child rows of the last runs are gone at any depth, and where CASCADE children have no children only those, and integrity is kept iff every other referrer finds its key in a spared row; there it succeeds iff every key lets it through, and under RESTRICT keys alone iff no row carries the key of an addressed row |
| DmlEngine.Engine.ParentExists | src/engine/dml.rs:45-111 | the parent scan finds a match iff some parent row carries the values |
| DmlEngine.Engine.ValidateForeignKeys | src/engine/dml.rs:45-111 | accepts iff every row has a parent for every key, otherwise error 23503 |
| DmlEngine.Engine.UniqueFree | src/engine/dml.rs:443-582 | the column-level and table-level UNIQUE scans accept a row iff it collides on no unique column set |
| DmlEngine.Engine.CheckInsert | src/engine/dml.rs:443-582 | INSERT's constraint checks accept iff every row passes every CHECK and collides with no old row |
| DmlEngine.Engine.PushRows | src/engine/dml.rs:595-650 | pushing cell by cell appends the rows to the table |
| DmlEngine.Engine.ExecuteInsert | src/engine/dml.rs:345-732 | INSERT succeeds iff keys and constraints accept the rows, then appends them; otherwise nothing changes |
| DmlEngine.Engine.CheckUpdate | src/engine/dml.rs:873-1016 | UPDATE's checks accept iff every changed row passes every CHECK and collides with no other old row |
| DmlEngine.Engine.ApplyAssignments | src/engine/dml.rs:1057-1097 | the in-place cell loop leaves in each matched row the last value given to each assigned column, and every other cell as it was |
| DmlEngine.Engine.ExecuteUpdate | src/engine/dml.rs:742-1187 | UPDATE succeeds iff names resolve and all checks accept, then every matched row holds the last value the statement gives to each named column and all other cells stay; otherwise nothing changes |
| DmlEngine.Engine.ExecuteDml | src/engine/dml.rs:6-16 | every statement of the engine is a step of the run model below and leaves a catalog on which the next statement can run |
| DmlEngine.Engine.ExecuteAll | src/engine/dml.rs:6-16 | any list of statements is a run: constraints and referential integrity hold in the engine at its end under the per-statement conditions |
| Constraints.AssignIff | src/engine/dml.rs:1057-1063 | the row after the assignments is the one row in which each assigned column holds its last value and each other column its old one |
| Statements.UpdateRewrites | src/engine/dml.rs:1057-1097 | the same by column names, for every row of the table an UPDATE leaves |
| Constraints.RowAcceptedIff | src/engine/dml.rs:443-582 | INSERT accepts a row iff the table with that row alone added satisfies UNIQUE, PRIMARY KEY and CHECK |
| Constraints.UniqueHoldsIff | src/engine/dml.rs:466-582 | UNIQUE holds iff no two rows share the cell of a UNIQUE column or all cells of a UNIQUE constraint |
| Constraints.PrimaryKeyHoldsIff | src/engine/dml.rs:443-465 | PRIMARY KEY holds iff no two rows share the cell of a PRIMARY KEY column |
| CheckLogic.CheckExactIff | src/engine/helpers.rs:121-165 | the CHECK evaluator rejects exactly what three-valued logic finds false, whatever the comparisons say, iff every comparison stands under an even number of NOTs |
| CheckLogic.CheckMeans | src/engine/helpers.rs:121-211 | on rows, with each signed comparison written out: a row passes iff SQL does not find the CHECK false, when all columns exist or no NOT count is odd |
| CheckLogic.ChecksHoldIff | src/engine/helpers.rs:121-165 | all CHECKs of a table hold iff SQL finds none it declares false on any row |
| CheckLogic.NotUnknownRejects | src/engine/helpers.rs:144-198 | NOT over a comparison with an unknown column rejects every row |
| Constraints.InsertKeepsUnique | src/engine/dml.rs:443-582 | an accepted INSERT keeps UNIQUE and PRIMARY KEY iff its own rows do not collide with each other |
| ConstraintGaps.InsertDuplicates | src/engine/dml.rs:443-582 | INSERT of two equal rows into an empty table with a UNIQUE column is accepted |
| Constraints.InsertKeepsChecks | src/engine/dml.rs:443-582 | an accepted INSERT keeps every CHECK |
| Constraints.UpdateKeepsUnique | src/engine/dml.rs:873-1016 | an accepted UPDATE keeps UNIQUE iff no two matched rows agree on the unassigned columns of a unique set |
| ConstraintGaps.UpdateDuplicates | src/engine/dml.rs:873-1016 | UPDATE of all rows of a UNIQUE column to one value is accepted |
| Constraints.UpdateKeepsChecks | src/engine/dml.rs:873-1016 | an accepted UPDATE keeps every CHECK |
| Constraints.SingleChangeIff | src/engine/dml.rs:873-1016 | the UPDATE of a single row is accepted iff the table with that row changed satisfies UNIQUE and CHECK |
| Constraints.UpdatePrimaryKey | src/engine/dml.rs:873-1016 | an UPDATE that passed all checks keeps an assigned PRIMARY KEY duplicate-free iff at most one row matches and no other row holds the new value |
| Constraints.UpdateKeepsPrimaryKey | src/engine/dml.rs:873-1016 | the same for all PRIMARY KEY columns of a table together |
| ConstraintGaps.UpdateDuplicatesPrimaryKey | src/engine/dml.rs:873-1016 | UPDATE of a PRIMARY KEY to a value another row has is accepted |
| Constraints.PrunedConstraints | src/engine/dml.rs:1388-1402 | removing rows keeps UNIQUE, PRIMARY KEY and CHECK |
| Constraints.ReferencesSurviveIff | src/engine/dml.rs:752-829 | every key a child references is still carried after an UPDATE iff each matched referenced row keeps its key or shares it with an unmatched row |
| Statements.InsertKeepsIntegrity | src/engine/dml.rs:356-412 | an accepted INSERT of any number of rows keeps a parent for every row |
| Statements.InsertIntegrityIff | src/engine/dml.rs:45-111 | rows satisfy their foreign keys iff adding them keeps referential integrity |
| Statements.UpdateIntegrityIff | src/engine/dml.rs:752-829 | an accepted UPDATE keeps referential integrity iff each matched row that a child references keeps its referenced key or shares it with an unmatched row |
| ConstraintGaps.UpdateOrphans | src/engine/dml.rs:752-829 | UPDATE of a referenced key of a RESTRICT parent is accepted and orphans the child |
| ConstraintGaps.DeleteOrphans | src/engine/dml.rs:1190-1408 | a DELETE of parents (1, 2) and (3, 4) over a two-column CASCADE key succeeds and leaves the child (1, 2) without its parent |
| Statements.UnreferencedColumnsAreSafe | src/engine/dml.rs:752-829 | an UPDATE assigning no referenced column removes no referenced key |
| Statements.StepKeepsConstraints | src/engine/dml.rs:443-582 | every statement, accepted or rejected, keeps UNIQUE, PRIMARY KEY, CHECK and equal column lengths, under the exact conditions on the rows of the statement above |
| Statements.StepKeepsIntegrity | src/engine/dml.rs:131-335 | every statement, including a DELETE stopped half-way, keeps referential integrity: INSERT always, UPDATE under its exact condition, DELETE when its own cascades read exactly, or when CASCADE children have no children and the exact condition for them holds |
| Statements.StepKeepsSchema | src/engine/dml.rs:6-16 | no statement disturbs the schema, so a run can always go on |
| Statements.RunKeepsConstraints | src/engine/dml.rs:6-16 | UNIQUE, PRIMARY KEY, CHECK and equal column lengths hold at every moment of every run |
| Statements.RunKeepsIntegrity | src/engine/dml.rs:6-16 | referential integrity holds at every moment of every run, failed statements included |
| Statements.SingleColumnCascades | src/engine/dml.rs:1447-1484 | schemas whose CASCADE keys have one column allow every DELETE in every state |
| Mvcc.VisibleIff | src/txn/mvcc.rs:407-435 | the branches of the visibility test say: the creator is seen and the deleter is not |
| Mvcc.StepKeepsGood | src/txn/mvcc.rs:253-304 | every step keeps ids and commit ids sequential, open transactions registered, one chain per row and columns equally long |
| Mvcc.InsertedRows | src/engine/dml.rs:595-668 | under MVCC each new row stands at the end with the cells it was given and old rows keep theirs |
| Mvcc.UpdatedRowsWritten | src/engine/dml.rs:1057-1097 | under MVCC each matched row holds the last value given to each assigned column, every other cell is as before |
| MvccOutcomes.RolledBackUnseen | src/txn/mvcc.rs:295-304 | after a ROLLBACK, at every later moment of every run, no other reader at any level sees its versions, and its tombstones hide nothing |
| MvccOutcomes.RollbackErases | src/txn/mvcc.rs:295-304 | at every later moment every other reader scans what it would scan had the transaction written nothing |
| MvccOutcomes.CommitSeenIff | src/txn/mvcc.rs:280-292 | at every later moment another transaction takes a commit into account iff its snapshot was taken after it |
| MvccOutcomes.BegunAfterCommitSees | src/txn/mvcc.rs:253-292 | a transaction begun after a COMMIT sees its live versions and none it deleted, whatever happened in between |
| MvccOutcomes.OpenBeforeCommitUnmoved | src/txn/mvcc.rs:280-292 | one that was open before never sees its versions and keeps seeing what it deleted |
| MvccEngine.TxnManager.Begin | src/txn/mvcc.rs:253-276 | a new transaction gets the next id and the commit counter as snapshot |
| MvccEngine.TxnManager.Commit | src/txn/mvcc.rs:280-292 | commit takes the next commit id and closes the transaction |
| MvccEngine.TxnManager.Rollback | src/txn/mvcc.rs:295-304 | rollback marks the transaction aborted, forgets its snapshot and commits nothing |
| MvccEngine.TxnManager.CleanupAborted | src/txn/mvcc.rs:439-448 | forgetting aborted transactions changes the state of none |
| MvccEngine.TxnManager.IsVisibleWithSnapshot | src/txn/mvcc.rs:407-435 | the branches of the code compute the visibility predicate |
| MvccEngine.TxnManager.IsVisible | src/txn/mvcc.rs:542-572 | the branches of the version test, with the dirty reads of ReadUncommitted |
| Mvcc.LevelsAgree | src/txn/mvcc.rs:542-572 | above ReadUncommitted version lookups and scans see the same |
| MvccEngine.TxnManager.OldestActiveSnapshot | src/txn/mvcc.rs:503-511 | the loop finds the smallest open snapshot or the commit counter |
| MvccEngine.TxnManager.CheckWriteConflict | src/txn/mvcc.rs:930-975 | the chain walk reports a conflict iff the conflict predicate holds |
| MvccEngine.VersionedTable.AppendRowVersion | src/datasource/table.rs:191-200 | grows the chain list to the row and pushes the version at its end |
| MvccEngine.VersionedTable.MarkDeletedAt | src/datasource/table.rs:215-233 | tombstones the newest version iff it is live, reports whether it did, and changes nothing else |
| MvccEngine.VersionedTable.LatestVisibleVersion | src/datasource/table.rs:245-258 | the reverse scan returns the newest version visible at the reader's level, dirty reads of ReadUncommitted included, or none iff none is visible |
| MvccEngine.VersionedTable.InsertRows | src/engine/dml.rs:595-668 | INSERT extends the columns by the cells of the new rows and starts one chain per new row |
| MvccEngine.VersionedTable.UpdateRows | src/engine/dml.rs:1018-1137 | a Serializable conflict refuses the UPDATE with nothing changed; otherwise each matched row holds the last value given to each assigned column, and tombstones and new versions are those of the step model |
| MvccEngine.VersionedTable.DeleteRows | src/engine/dml.rs:1246-1318 | the same for DELETE, which leaves the columns alone |
| MvccEngine.VersionedTable.VacuumTable | src/txn/mvcc.rs:812-895 | chains shrink, then columns and chains of rows without versions go, as in the step model |
| MvccEngine.ExecuteStep | src/engine/vacuum.rs:79-115 | any step on the manager and the table together, VACUUM with its clean-up first, gives the next state of the step system; false iff a Serializable write was refused |
| MvccEngine.ExecuteSteps | src/engine/mod.rs:1567-1607 | any list of steps gives the state of the run, so what runs keep the objects keep |
| MvccSnapshots.DeadIsInvisible | src/txn/mvcc.rs:812-845 | a version VACUUM removes is invisible to every open transaction |
| MvccSnapshots.StepStable | src/engine/executor.rs:1608-1646 | no step of another transaction, VACUUM included, changes what an open transaction scans |
| MvccSnapshots.SnapshotStability | src/engine/executor.rs:1608-1646 | over every run of other transactions' steps an open transaction scans the same versions in the same order |
| MvccSnapshots.RowStability | src/engine/executor.rs:1618-1646 | without VACUUM each row index keeps showing the same version to a scan |
| MvccSnapshots.LookupStability | src/datasource/table.rs:245-258 | and to a version lookup, for every reader above ReadUncommitted |
| MvccSnapshots.DirtyReadMoves | src/txn/mvcc.rs:542-572 | a ReadUncommitted lookup moves as soon as another transaction writes the row |
| MvccChains.RunExtends | src/datasource/table.rs:191-233 | append-only history: along every run without VACUUM creators and values never change, a tombstone is set at most once, row indices never shift |
| MvccChains.RunKeepsCurrent | src/engine/dml.rs:1099-1137 | a live newest version written by UPDATE carries the row's current cells, along every run |
| MvccChains.RunKeepsLinked | src/engine/dml.rs:1099-1137 | each version's deleter is the next version's creator and only the last can be live, along every run |
| MvccChains.ConflictCheckMeans | src/txn/mvcc.rs:930-975 | on a linked chain the check fires iff the seen version's deleter has committed; a live seen version is the newest and the one tombstoned |
| MvccChains.FirstCommitterWins | src/engine/dml.rs:1018-1055 | when other writers have committed, a Serializable write is refused iff the seen version was superseded, otherwise tombstones exactly that version |
| MvccChains.UpdateRecordsIff | src/engine/dml.rs:1057-1137 | an UPDATE that is let through always overwrites the cells, and appends a version with them iff the newest version carries no tombstone |
| MvccChains.DeleteMarks | src/engine/dml.rs:1246-1318 | a DELETE that is let through marks the newest version of exactly the matched rows, if nobody had, and changes nothing else |
| MvccChains.OverwriteWithoutVersion | src/engine/dml.rs:1057-1137 | after a rolled-back DELETE a Serializable UPDATE changes the cells and records nothing |
| MvccChains.SingleVisibleIff | src/engine/executor.rs:1618-1646 | on every linked chain at most one version is visible iff the writers the reader sees come in one stretch |
| MvccChains.OwnWriteVisibleIff | src/engine/dml.rs:1099-1137 | after its own UPDATE a transaction sees one version iff it saw none below the newest |
| MvccChains.SerializableWriteSafeIff | src/engine/dml.rs:1018-1055 | a write that passes the conflict check leaves one visible version iff its transaction sees the newest writer; otherwise the seen version was overwritten by an open or rolled-back transaction |
| MvccChains.OwnDeleteVisibleIff | src/datasource/table.rs:215-233 | after its own DELETE a transaction sees no version iff it saw none below the newest and the newest, if already tombstoned, was not visible to it |
| MvccChains.SerializableDeleteSafeIff | src/engine/dml.rs:1246-1318 | a DELETE that passes the conflict check hides the row from its own transaction iff that transaction sees the newest writer |
| MvccChains.DeleteOverOpenWriter | src/engine/dml.rs:1246-1318 | a Serializable DELETE over an open transaction's version is let through and the row stays visible to its deleter |
| MvccChains.OpenWriterShowsTwoVersions | src/txn/mvcc.rs:930-975 | a Serializable UPDATE over an open transaction's version is let through and shows two versions |
| MvccChains.AbortedWriterShowsTwoVersions | src/txn/mvcc.rs:930-975 | the same over a rolled-back transaction's version |
| MvccChains.ReaderAfterAbortedWriter | src/engine/executor.rs:1618-1646 | after that UPDATE commits, a new transaction that never wrote the row sees two versions |
| MvccChains.OrderlyVisibleIff | src/engine/executor.rs:1618-1646 | with writers one after another, at most one version is visible iff the reader has not written over a version it cannot see |
| MvccChains.PureReaderSeesOne | src/engine/executor.rs:1618-1646 | with writers one after another, a transaction that never wrote the row sees at most one version |
| MvccChains.LostUpdateShowsTwoVersions | src/engine/dml.rs:1018-1055 | a RepeatableRead lost update makes two versions visible |
| MvccTurns.RetainSlice | src/txn/mvcc.rs:812-845 | of a chain written in turns VACUUM drops outlived versions at the start and aborted ones at the end, nothing in between |
| MvccTurns.VacuumedTurn | src/txn/mvcc.rs:812-845 | so VACUUM keeps such chains linked and their writers in commit order |
| MvccTurns.RunKeepsTurns | src/engine/dml.rs:1018-1137 | at every isolation level, runs in which each writer of a row has committed before the next one writes it, VACUUM included, keep every chain non-empty, linked and with its writers in commit order |
| MvccTurns.RunVisibleIff | src/engine/executor.rs:1618-1646 | after every such run an open transaction sees at most one version of a row iff it has not written over a version it cannot see |
| MvccTurns.RunReaderSeesOne | src/engine/executor.rs:1618-1646 | after every such run a transaction that never wrote a row sees at most one version of it |
| MvccSerializable.RunKeepsPolite | src/engine/dml.rs:1018-1055 | if each write is also Serializable or conflict-free, every write stays on top of a version its writer saw |
| MvccSerializable.PoliteSeesOne | src/engine/dml.rs:1018-1055 | after every such run every open transaction sees at most one version of every row, its own writes included |
| MvccSerializable.SerializableSeesOne | src/engine/dml.rs:1018-1055 | in particular after every run of Serializable writers that take turns |
| MvccVacuum.VacuumReclaims | src/txn/mvcc.rs:812-845 | VACUUM keeps a version iff its creator was not rolled back and its deleter did not commit by the oldest open snapshot |
| MvccVacuum.VacuumKeepsRowsIff | src/txn/mvcc.rs:812-895 | VACUUM leaves the rows an open transaction scans unchanged iff every row has a version chain |
| MvccVacuum.AutocommitKeepsRowsIff | src/txn/mvcc.rs:812-895 | VACUUM leaves the rows a reader outside a transaction scans unchanged iff every row has a chain and every row it sees has a visible version written inside a transaction |
| MvccVacuum.VacuumDropsAutocommitRows | src/txn/mvcc.rs:812-895 | a row inserted outside a transaction is scanned before VACUUM and gone after it |
| Predicates.CellsAgreeIff | src/engine/executor.rs:463-478 | both evaluators read a literal as the same cell iff it is not a decimal string of 2^63 or more whose hash differs from its value |
| Predicates.EvaluatorsAgree | src/engine/dispatch.rs:769-935 | for every AND/OR tree that compiles, the dispatcher's mask marks exactly the rows the compiled clause accepts, in either operand order |
| Predicates.CompiledMeans | src/engine/executor.rs:412-502 | with columns on the left the compiled clause is the unsigned comparison tree |
| Predicates.ComparisonAccepts | src/engine/executor.rs:448-478 | `column op n` compiles and accepts a row iff its cell is =, !=, <, >, <= or >= the number, operator by operator |
| Predicates.LiteralLeftIff | src/engine/executor.rs:448-455 | with the literal on the left the comparison is right on every cell iff the operator is = or != |
| Predicates.SidecarAgreesIff | src/engine/dispatch.rs:837-875 | through the 32-bit sidecar a row is answered as by the compiled clause iff the operator is an equality or cell and literal have one sign |
| RowScan.EvalWhere | src/exec/vectorized.rs:220-261 | the in-place mask evaluation gives every row the meaning of the tree |
| RowScan.CompiledIsWellScoped | src/engine/executor.rs:412-460 | every column index in a compiled clause exists |
| RowScan.SerialMarks | src/engine/executor.rs:1489-1553 | a clause turned back into an expression marks the rows the clause accepts on the columns its indices resolve to |
| RowScan.SerialExactIff | src/exec/vectorized.rs:471-484 | filters on a column select the right rows of every table iff no other column's name is that index in decimal |
| RowScan.Worker | src/engine/executor.rs:1706-1736 | one worker returns, in order, the rows of its morsel that are visible and match |
| RowScan.ParallelScan | src/exec/parallel.rs:169-229 | for every thread count, morsel size and completion order the result is the single-pass result over all rows |
| RowScan.KeptIsAnswer | src/engine/executor.rs:1686-1741 | that result is the strictly increasing list of exactly the rows that match and are visible |
| RowScan.RetainVisible | src/engine/executor.rs:1588-1606 | retain keeps exactly the visible indices in order |
| RowScan.FilterIndices | src/engine/executor.rs:1570-1606 | on both sides of the 1000-row threshold the result is the increasing list of matching visible rows, the serial side on the columns its indices resolve to |
| RowScan.AnswerUnique | src/engine/executor.rs:1570-1606 | there is only one such list, so serial and parallel results are equal |
| RowScan.FilterSelects | src/engine/executor.rs:1570-1606 | with one comparison a visible row is in the answer iff its cell is =, !=, <, >, <= or >= the literal |
| ReaderScan.ActiveReaderSees | src/engine/executor.rs:1624-1646 | with an active transaction a row is visible iff it has no versions or one that transaction's own snapshot shows |
| ReaderScan.IdleReaderSees | src/engine/executor.rs:1634-1646 | without one iff it has no versions or one whose creator has committed or wrote outside a transaction and whose deleter has not |
| ReaderScan.AnswerStableIff | src/engine/executor.rs:1570-1646 | the answers of a fixed open reader before and after any run of other transactions without VACUUM are equal iff the clause says the same of the cells of every row it sees |
| ReaderScan.AnswerStable | src/engine/executor.rs:1570-1646 | they are equal whenever no UPDATE of the run assigns a column the clause reads |
| ReaderScan.ScanTwice | src/engine/executor.rs:1570-1606 | so row selection run before and after such a run returns one list, for every number of threads |
| ReaderScan.UpdateMovesAnswerIff | src/engine/dml.rs:1057-1097 | one UPDATE of another transaction leaves the answer alone iff the clause says the same of every matched row the reader sees before and after the assignments |
| ReaderScan.UncommittedUpdateMovesAnswer | src/engine/dml.rs:1057-1097 | an uncommitted UPDATE takes a row out of a RepeatableRead reader's answer |
| Like.BuildLikeMask | src/engine/dispatch.rs:955-1022 | the mask gives every string the shortcut's verdict |
| Like.LikeFilter | src/engine/dispatch.rs:772-790 | the same with NOT |
| Like.ShortcutExact | src/engine/dispatch.rs:955-1022 | on a non-empty pattern with wildcards only as leading or trailing `%` the shortcut is the recursive LIKE |
| Like.ShortcutWrong | src/engine/dispatch.rs:936-954 | for every other pattern some string is answered wrongly |
| Like.LikeCuts | src/engine/query_interpreter/expr.rs:2144-2171 | a pattern of two parts matches iff the string can be cut so that each part matches its piece |
| Like.LikeParts | src/engine/query_interpreter/expr.rs:2144-2171 | `%` matches every string, `_` every single character, any other character itself |
| Like.ShortcutExactIff | src/engine/dispatch.rs:936-1022 | the shortcut is LIKE on every string iff the pattern has that shape |
| LikeLoop.MatchLike | src/engine/query_interpreter/expr.rs:2144-2171 | the one-pass loop that goes back to the last `%` returns the answer of its step function, which on every string without `%` is LIKE |
| LikeLoop.LoopIsLike | src/engine/query_interpreter/expr.rs:2144-2171 | remembering only the last `%` is enough: on strings without `%` the loop accepts exactly what the recursive LIKE accepts, for every pattern |
| LikeLoop.LoopExactIff | src/engine/query_interpreter/expr.rs:2155-2158 | it does so for every pattern iff the string holds no `%` |
| Grouping.BuildBuckets | src/engine/dispatch.rs:1131-1137 | the bucket of a key holds exactly its filtered rows, in order, and every bucket's key is present |
| Grouping.KeysInOrder | src/engine/dispatch.rs:1138-1145 | the emitted keys are the distinct keys |
| Grouping.DistinctIsFirstSeen | src/engine/dispatch.rs:1138-1145 | one entry per present key, ordered by first occurrence |
| Grouping.GroupsConserve | src/engine/dispatch.rs:1131-1145 | any quantity summed over the groups, in any order of the groups, is its sum over the filtered rows |
| Grouping.HashRow | src/engine/dispatch.rs:1377-1385 | the wrapping multiply-add loop is the recursive hash |
| Grouping.HashGroupingExactIff | src/engine/dispatch.rs:1377-1385 | hashing forms exactly the groups of the composite keys iff no two different present keys have one hash |
| Grouping.CollidingKeys | src/engine/dispatch.rs:1380-1383 | the keys (1, 0) and (0, 0x517cc1b727220a95) share a group |
| Grouping.SharedPrefixNoCollision | src/engine/dispatch.rs:1380-1383 | rows that agree on all grouping columns but the last never collide |
| GroupBy.ExecuteSingleKey | src/engine/dispatch.rs:1125-1375 | one column per SELECT item and one value per distinct key in first-seen order, then ordered and limited; window and expression items are errors |
| GroupBy.BucketIsGroup | src/engine/dispatch.rs:1131-1137 | a group holds exactly the filtered rows whose cell is its key |
| GroupBy.AggregateCorrect | src/engine/dispatch.rs:1201-1298 | each function, by its name in any case, equals the direct computation over the group's rows: COUNT, COUNT of non-zero cells, SUM, AVG, MIN, MAX, COUNT_DISTINCT; 0 for any other name |
| GroupBy.GroupColumnHoldsKeys | src/engine/dispatch.rs:1146-1200 | the grouping column of the result holds every present key once, and each key is the cell of all rows of its group |
| GroupBy.SumExactIff | src/engine/dispatch.rs:1233-1243 | the u64 sum is the real sum iff the real sum is below 2^64 |
| GroupBy.CountSkipsZeros | src/engine/dispatch.rs:1212-1231 | COUNT of a column without a NULL bitmap counts all rows iff no cell is zero |
| GroupBy.SingleKeyConserves | src/engine/dispatch.rs:1131-1145 | an emitted COUNT(*) column adds up to the filtered rows, an emitted SUM column encodes integers adding up to the filtered total when that fits |
| GroupBy.SortIndices | src/engine/dispatch.rs:1325-1343 | the row order is a permutation along which the column rises, or falls for DESC, equal values in their original order |
| GroupBy.StableSortUnique | src/engine/dispatch.rs:1325-1343 | there is only one such order |
| GroupBy.OrderAndLimit | src/engine/dispatch.rs:1325-1375 | every result column is a prefix of the rows in that order, of the limited length, and the ORDER BY column of the result rises or falls; an unknown ORDER BY column is an error |
| GroupBy.ExecuteMultiKey | src/engine/dispatch.rs:1377-1522 | one result row per present hash in some order, then ordered and limited |
| GroupBy.MultiKeyConserves | src/engine/dispatch.rs:1377-1470 | the same for several keys, in every order of the groups and whether or not hashes collide |
| GroupBy.MultiKeyRow | src/engine/dispatch.rs:1386-1470 | without collisions a result row shows one composite key and aggregates exactly its rows |
| GroupBy.MultiKeyRefinesVectorKey | src/engine/executor.rs:546-584 | without collisions the result lists each composite key exactly once with the rows that grouping by the key itself gives |
| GroupBy.FilteredRows | src/engine/dispatch.rs:1085-1087 | the filtered rows are the rows of the mask, each once |
| GroupBy.ExecuteGroupBy | src/engine/dispatch.rs:1077-1522 | unresolved grouping columns are errors; otherwise the single-key or multi-key answer over the filtered rows |
| Calendar.EraIsFloor | src/datasource/csv.rs:454-457 | the truncating division with its correction is the floor, also for negative years |
| Calendar.NextDayIsOneMore | src/datasource/csv.rs:450-461 | for every valid date the next calendar day's number is one more |
| Calendar.EpochIsZero | src/datasource/csv.rs:450-461 | 1970-01-01 is day 0 |
| Calendar.WalkCounts | src/datasource/csv.rs:450-461 | the day number is the day-by-day count from 1970-01-01, forwards and backwards |
| Calendar.WalkReaches | src/datasource/csv.rs:450-461 | for every valid date, walking its day number of days from 1970-01-01 leads to it |
| Calendar.DaysOrderDates | src/datasource/csv.rs:450-461 | for all valid dates, negative years included, day numbers order and identify dates |
| Calendar.NoOverflowIff | src/datasource/csv.rs:454-461 | no 32-bit intermediate overflows iff the day number is an i32 below 2^31 - 719468 |
| Calendar.StringsOrderDates | src/datasource/csv.rs:423-448 | lexicographic order of `YYYY-MM-DD` strings is calendar order |
| Calendar.FullDateRange | src/datasource/csv.rs:423-461 | every full-date stays within range, without overflow, and is negative iff before 1970 |
| Calendar.EncodedDatesOrder | src/datasource/csv.rs:423-461 | the unsigned order of two encoded dates is their calendar order iff both lie on one side of 1970-01-01; encodings identify dates |
| Calendar.ParsedDateCounts | src/datasource/csv.rs:423-461 | the encoding of a full-date from 1970 on is the one number of days the walk from 1970-01-01 needs to reach it, before 1970 that count plus 2^64 |
| Calendar.WalkRoundTrip | src/datasource/csv.rs:423-461 | printing the day reached after n days and parsing it gives n, up to 9999-12-31 |
| WindowFrames.WrittenBounds | src/engine/query_features.rs:324-346 | each of the five kinds of bound as written in SQL parses to that bound |
| WindowFrames.BoundRoundTrip | src/engine/query_features.rs:324-346 | parsing a printed bound gives the bound, for every u64 offset |
| WindowFrames.FrameRoundTrip | src/engine/query_features.rs:373-393 | parsing a printed frame gives the frame, for every type and every pair of bounds |
| WindowFrames.ParsedTextReparses | src/engine/query_features.rs:292-346 | printing whatever was parsed and parsing again gives the same frame |
| Savepoints.Engine.ExecuteSavepoint | src/engine/transaction.rs:6-19 | pushes the name with the current catalog |
| Savepoints.Engine.ExecuteRollbackTo | src/engine/transaction.rs:24-40 | restores and truncates as the step model says; an unknown name is an error that changes nothing |
| Savepoints.Engine.ExecuteRelease | src/engine/transaction.rs:43-55 | drops the savepoint and all newer ones; an unknown name is an error that changes nothing |
| Savepoints.SavepointsFaithful | src/engine/transaction.rs:6-55 | in every run each open savepoint holds the catalog of the step that created it, and the open savepoints are those of bracket matching on the commands |
| Savepoints.RollbackRestores | src/engine/transaction.rs:24-40 | ROLLBACK TO restores the catalog at the creation of the most recent open savepoint of that name |
| Savepoints.BelowUntouched | src/engine/transaction.rs:6-55 | steps that resolve above a stack position leave the entries below it unchanged |
| Savepoints.SavepointUndoes | src/engine/transaction.rs:24-40 | SAVEPOINT, any work above it and ROLLBACK TO give back catalog and stack, and rolling back again changes nothing |
| Savepoints.ReleaseDrops | src/engine/transaction.rs:43-55 | RELEASE keeps the catalog and drops the savepoint with everything newer |

## Left out

- NULLs, SET NULL and SET DEFAULT: NULL bitmaps are not kept in step with the columns by the mutations.
- Self-referencing and cyclic foreign keys, ON UPDATE actions, DROP TABLE of parents, foreign keys in MVCC mode: integrity is not enforced there.
- INSERT with a partial column list and UPDATE with expressions on the right: only full-width rows and literal assignments are modelled.
- Row identity in the cascade theory is by table and cell values, which is all a WHERE clause and a foreign key look at.
- DmlWhere.ParsePredicates: works on tokens with integer literals; character-level lexing, keyword column names, string, float, hex and NULL literals are not modelled.
- DmlWhere.EvalSimpleWhere: the same.
- CHECK expressions beyond AND, OR, NOT and integer comparisons.
- MvccSnapshots.SnapshotStability: speaks of versions and row indices, not of the cells SELECT reads, which UPDATE overwrites in place; `ReaderScan.AnswerStableIff` says what that does to answers.
- MvccEngine.VersionedTable.UpdateRows: takes the row mask as given, so the re-evaluation of WHERE under MVCC is not modelled.
- MvccEngine.ExecuteSteps: runs over one table, each step naming its open transaction; COMMIT or ROLLBACK without BEGIN is not modelled.
- Writes outside a transaction (beyond what VACUUM does to them), WAL, checkpoint and Raft.
- Predicates.EvaluatorsAgree: covers trees without LIKE and without order comparisons of a string column with a string literal; the fallback to the vectorized filter for unsupported trees, and float, hex and date literals, are not modelled. The hash of a string is a parameter.
- RowScan.ParallelScan: a worker that panics and loses its morsel is not modelled; workers are pure here.
- LIKE is modelled on characters, without escapes; the substring index is its contract, a contains-search.
- GroupBy.AggregateCorrect: SUM and AVG are stated before float encoding, which is a parameter; the u64 sum wraps as in a release build; float columns and NULL bitmaps are not modelled.
- GroupBy.ExecuteGroupBy: does not cover a single string grouping column, which takes a separate path; ORDER BY uses the first sort key only, as the code does.
- ORDER BY with LIMIT in the other executor, which limits before sorting.
- Calendar: strings that are not `YYYY-MM-DD` with digits parse to 0 in the model as in the code; month and day validity is not checked by the code and is required where dates are compared.
- White space and upper-casing are the ASCII ones.
- DmlEngine.Engine.ExecuteDelete: below the CASCADE children of the addressed table the conditions for exactness and for success are sufficient only; a deeper DELETE may also come out right because no row references a missed tuple, and when tails differ there the removed set depends on the order in which the children are visited.
- JOINs, the expression compiler, SIMD kernels, planner, plan cache, materialized views, index lookup, file readers, COPY, server: not modelled; they would add I/O and plumbing or rest on other subsystems.
