# mmw, verified

A Dafny model of three parts of mmw and proofs about them. `dafny verify dfyconfig.toml` checks everything.

**The database dump** (`mmw db dump`). From a snapshot, a catalog and a configuration, the walk picks seed rows, expands them to capped children level by level, closes the selection under references and attach rules, and prints it as a psql script. `Selection` says what must be selected, on the graph of rows and without any order; `Expansion` says which rows a seed expands and to which children, and `Closure` what the closure adds for which row's sake, both on rows and positions and in the words of the configuration; `Walk` is the code, with its growing sets, frontiers and worklists, proved to select exactly that. `Output` writes the script and says what loading it leaves; `Dump` puts everything together: the restored database holds exactly the selected rows, and all its foreign keys resolve.

**The transactional outbox.** `Outbox` is the protocol as a step system: commands commit events, any number of relays lock, publish, mark, fail and crash, in any interleaving. `Relay` is the code of one relay among others, proved to take only steps of the protocol. `UnitOfWork` runs arbitrary program trees of statements and nested transactions on a savepoint stack and proves that they mean what a simple semantics says. `Deletion` joins racing delete commands, the entity table and the outbox in one step system; `DeleteCommand` is the generated code that runs in it.

**Text edits and their readers.** `FileChecks` (the whitespace fixer against the whitespace checker), `GoWork` (the go.work splice against the go.work parser) and `Insert` (repeated marker insertion), over all texts.

`Lists`, `Graphs`, `Database`, `Config`, `Catalog` and `Text` are the vocabulary of these.

What the environment decides is a parameter: the answers of seed queries and transform expressions, the outcome of every begin, statement, publish and commit (including a commit whose confirmation is lost), the steps of all other participants, the clock, `filepath.Clean` and gofmt.

## Where code and documentation differ

The model follows the code.

- walk.go:57-58 says that only seed rows expand to children. The code expands every row it reaches below the child depth, so this holds in every snapshot iff the depth is at most 1 (`OnlySeedRowsExpandIff`); `ChildIsExpanded` gives a snapshot for every greater depth. That a row is expanded at most once, by the first seed that reaches it, holds (`ExpandedByOneSeed`).
- uow.go:61 says that a failed nested transaction leaves the outer one intact. When the database does as asked, it does so iff the nested body does not swallow a failure, which is to return nil after a failed statement (`FailedBlockLeavesOuterIntactIff`). A body that swallows one makes the release fail, and the outer transaction is lost (`SwallowedFailureLosesOuter`); code that returns an error after every failed statement never swallows one (`DisciplinedSwallowsNothing`). The rollback's own error is discarded (uow.go:62): when it never reaches the server, a failed block keeps what it wrote and the outer transaction commits it (`UnsentRollbackKeepsWrites`). `OuterIntactIff` and `FailedBlockIsErasedIff` give the exact conditions for every answer of the database.
- catalog.go:147-149 says that everything is sorted so that a dump is deterministic. The tables are collected by schema and name joined with a dot, and of two tables with one key the later one stays, so the order of the server's answer does not matter iff no two tables share a key (`TableOrderIsFreeIff`).
- files.go:96-97 says that the fixer strips trailing whitespace. A blank that a carriage return hides from one scan survives it (`HiddenBlankSurvives`); `FixedIsCleanIff` gives the exact condition.
- workspace.go:12 says that the module is added to go.work if it is not already present. What is tested is the text of the entry at the end of a line (`PresentIff`), and the place is found by text too, so a successful update adds the module for the reader iff the text is not there and a use block is open at the splice (`UpdateListsIff`). An entry that is commented out counts as present (`CommentedEntryIsNotAdded`); an entry that is listed but written differently, with a carriage return for one, does not, and is listed twice after the update (`UpdateDuplicatesIff`, `ReturnsListTwice`); an indented closing parenthesis sends the entry into the next block (`IndentedCloseLosesModule`).
- relay.go:111-131 does not look at the error that may end its row loop. The model lets the loop end early at any row; the rows published by then are marked and the rest stay for the next batch, so no property depends on it.

## Model

| member | source | states |
|---|---|---|
| `Database.AnswerPointwise` | internal/pkg/dump/sql.go:90-116 | A child or parent query over many ctids answers exactly what it answers for each ctid alone, so neither the per-parent cap nor NULL handling depends on what else is in the array. |
| `Database.AnswerExists` | internal/pkg/dump/sql.go:90-116 | Every ctid a query answers is a row of the table it selects from. |
| `Database.ChildCap` | internal/pkg/dump/sql.go:92-106 | The cap counts per parent: a child row is answered iff it references the parent and fewer than perParent earlier rows in key order reference the same parent; 0 lifts the cap. |
| `Database.RefersIsSql` | internal/pkg/dump/sql.go:92-116 | The meaning of the key comparison: a row refers to another iff SQL's three-valued row comparison is true, so a NULL on either side never matches. |
| `Config.QualifyOnce` | internal/pkg/dump/config.go:155-162 | A name with a dot stands for itself and any other for a table of the schema public; the result has a schema, and qualifying it again changes nothing. |
| `Config.MatchesConcat` | internal/pkg/dump/config.go:215-225 | Glob matching decomposes: a pattern in two parts matches exactly what splits into a match of each. |
| `Config.OneToken` | internal/pkg/dump/config.go:215-225 | A star matches exactly the texts without a slash, any other token exactly one character it accepts; with the decomposition this fixes every pattern. |
| `Catalog.Children` | internal/pkg/dump/catalog.go:58-68 | Exactly the foreign keys that reference the table. |
| `Catalog.Parents` | internal/pkg/dump/catalog.go:70-80 | Exactly the foreign keys declared on the table. |
| `Catalog.LoadForeignKeys` | internal/pkg/dump/catalog.go:167-192 | The foreign keys between dumpable tables, each as often as the server sent it, sorted by child, parent and child columns. |
| `Catalog.SortsAreLexicographic` | internal/pkg/dump/catalog.go:186-212 | Foreign keys are sorted by child table and then by parent table, the columns of a sequence by table and then by column. |
| `Catalog.LoadSequences` | internal/pkg/dump/catalog.go:194-215 | One sequence per name in use, names sorted, its dumpable columns each once and sorted. |
| `Catalog.LoadedUses` | internal/pkg/dump/catalog.go:194-215 | A sequence of the catalog has a column iff the server named that column for that sequence and the column's table is dumpable. |
| `Catalog.LoadedNames` | internal/pkg/dump/catalog.go:194-215 | The catalog has a sequence iff the server named it for some column of a dumpable table. |
| `Catalog.LoadCatalog` | internal/pkg/dump/catalog.go:147-218 | The loaded catalog is the one the query answers describe, and meets the validity every later phase relies on. |
| `Catalog.LoadedUnique` | internal/pkg/dump/catalog.go:147-149 | Tables that do not depend on the server's order give a catalog that does not either: keys, sequences and the set of foreign keys are the same. Foreign keys that tie in the sort may change places; no script depends on it (`DumpDeterministic`). |
| `Catalog.TableOrderIsFreeIff` | internal/pkg/dump/catalog.go:150-165 | The order in which the server returns the tables does not reach the catalog iff no two different ones share a key. |
| `Catalog.LastOneStays` | internal/pkg/dump/catalog.go:153-161 | Of tables that share a key, the one that the server sent last stays. |
| `Catalog.AttachColumns` | internal/pkg/dump/catalog.go:251-259 | An error iff a transformed column does not exist; otherwise exactly the given transforms are added. |
| `Catalog.ApplyTransforms` | internal/pkg/dump/catalog.go:241-263 | An error iff a transform names an unknown table or column; otherwise a column is transformed iff some name for its table sets it, by the last such name in sorted order, and nothing else in the catalog changes. |
| `Lists.StringLeIff` | internal/pkg/dump/catalog.go:241-263 | The order of the sorted names: by the first character that differs, a prefix first. |
| `Catalog.TransformedUnique` | internal/pkg/dump/catalog.go:241-263 | The transforms determine the catalog. |
| `Graphs.FrontierSuffices` | internal/pkg/dump/walk.go:104-121 | Expanding only the newest level reaches what expanding everything selected so far reaches, level by level. |
| `Graphs.WithinIsExpands` | internal/pkg/dump/walk.go:96-124 | The level-by-level expansion holds exactly the vertices with a path of at most depth steps that avoids the earlier selection. |
| `Graphs.ClosureIsLeastFixpoint` | internal/pkg/dump/walk.go:126-152 | The rows reachable by finite chains are closed, contain the start, and are below every other closed set above it. |
| `Graphs.FixpointIsClosure` | internal/pkg/dump/walk.go:126-152 | Conversely, a closed set of reachable rows above the start is that set. |
| `Selection.NeighboursInUniverse` | internal/pkg/dump/walk.go:126-128 | A closure step stays inside the finite snapshot. |
| `Selection.SelectionUnique` | internal/pkg/dump/walk.go:55-86 | A walk has one answer: it depends on the snapshot, the configuration and the foreign keys as a set, and on no table, key or batch order. |
| `Selection.ExpandedExcludedIsSeed` | internal/pkg/dump/walk.go:109-111 | Child expansion puts a row of an excluded table in the selection only as a seed row. |
| `Selection.ExcludedProvenance` | internal/pkg/dump/walk.go:65-73 | Every selected row of an excluded table is a seed row or is referenced by another selected row. |
| `Expansion.KidsAreFirst` | internal/pkg/dump/sql.go:92-106 | A row is a child that a seed takes for a parent iff no exclude pattern names its table and it is among the first rows, in key order, that reference the parent by one foreign key: all of them when an all_children pattern names the table, else as many as the seed's cap, the configuration's, or 20. |
| `Expansion.StageIsCapped` | internal/pkg/dump/walk.go:96-124 | A seed adds its own rows and, of every row it expands, all the first children in key order up to the cap; it adds no other row. |
| `Expansion.ExpandedIff` | internal/pkg/dump/config.go:169-175 | A row is expanded to children iff a chain of fewer steps than the seed's depth, 1 when it gives none, leads to it from the seed's rows outside the earlier selection. |
| `Expansion.ChildrenPerRow` | internal/pkg/dump/config.go:177-196 | Through one foreign key a row brings in all its children if an all_children pattern names their table, and otherwise exactly as many as there are up to the cap, which is the seed's, else the configuration's, else 20. |
| `Expansion.OnlySeedRowsExpandIff` | internal/pkg/dump/walk.go:55-58 | Only the seed's own rows are expanded to children in every snapshot iff its depth, which is 1 when it gives none, is at most 1. |
| `Expansion.ChildIsExpanded` | internal/pkg/dump/walk.go:104-121 | For every depth of 2 or more, a snapshot in which a row that the seed did not return is expanded. |
| `Expansion.ExpandedByOneSeed` | internal/pkg/dump/walk.go:55-58 | Over the whole walk a row is expanded by one seed at most, the first that selects it, and a row that only the closure brings in by none. |
| `Closure.NeighbourIff` | internal/pkg/dump/walk.go:154-180 | Row by row: the closure goes from a row to exactly the rows whose key values it references, and to those that reference it by the key of an attach rule. |
| `Closure.ClosureOnRows` | internal/pkg/dump/walk.go:126-152 | Beyond the rows of its seeds a walk selects every row that comes with a selected one in this way, each for another selected row's sake, and nothing that a set with these properties need not hold. |
| `Closure.SeedRowsIff` | internal/pkg/dump/walk.go:96-103 | A seed's rows are those that its query names in the table the seed names. |
| `Closure.AcceptsIff` | internal/pkg/dump/walk.go:59-73 | A walk begins iff every seed names a table of the catalog, and for every attach rule some key leads between the tables it names and no exclude pattern names the attached one. |
| `Walk.RowSet.Add` | internal/pkg/dump/walk.go:22-38 | The set gains exactly the ctids; the result lists those not seen before, each once. |
| `Walk.QueryStrings` | internal/pkg/dump/walk.go:233-245 | All rows of the answer, in any order. |
| `Walk.QueryBatched` | internal/pkg/dump/walk.go:182-195 | For every chunk size, the chunks together select what one query over all ctids selects. |
| `Walk.Walker.ExpandKey` | internal/pkg/dump/walk.go:108-118 | One foreign key adds its capped children unless its child table is excluded, and lists exactly the rows that are new. |
| `Walk.Walker.ExpandTable` | internal/pkg/dump/walk.go:107-119 | One table of the frontier adds exactly the capped, non-excluded children of its rows and lists the new ones. |
| `Walk.Walker.ExpandLevel` | internal/pkg/dump/walk.go:105-121 | One level adds the children of the whole frontier, in any table order; the next frontier is exactly the new rows. |
| `Walk.Walker.ExpandSeed` | internal/pkg/dump/walk.go:96-124 | The selection gains exactly the rows reached from the seed's rows in at most childDepth capped child steps along rows no earlier seed selected; the rows whose children are looked for are those reached below childDepth; every row still enters at most one frontier. |
| `Walk.Walker.FindNeighbours` | internal/pkg/dump/walk.go:154-180 | Exactly the rows referenced by, or attached to, the given rows. |
| `Walk.Walker.AddFound` | internal/pkg/dump/walk.go:142-146 | The selection gains what was found and the next worklist exactly the rows that are new, without empty entries. |
| `Walk.Walker.CloseRound` | internal/pkg/dump/walk.go:136-148 | A round adds the neighbours of the whole worklist, in any table order; the next worklist is exactly the new rows. |
| `Walk.RoundShrinks` | internal/pkg/dump/walk.go:126-128 | A non-empty next worklist means that the unselected part of the finite snapshot strictly shrank. |
| `Walk.RoundKeeps` | internal/pkg/dump/walk.go:135-149 | The worklist invariant: selected rows are reachable, and those no longer pending have all their neighbours selected. |
| `Walk.Walker.CloseSelection` | internal/pkg/dump/walk.go:126-152 | On every graph, cyclic or not, it ends within (unselected rows at entry) + 1 rounds, with exactly the rows reachable by reference and attach steps. |
| `Walk.CheckSeeds` | internal/pkg/dump/walk.go:60-64 | An error iff a seed table is not in the catalog. |
| `Walk.CheckAttach` | internal/pkg/dump/walk.go:65-73 | An error iff an attach rule has no foreign key or its table is excluded. |
| `Walk.SelectRows` | internal/pkg/dump/walk.go:55-86 | walk as a whole: the stages of the seeds, then the closure; over all seeds and levels no row enters two frontiers, and a row the closure brings in enters none. |
| `Output.PickedExactlyOnce` | internal/pkg/dump/sql.go:123-130 | COPY takes each selected row of the table once and no other row. |
| `Output.PickedStableOrder` | internal/pkg/dump/sql.go:59-67 | COPY writes in stable order, the reverse of the key order that caps children. |
| `Output.OutRowColumn` | internal/pkg/dump/sql.go:132-146 | A transformed column loads as its expression on the row, any other as it is. |
| `Output.WriteCopies` | internal/pkg/dump/output.go:60-81 | One COPY block per table with selected rows, in key order. |
| `Output.WriteSetVals` | internal/pkg/dump/output.go:83-90 | One setval per sequence that a table with selected rows draws from. |
| `Output.WriteData` | internal/pkg/dump/output.go:56-97 | The script: the COPY blocks, then the setvals, then COMMIT. |
| `Output.CutScriptCommitsNothing` | internal/pkg/dump/output.go:56-97 | A script that ends anywhere before its end, as after a failed write, holds no COMMIT; the whole script ends in its only one. |
| `Output.ScriptLoads` | internal/pkg/dump/output.go:56-97 | Loading the script into an empty database leaves every table with exactly its expected rows and every used sequence at the greatest value of its columns. |
| `Output.GreatestBounds` | internal/pkg/dump/output.go:33-43 | The setval argument is at least 1, an upper bound of every value any drawing column holds, and 1 or one of those values. |
| `Output.NextValueIsFree` | internal/pkg/dump/output.go:45-54 | After the load the next value of an ascending sequence exceeds every loaded value drawn from it, however many tables share it; with values of at least 1, only an ascending sequence meets this. |
| `Dump.WriteDump` | internal/pkg/dump/dump.go:14-44 | A script iff the transforms apply and the walk's checks pass, for the catalog the answers describe; then the script is the dump of the selection. |
| `Dump.TransformKeepsSelection` | internal/pkg/dump/config.go:31-34 | Two dumps of the same data that differ only in their transforms select the same rows. |
| `Dump.DumpDeterministic` | internal/pkg/dump/catalog.go:147-149 | The same data gives the same script each time, in whatever order the server answers the catalog queries, for tables that do not share a key. |
| `Dump.DumpExact` | internal/pkg/dump/output.go:59-81 | The script restores exactly the selection: every selected row is a row of a dumped table, and each table loads one row per selected row, in stable order, and nothing else. |
| `Dump.DumpConsistent` | internal/pkg/dump/walk.go:55-86 | If every catalog foreign key resolves in the snapshot and no key column is transformed, every one of them resolves in the restored database, for every configuration. |
| `Dump.SequenceIsSetIff` | internal/pkg/dump/output.go:83-90 | The script sets a sequence iff the server named it for a column of a table with selected rows. |
| `Dump.NextValueExceedsLoaded` | internal/pkg/dump/output.go:33-54 | After the load, for every column and sequence that the server named together, the sequence is set and its next value, when it ascends, exceeds every loaded value of the column. |
| `Outbox.StepKeepsLocks` | pkg/platform/db/outbox/relay.go:97-110 | Every step keeps open batches free of duplicates, marked rows and rows held by another batch. |
| `Outbox.StepBalances` | pkg/platform/db/outbox/relay.go:111-148 | Every step of any participant keeps the delivery account of every row balanced. |
| `Outbox.EveryRunIsSafe` | pkg/platform/db/outbox/relay.go:88-149 | In every run of commands and any number of relays: a marked row was published, the bus carries only committed rows, no two open batches share a row, and the publishes of a row are the rolled-back batches that had published it, plus one if it is marked, plus one if it is in flight. |
| `Outbox.NoPublishAfterMark` | pkg/platform/db/outbox/relay.go:133-148 | Once the mark of a row has committed, no later step publishes it or unmarks it. |
| `Outbox.ExactlyOnceWithoutAborts` | pkg/platform/db/outbox/relay.go:111-148 | A run without rollbacks delivers every marked row exactly once and no row that is neither marked nor in flight. |
| `Outbox.SingleRelayDeliversInOrder` | pkg/platform/db/outbox/relay.go:97-130 | With one relay and commits in time order, first publications are in occurred_at order over the whole run, across failed batches and retries. |
| `Outbox.TwoRelaysCanReorder` | pkg/platform/db/outbox/relay.go:97-104 | A run of two relays that publishes the younger row first, so a single relay is needed for the order. |
| `Outbox.LateCommitReorders` | pkg/platform/db/outbox/relay.go:97-104 | A run of a single relay in which an older row that commits late is first published after a younger one, so commits in time order are needed too. |
| `Outbox.BatchRuns` | pkg/platform/db/outbox/relay.go:88-149 | From any state without open batches a batch without failures is possible; it publishes the fetched rows in order, marks exactly them and leaves nothing open. |
| `Outbox.BatchesDrain` | pkg/platform/db/outbox/relay.go:96-149 | k such batches leave max(0, n - 100k) of n unpublished rows; the bus gains the drained rows in order of occurred_at, exactly these are marked, and no row left is older than one drained. |
| `Outbox.FetchExists` | pkg/platform/db/outbox/relay.go:96-104 | In every state the fetch query has an answer. |
| `Outbox.CanAlwaysDrain` | pkg/platform/db/outbox/relay.go:88-149 | After every run, whatever batches are open, some steps without further commits close them all, and publish and mark every row: no state is stuck. |
| `Relay.FetchRows` | pkg/platform/db/outbox/relay.go:96-104 | The oldest unpublished, unlocked rows, at most 100, in order. |
| `Relay.World.Interfere` | pkg/platform/db/outbox/relay.go:55-72 | Other participants never touch the batch a relay holds. |
| `Relay.PublishRows` | pkg/platform/db/outbox/relay.go:111-130 | The row loop publishes the rows in order up to the first that is refused or can no longer be read, and fails iff one was refused. |
| `Relay.CloseBatch` | pkg/platform/db/outbox/relay.go:131-148 | It marks exactly the published rows iff none was refused, the UPDATE, if there is one, succeeds and the commit takes effect, and rolls back otherwise; success is reported iff the commit is confirmed. |
| `Relay.ProcessBatch` | pkg/platform/db/outbox/relay.go:88-149 | Whatever others do in between: nothing iff begin or the fetch fails; otherwise one pass of the protocol (lock, publish in order until a row is refused or the read is cut, mark that prefix or roll back), and which one is determined by the answers. A batch in which nothing goes wrong publishes and marks every row it locked. The transaction is never left open. |
| `Relay.Start` | pkg/platform/db/outbox/relay.go:55-72 | What the relay does over any number of ticks is a chain of whole passes of the protocol, one for each tick whose batch could be opened, and each as that tick's answers determine; afterwards the protocol invariant holds and every marked row is on the bus. |
| `UnitOfWork.Session.Execute` | pkg/platform/pg/uow/uow.go:28-50 | A statement runs on the transaction of the context, or on the pool where it commits at once; in an aborted transaction it fails. |
| `UnitOfWork.Session.BeginNested` | pkg/platform/pg/uow/uow.go:54-59 | A savepoint is a statement: in an aborted transaction it fails. |
| `UnitOfWork.Session.WithTransaction` | pkg/platform/pg/uow/uow.go:52-97 | Nested or root, it means what the semantics says for every answer of the database, a refused or unsent rollback included; it shows other sessions nothing but a root commit, and leaves the savepoint stack as deep as it found it unless it leaves the transaction aborted or some rollback was not carried out. |
| `UnitOfWork.Session.Run` | pkg/platform/pg/uow/uow.go:52-97 | For every program tree of statements and nested transactions, running it on the savepoint stack leaves the committed database, the result and the sequence of visible databases that the program means. |
| `UnitOfWork.PoisonStays` | pkg/platform/pg/uow/uow.go:61-74 | After a failed statement nothing in the same transaction takes effect until a rollback, whatever the program does. |
| `UnitOfWork.FailedBlocksAreErased` | pkg/platform/pg/uow/uow.go:52-97 | The committed database is what the surviving statements leave when run without any transaction: a failed block that is rolled back is erased with its descendants, an uncommitted root whole. |
| `UnitOfWork.InsideIsPlain` | pkg/platform/pg/uow/uow.go:52-97 | For every program: it ends as a meaning says that stops at the first failed statement that no rollback undoes, with the same result, and the same database when there is none. |
| `UnitOfWork.RootIsAtomic` | pkg/platform/pg/uow/uow.go:79-96 | For every body: a root commits exactly the plain meaning of its body iff begin and commit succeed and that meaning returns nil with no failed statement left; otherwise nothing. |
| `UnitOfWork.OuterIntactIff` | pkg/platform/pg/uow/uow.go:54-74 | For every answer of the database: when a nested transaction leaves the outer one usable, and what it leaves there then. |
| `UnitOfWork.FailedBlockIsErasedIff` | pkg/platform/pg/uow/uow.go:61-69 | A failed nested transaction that leaves the outer one usable leaves it unchanged iff its rollback was carried out or it had changed nothing. |
| `UnitOfWork.UnsentRollbackKeepsWrites` | pkg/platform/pg/uow/uow.go:61-62 | A program whose nested block fails, whose rollback never reaches the server, and whose root commits what the block wrote. |
| `UnitOfWork.FailedBlockLeavesOuterIntactIff` | pkg/platform/pg/uow/uow.go:61-69 | When the database does as asked, the outer transaction is lost iff the nested body swallows a failure; a failed nested transaction leaves it usable and unchanged iff it does not. |
| `UnitOfWork.DisciplinedSwallowsNothing` | pkg/platform/pg/uow/uow.go:66-69 | A body that returns an error after every failed statement swallows none, whatever the database. |
| `UnitOfWork.SwallowedFailureLosesOuter` | pkg/platform/pg/uow/uow.go:61-74 | A nested body that swallows a statement error and returns nil costs the outer transaction its commit, although the outer body handles the error. |
| `Deletion.StepKeeps` | pkg/scaffold/_templates/slice/modules/[[.Name]]/internal/application/command/[[.Entity]]_delete.go:49-68 | Every step of commands and relays keeps the joint invariant of entity table, row locks, pending and committed outbox rows. |
| `Deletion.GoneIffOneEvent` | pkg/scaffold/_templates/slice/modules/[[.Name]]/internal/application/command/[[.Entity]]_delete.go:13-15 | In every interleaving, a row that ever existed is gone iff the outbox holds exactly one Deleted event for it; any other id has none. |
| `Deletion.BusTellsTheTruth` | pkg/scaffold/_templates/slice/modules/[[.Name]]/internal/application/command/[[.Entity]]_delete.go:13-15 | A Deleted message on the bus is about a row whose deletion has committed, and one outbox row is behind all the messages about it. |
| `Deletion.GoneIsNeverForgotten` | pkg/scaffold/_templates/slice/modules/[[.Name]]/internal/application/command/[[.Entity]]_delete.go:13-15 | A row that is gone has an outbox row that is delivered, or held by a relay, or free to be fetched. |
| `Deletion.AtMostOneWinner` | pkg/scaffold/_templates/slice/modules/[[.Name]]/internal/adapters/outbound/persistence/postgres/[[.Entity]]_repository.go:71-84 | Of the commands racing to delete a row, one commits iff the row is gone, and never two. |
| `Deletion.EachWinLeavesOneEvent` | pkg/scaffold/_templates/slice/modules/[[.Name]]/internal/application/command/[[.Entity]]_delete.go:57-67 | Each commit of a command on an id adds exactly one Deleted event for it; a rolled back command adds none. |
| `Deletion.DeletionIsFinal` | pkg/scaffold/_templates/slice/modules/[[.Name]]/internal/application/command/[[.Entity]]_delete.go:13-15 | After a deletion has committed, in every continuation: the row stays gone, no command on it commits again, and its Deleted event stays the only one. |
| `DeleteCommand.Aggregate.Delete` | pkg/scaffold/_templates/slice/modules/[[.Name]]/internal/domain/[[.Entity]]/[[.Entity]].go:97-106 | Appends to the pending events the Deleted event with the aggregate's id and name, the user and the time. |
| `DeleteCommand.BuildModels` | pkg/scaffold/_templates/module/modules/[[.Name]]/internal/adapters/outbound/events/outbox_dispatcher.go:39-79 | One unpublished row per event, in order, under the routing key of its type; an error iff a type has no key or an event cannot be marshalled. |
| `DeleteCommand.FindRow` | pkg/scaffold/_templates/slice/modules/[[.Name]]/internal/adapters/outbound/persistence/postgres/[[.Entity]]_repository.go:37-65 | The row is found and its Deleted event recorded, iff the query succeeds and the row is there; otherwise nothing happens. |
| `DeleteCommand.RemoveRow` | pkg/scaffold/_templates/slice/modules/[[.Name]]/internal/adapters/outbound/persistence/postgres/[[.Entity]]_repository.go:70-84 | DELETE takes the row and its lock iff it succeeds, the row is there and no other command holds it; affecting no row is an error. |
| `DeleteCommand.InsertEvents` | pkg/scaffold/_templates/module/modules/[[.Name]]/internal/adapters/outbound/events/outbox_dispatcher.go:39-79 | Iff every event has a routing key and can be marshalled and the INSERT succeeds, the command's uncommitted outbox rows become one unpublished row per event, in order, with its event as payload and its routing key as topic, under fresh ids; otherwise nothing happens. |
| `DeleteCommand.Execute` | pkg/scaffold/_templates/slice/modules/[[.Name]]/internal/application/command/[[.Entity]]_delete.go:38-71 | No transaction iff there is no user, the id is not positive or Begin fails. Otherwise the command follows the script find, delete, dispatch, commit, or a part of it and then rolls back. After its own commit the row is gone in this and every later state and the outbox holds its one Deleted event; success is reported iff that commit is confirmed. When nobody else acts, the commit happens iff the row is there and unlocked and every answer is good, and otherwise nothing changes. |
| `FileChecks.Base` | internal/pkg/checks/files.go:34-37 | filepath.Base: the last element of the path between slashes, "." for an empty path and "/" for one of nothing but slashes. |
| `FileChecks.GatedIff` | internal/pkg/checks/files.go:15-47 | The line rules skip a file iff it has more than 512000 bytes and the last element of its path is none of the lock file names, or a NUL byte is among its first 8000 bytes. |
| `FileChecks.TrailingLines` | internal/pkg/checks/files.go:141-155 | Exactly the lines with trailing blanks, numbered from 1, in order. |
| `Text.ScanBelow` | internal/pkg/checks/files.go:141-147 | What the scanner yields: every line without its last carriage return, and text below the last newline as a line of its own. |
| `FileChecks.CheckFileContent` | internal/pkg/checks/files.go:113-169 | A file that cannot be found is an error; directories pass; an oversized file reports only its size, even when it cannot be read; otherwise an unreadable file is an error, a binary one reports nothing, and any other exactly its trailing lines and a missing final newline. |
| `FileChecks.FixFileContent` | internal/pkg/checks/files.go:171-213 | A missing file, and an unreadable one within the size limit, is an error; a directory or a gated file is left alone; any other becomes its scanned lines, trimmed, each with a newline. |
| `FileChecks.FixedIsCleanIff` | internal/pkg/checks/files.go:195-202 | The checker accepts the fixed text iff no scanned line, trimmed, ends in a blank and a carriage return. |
| `FileChecks.SecondFixIsIdentityIff` | internal/pkg/checks/files.go:195-202 | A second fix changes nothing iff no scanned line, trimmed, ends in a carriage return. |
| `FileChecks.FixThenCheck` | internal/pkg/checks/files.go:113-213 | The same two equivalences through the size and binary gates of the file before and after the fix. |
| `FileChecks.OrdinaryTextIsFixed` | internal/pkg/checks/files.go:113-213 | A text whose carriage returns are each followed by a newline or end it is clean after one fix, and a second fix is the identity, whatever the file. |
| `FileChecks.HiddenBlankSurvives` | internal/pkg/checks/files.go:199-202 | A concrete text whose trailing blank survives the fixer. |
| `FileChecks.FixedLength` | internal/pkg/checks/files.go:195-208 | Fixing adds at most one byte, and only when the final newline is missing. |
| `FileChecks.FixOutgrowsIff` | internal/pkg/checks/files.go:181-184 | The fixer pushes an ungated file over the size limit iff it has exactly that size and is not exempt, its newline is missing, and no line loses a byte. |
| `FileChecks.FullLineOutgrows` | internal/pkg/checks/files.go:181-184 | A file that meets this: one line of the greatest size without a newline. |
| `FileChecks.GateStays` | internal/pkg/checks/files.go:39-47 | For a file without a NUL byte that is not at the very size limit with its newline missing: fixing moves it past neither gate, and the fixed file meets the line rules iff no scanned line hides a blank before a carriage return. |
| `GoWork.WorkModules` | cmd/mmw/cmd/workspace/workspace.go:31-65 | The reader's loop over scanned lines returns the modules of the plain lines; no module is an error. |
| `GoWork.SingleUse` | cmd/mmw/cmd/workspace/workspace.go:43-54 | A line that uses one path, added below any text, is read as that one module when no block is open there; inside a block the reader takes the whole line for a path. |
| `GoWork.InUseIffOpens` | cmd/mmw/cmd/workspace/workspace.go:45-49 | The reader is inside a use block iff some line opens one and no later line closes it. |
| `GoWork.UpdateGoWork` | pkg/scaffold/workspace.go:13-47 | An error iff the file cannot be read or the entry is neither present nor has a place; otherwise the file is unchanged when the entry is present, and has the entry spliced in when not. |
| `GoWork.SpliceIff` | pkg/scaffold/workspace.go:25-38 | The entry goes before the first newline and ")" at or after the first "use (", not before an earlier one. |
| `GoWork.ReaderSeesEntryIff` | pkg/scaffold/workspace.go:25-39 | After a splice the reader returns the old list with the new module right after the entries above the splice iff it is inside a use block there, and the old list otherwise. |
| `GoWork.PresentIff` | pkg/scaffold/workspace.go:20-23 | The text test is true iff some line ends in the entry. |
| `GoWork.UpdateListsOnceMore` | pkg/scaffold/workspace.go:12-47 | On every file, both exits included: an update adds the module once to what the reader lists, iff the entry is not there as text and a use block is open at the splice, and otherwise nothing. |
| `GoWork.UpdateListsIff` | pkg/scaffold/workspace.go:12-47 | After an update the reader lists the module iff it did before or the update added it. |
| `GoWork.UpdateDuplicatesIff` | pkg/scaffold/workspace.go:12-47 | A module that is listed at most once is listed twice after an update iff it was listed before, not by the very text of the entry, with a use block open at the splice. |
| `GoWork.CommentedEntryIsNotAdded` | pkg/scaffold/workspace.go:20-23 | For every name, a go.work whose entry is commented out: the update succeeds, changes nothing, and the reader does not list the module. |
| `GoWork.ReturnsListTwice` | pkg/scaffold/workspace.go:20-23 | For every name, a go.work with carriage returns at its line ends: the module is listed, and twice after the update. |
| `GoWork.UpdateAddsModule` | pkg/scaffold/workspace.go:25-39 | For a use block on its own lines, whatever stands above it without a "use (" and whatever below, and an entry that is not there as text: the entry becomes the block's last line and the reader gains exactly the new module, after the block's other entries. |
| `GoWork.SecondUpdateChangesNothing` | pkg/scaffold/workspace.go:20-23 | Whatever the file, a second update changes nothing. |
| `GoWork.IndentedCloseLosesModule` | pkg/scaffold/workspace.go:33-38 | A go.work with an indented closing parenthesis and a replace block: the entry lands in the replace block and the reader never lists it. |
| `Insert.IndentLines` | pkg/scaffold/insert.go:47-50 | The snippet's lines, each behind the marker line's indentation. |
| `Insert.InsertBefore` | pkg/scaffold/insert.go:29-67 | False without a marker, true without a change when the first line is known, otherwise the edit, which a .go file must also get through the formatter. |
| `Insert.EditTextLines` | pkg/scaffold/insert.go:35-51 | The text after an edit has exactly the edited lines. |
| `Insert.InsertionsStack` | pkg/scaffold/insert.go:35-51 | New snippets without the marker end up in insertion order directly above the marker, indented like it, and nothing else changes. |
| `Insert.ReplayChangesNothing` | pkg/scaffold/insert.go:41-45 | After any number of such insertions, replaying any of the calls changes nothing. |
| `Insert.FileAfterInsertions` | pkg/scaffold/insert.go:29-67 | Both on texts: the lines of the file after all the calls, and the identity of every replay. |
| `Insert.SnippetsAboveMarker` | pkg/scaffold/insert.go:29-67 | The same for a marker that does not start with a blank, as all of the scaffold's, under what a caller can check: no snippet line contains the marker, and the first lines are new. |
| `Insert.NormalIgnoresIndent` | pkg/scaffold/insert.go:42-45 | Indenting a line does not change how it compares with a snippet's first line. |
| `Insert.FieldsIff` | pkg/scaffold/insert.go:40-45 | The fields of a line are the words it consists of, whatever the white space around them. |
| `Insert.KnownIff` | pkg/scaffold/insert.go:40-45 | A snippet counts as present iff some line of the file consists of the words of its first line. |
| `Insert.IndentHidesNoMarker` | pkg/scaffold/insert.go:14-21 | For a marker that does not start with a blank, indenting a line neither adds nor hides it. |

## Left out

- PostgreSQL, pgx and Watermill internals: locking, savepoints, ctid validity, COPY and setval are abstract contracts. Fetching with SKIP LOCKED is one atomic step; Rollback after Commit, even a failed one, does nothing; rolling back to a savepoint also discards it; a statement, SAVEPOINT or RELEASE that fails aborts the transaction.
- The SQL text of the queries, quoting, `FROM ONLY` on inherited tables and column types: queries are functions of the snapshot.
- Verbatim user SQL (where, query, order_by, limit, transform expressions): a seed's ctids and a transform's values are parameters.
- YAML decoding and validation of the dump configuration: `Config` is the validated value, with parsed glob patterns.
- Errors while reading from or writing to files and connections during a dump: a failed query or write ends the dump without a script.
- Walk.QueryStrings: a query is answered; its error, which only ends the walk, is left out.
- Walk.QueryBatched: the same, for the error that ends the loop over the chunks.
- Walk.SelectRows: the same, for the error of a data query.
- Dump.WriteDump: the same, for errors of catalog queries, of COPY and of writes; `CutScriptCommitsNothing` says what a script is worth that was cut short.
- Config.MatchesConcat: the documented meaning of a glob. `path.Match` keeps the first match it finds for the part after a star, which can miss one when a character class accepts a slash; `path.Match` itself is not part of this model.
- Catalog.LoadCatalog: of tables that share a key the catalog keeps the later one, as the code does; the snapshot holds one table per key, so the rows of the other ones are not modelled.
- Catalog.ApplyTransforms: returns a new catalog instead of updating the tables in place; the tables are not shared, so nothing else could see the update.
- UnitOfWork.Session.Run: a body uses only the context it was given, and other sessions do not write to the database while it runs; concurrent writers are part of `Deletion`.
- UnitOfWork program trees are finite and branch on whether a statement failed, found rows or found none; a longer decision is several statements.
- DeleteCommand.RemoveRow: a DELETE that still waits for the row's lock when its turn comes is cancelled; the model has no fairness that would grant it the lock.
- The generated update and gateway commands, and aggregates of other shapes: their protocol is that of `Other` steps in `Deletion`.
- Insert.InsertBefore: gofmt is a parameter, and what it does to a .go file is not modelled; the results on many insertions are about other files.
- AppendBungenTable and UpdateMiseToml: smaller edits of the same kind.
- Unicode white space in TrimSpace and Fields, and the line length limits of bufio.Scanner: white space is ASCII and lines have any length.
- FileChecks.CheckFileContent: one file at a time, which does not change between stat and read; resolving targets through git is left out, and so is a failed write in FixFileContent.
- Fairness: nothing is proved about relays or commands eventually being scheduled; `CanAlwaysDrain` says that a run that delivers everything always exists.
- HTTP, server lifecycle, configuration loading, scaffold rendering, the TUI, linters, architecture and coverage reports: thin wrappers or parsing with only easy claims.
