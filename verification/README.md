# Verified models of the platform's planning and verification tools

This project models, in Dafny 4.11, the parts of the repository that decide something: the semantic platform
generator that compiles a canonical registry to a relational schema and a registry change to a migration, the two
migration-graph verifiers, the dependency-cycle searches, the scoring and lifecycle checks of the intelligence and
evolution verifiers, the federation graph, the generation-run guard in the database, the runtime baseline's failure
grouping, and the production readiness decision with the evidence plan derived from it. `dafny verify dfyconfig.toml`
checks everything.

## How the models are organised

- **SQL is data.** `Database` has tables with typed columns, NOT NULL, UNIQUE, CHECK, foreign keys and rows, the
  assignment of a constant to a column of some type, the names a statement introduces, and a partial function that
  runs a script statement by statement. `Run(pg, true, …)` is PostgreSQL, for any server `pg`: which texts it reads as
  names, and as which ones, are parameters. `Run(pg, false, …)` leaves aside what does not depend on rows (names that
  can be read and are free, lists that can be read, foreign keys that find their tables); `StaticChecks` proves that
  the first is the second if a script passes those checks before it starts, and fails otherwise. `SchemaCompiler` and
  `Schema` compile a registry, `MigrationPlan` diffs two, `MigrationSql` compiles the plan. `BackfillSafety` (one
  block of statements), `Refinement` (one table), `MigrationRun` (any prefix of the plan) and `MigrationTheorems` are
  about data; `ForeignKeyOrder`, `Legibility`, `NameChecks` and `TableNames` bring the static checks back to
  registries; `ScriptTheorems` puts both together. `SchemaRefinement` compares the result with the schema compiled
  afresh, `TwoHops` two migrations with the direct one, and `MigrationExamples` and `HopExamples` have concrete
  registries.
- **Searches are objects.** `CycleSearch` and `CyclePaths` are the two shapes of the recursive `visit`, as classes
  whose methods change `visiting` and `visited` in place. `Digraph` has the graph theory they are measured against;
  `MigrationGraph` says what a clean migration graph is, `RevisionFiles` what the files' literals say about it;
  `MigrationVerify` and `EtraConformance` are the two verifiers.
- **Loops are methods.** A loop of the source that appends to a list is a method with invariants, tied by its
  postcondition to a function of the inputs; what that function guarantees is proved in lemmas beside it.
- **Words and values are tied to the documents.** Where a theorem speaks of a name, a literal, a finding or a score by
  the function that computes it, another says what that is without the function: `SqlNames` and `EmittedTables` (names
  and columns), `PlanMeaning` (entries of a plan), `DeclaredValues` (what a migration writes), `RevisionFiles`
  (parents), `RegistryValidation` (what validation refuses), `FailureCases`, `FederationRules` and `EvidenceSchema`.
- **Python is explicit.** `PythonValues` has what the ranking relies on: hashing, sets, booleans that count as
  numbers, and the operations that raise.
- **Steps are statements on a table.** `GenerationRun` has rows with NULLs, three-valued conditions, the trigger, the
  table's own constraints, and arbitrary sequences of inserts, updates and deletes.

## What turned out to be false of the code

Each is stated with the exact condition under which the expectation holds, and with an input on which it fails.

- A migrated schema is not always the schema compiled afresh. Up to names of UNIQUE constraints it is exactly when
  surviving properties keep their flags and enumerations (`SchemaRefinement.SchemaMatchesIff`; a dropped `required`:
  `MigrationExamples.DroppedFlagDisagrees`); to the letter, exactly when also no required unique scalar was added to a
  kept object, whose UNIQUE gets a name that CREATE TABLE does not give (`SchemaRefinement.SchemaExactIff`;
  `MigrationExamples.CodedSchemaIsNotExact`).
- Column types of surviving properties need not agree, even when the plan is empty: an entry of `types` called
  `Boolean` or `Timestamp` hides the built-in type (`SchemaRefinement.TypesAgreeIff`;
  `MigrationExamples.HiddenTypeDisagrees`).
- A ready migration whose script is emitted can fail without any data: nothing compares a backfill literal with the
  type of its column. On empty tables it runs exactly when the script is admitted, whatever the rows, and every
  literal can be assigned (`ScriptTheorems.EmptyTablesRunIff`; a text for a Boolean:
  `MigrationExamples.IllTypedLiteralFails`).
- Validation does not look at names. A script runs only if the server reads every name in it, and those it introduces
  are free and different as the server reads them (`ScriptTheorems.BaselineRunsIff`,
  `ScriptTheorems.MigrationRunsIff`; a property called `order`: `MigrationExamples.ReservedWordFails`, and exactly
  when for any other name, `MigrationExamples.OnePropertyRunsIff`). The names of UNIQUE constraints run tables and
  columns together, so that those of two properties can meet (`ScriptTheorems.UniqueNamesMeet`; `b_c` of `a` and `c`
  of `a_b`: `MigrationExamples.MeetingNamesFail`).
- Enumeration values are quoted but not escaped, so the generated CHECK list denotes the enumeration exactly when no
  value contains a quote (`SqlLiteral.EnumListReadsBackIff`). The value `it's` makes the script fail on every server
  (`SqlLiteral.QuotedValueBreaksList`, `MigrationExamples.QuotedValueFails`).
- Tables are created in alphabetical order, so a script fails as soon as a new object refers to a later new one
  (`ForeignKeyOrder.ScriptTargetsIff`; `MigrationExamples.ForwardReferenceFails`). For this reason two migrations may
  run where the direct one does not (`HopExamples.HopsRunDirectFails`); where all run, they leave the same schema, and
  the same rows exactly when both routes fill in the same values (`TwoHops.TwoHopsFillAlikeIff`).
- A plan can be ready and its emission still raise: the planner accepts any backfill, the compiler only scalar
  literals, and validation accepts types without values (`MigrationSql.EmissionRaisesIff`;
  `MigrationExamples.OtherBackfillRaises`, `MigrationExamples.UnlistedTypeRaises`). So a validated registry has a
  column for a property exactly when its type, if it is an enumeration, lists values
  (`SchemaCompiler.ValidatedColumnsResolve`).
- Planning itself raises when the migration found for an added property has no identifier, even if the property is
  optional (`MigrationPlan.MigrationPlanOf` says exactly when; `MigrationExamples.MissingIdRaises`).
- A behavior may list a transition that belongs to another behavior and leads out of its declared states
  (`Registry.ListedTransitionsStayDeclaredIff`; `Registry.ListedTransitionCanEscape`).
- The two migration verifiers need not agree. On the same rows they agree on heads and dangling parents exactly when
  no listed parent is hidden by a later row of the same revision, and on cycles always
  (`MigrationGraph.VerifiersAgreeIff`; `MigrationGraph.DuplicatesBreakAgreement`); each by its own reading of the
  literals, exactly when every parent named as text is named as a name by the last file of some revision
  (`MigrationGraph.ReadingsAgreeIff`; `MigrationGraph.ListLiteralBreaksAgreement`).
- The generation-run trigger lets through transitions from or to a NULL status, since `IF NOT (unknown)` does not
  raise; the NOT NULL constraint of the column is what closes this (`GenerationRun.GuardReadsNullAsAnyStatus`;
  `GenerationRun.GuardAloneLetsARunGoBack`).
- The lifecycle test accepts every contiguous part of a lifecycle exactly when no state is listed twice
  (`Lifecycle.AcceptsEverySliceIffDistinct`; `Lifecycle.ReturningLifecycleRefused`).
- An accepted optimizer does not keep the ranking from raising. It raises exactly when the investments are not a list
  of dictionaries, an identifier cannot be hashed, dependencies do not make a set, a confidence is not a number, or
  two investments of one rounded score have identifiers that cannot be compared (`InvestmentRanking.RankingRaisesIff`;
  `InvestmentRanking.NullDependenciesRaise`, `InvestmentRanking.MixedIdentifiersRaise`).

## Model

| member | source | states |
|---|---|---|
| ScriptTheorems.MigrationRunsIff | tools/semantic_platform_generate.py:395-476 | For any two validated registries whose plan is ready and whose script is emitted, over any data in the schema of the previous one (whose names do not collide): the script runs on PostgreSQL if and only if the server can read it, the names it introduces are free and different, no new object refers to a later new one, and every backfill literal can be assigned to its column and fits its table; then current names do not collide, every old row and cell is kept, added columns hold the value of the literal or NULL (which is the declared one: `DeclaredValues.FilledAsDeclared`, `DeclaredValues.OptionalIsNull`), added objects have their compiled tables, and nothing else exists |
| ScriptTheorems.EmptyTablesRunIff | tools/semantic_platform_generate.py:395-506 | Over a database without rows the migration runs if and only if the server can read it, its new names are free and different, no new object refers to a later new one, and every backfill literal can be assigned to the type of its column |
| DeclaredValues.FilledAsDeclared | tools/semantic_platform_generate.py:457-506 | After a migration that runs, in every row there was, the column of an added required property holds the JSON value declared for it: true or false as that truth value (or its word, in a text column), a text as itself or as what it reads as in the column's type, a number as its text; the declared value is that of the first literal backfill for the property in the first migration that lists it |
| DeclaredValues.DeclaredScalars | tools/semantic_platform_generate.py:497-506 | In particular a declared truth value is itself in a Boolean column, and a declared text itself in a text column |
| DeclaredValues.OptionalIsNull | tools/semantic_platform_generate.py:473-476 | And the column of an added optional property is NULL in every row there was |
| StaticChecks.StrictRun | tools/semantic_platform_generate.py:419-476 | A script runs on PostgreSQL as it does without static checks if, before it starts, each statement can be read, the names of all are free and different, and each foreign key finds its table in the order of the script; otherwise it fails, whatever the rows |
| Legibility.ScriptLegibleIff | tools/semantic_platform_generate.py:445-476 | An emitted script can be read if and only if the server reads the names of new tables, new columns and their constraints and the `uq_` names of required unique additions, and the list of each new enumeration is a list of literals |
| NameChecks.FreeMigrationIsUnambiguous | tools/semantic_platform_generate.py:445-476 | If the names a ready migration introduces are free and different, no two tables and no two columns of a table of the current registry have one name |
| ScriptTheorems.UniqueNamesMeet | tools/semantic_platform_generate.py:468-471 | Two required unique additions whose `uq_` names the server reads alike make the migration fail over any data |
| MigrationExamples.MeetingNamesFail | tools/semantic_platform_generate.py:468-471 | Properties `b_c` of `a` and `c` of `a_b` are such ones: validated, planned, emitted, and failing on every server |
| MigrationExamples.IllTypedLiteralFails | tools/semantic_platform_generate.py:457-466 | A text declared for a required Boolean validates, plans and is emitted, and its migration fails over any number of rows, none included |
| SchemaRefinement.SchemaMatchesIff | tools/semantic_platform_generate.py:302-373 | The migrated schema is the one compiled from the current registry, UNIQUE names aside, if and only if every surviving property keeps its flags and its enumeration |
| SchemaRefinement.SchemaExactIff | tools/semantic_platform_generate.py:457-471 | It is that schema to the letter if and only if, besides, no required unique scalar was added to a kept object |
| SchemaRefinement.NamesAlwaysAgree | tools/semantic_platform_generate.py:419-476 | Without any proviso the migrated database has the compiled schema's table names and column names |
| SchemaRefinement.TypesAgreeIff | tools/semantic_platform_generate.py:933-966 | Column types agree if and only if no surviving property's built-in type is hidden by an enumeration in one of the two registries only |
| SchemaRefinement.ForeignKeysFindTables | tools/semantic_platform_generate.py:942-949 | Every foreign key of the migrated schema targets a table of it |
| TwoHops.HopLeadsOnIff | tools/semantic_platform_generate.py:237-299 | The result of a migration that runs is a database from which the next one may start if and only if every surviving property keeps its flags and its enumeration |
| TwoHops.TwoHopsMatchOne | tools/semantic_platform_generate.py:237-476 | Where two migrations in a row and the direct one run and survivors keep flags and enumerations, they end in the same schema, UNIQUE names aside |
| TwoHops.TwoHopsFillAlikeIff | tools/semantic_platform_generate.py:457-466 | And in the same rows if and only if, for every property that the middle registry adds to a table with rows, both routes fill in the same value |
| HopExamples.HopsRunDirectFails | tools/semantic_platform_generate.py:254-282 | Two migrations that run on any server that reads their names, while the direct one is emitted and fails on every server |
| HopExamples.FirstMigrationIsBaseline | tools/semantic_platform_generate.py:254-263 | A migration from a registry without objects emits the baseline script, or raises where that does |
| ScriptTheorems.BaselineRunsIff | tools/semantic_platform_generate.py:509-525 | The baseline is emitted and runs on PostgreSQL if and only if the server can read every name and list in it, the names of tables, and within a table those of columns and of constraints, differ as it reads them, and no object refers to one later in the alphabet; then it builds exactly the compiled schema |
| ForeignKeyOrder.ScriptTargetsIff | tools/semantic_platform_generate.py:254-263 | Each foreign key of a migration script finds its table if and only if no new object refers to a later new one |
| MigrationExamples.ForwardReferenceFails | tools/semantic_platform_generate.py:512-515 | There is a validated registry whose baseline is emitted and fails on every server, since an object refers to a later one |
| MigrationExamples.OnePropertyRunsIff | tools/semantic_platform_generate.py:419-442 | An object with one String property of any name validates, and its baseline runs if and only if the server reads that name as a column's, and as another than `id` and `version` |
| MigrationExamples.ReservedWordFails | tools/semantic_platform_generate.py:940-957 | Where the server does not read `order` as a column name, a property called so validates, is emitted and fails |
| MigrationExamples.QuotedValueFails | tools/semantic_platform_generate.py:950-956 | An enumeration with the value `it's` validates, is emitted and fails on every server |
| MigrationExamples.HiddenTypeDisagrees | tools/semantic_platform_generate.py:950-957 | There are two validated registries with an empty plan between them and different column types |
| MigrationExamples.DroppedFlagDisagrees | tools/semantic_platform_generate.py:355-358 | There are two with an empty plan between them that differ in a flag, and the migrated schema is not the compiled one |
| MigrationExamples.CodedSchemaIsNotExact | tools/semantic_platform_generate.py:468-471 | A migration that runs leaves a UNIQUE with a name the compiled schema does not have |
| MigrationExamples.CodeIsAddedIff | tools/semantic_platform_generate.py:457-471 | The hypotheses are met by databases of any number of rows that satisfy all their constraints: adding a required unique property with a declared literal runs over such a database if and only if the server reads its names, as others than those there, and the table has at most one row |
| ScriptTheorems.BlockRunsIff | tools/semantic_platform_generate.py:445-476 | The block of an added property runs if and only if the server can read it, its names are free, its target is there and, with a backfill, the literal can be assigned to the column and, unless the table is empty, its value is non-null, allowed by the enumeration or reference, and fills at most one row if unique; then every row holds the value or NULL, other cells are untouched, and the declared constraints are the property's |
| MigrationSql.AddPropertySql | tools/semantic_platform_generate.py:445-476 | The emitted block for one added property, or `None` if its type lists no values or its backfill is no scalar literal; which backfill and which constant that is, `MigrationSql.BackfillIsFirstLiteral` and `MigrationSql.LiteralIsRead` say |
| MigrationSql.MigrationSqlOf | tools/semantic_platform_generate.py:395-416 | The emitted script: nothing for a baseline or a blocked plan, else the statements of the changes in order; `EmittedTables.MigrationTables` says on which tables |
| MigrationSql.MigrationArtifacts | tools/semantic_platform_generate.py:200-234 | The plan of the two registries and the script of that plan, or `None` when one of them raises; what the plan lists is in `PlanMeaning`, what the script writes in `DeclaredValues` |
| MigrationSql.EmissionRaisesIff | tools/semantic_platform_generate.py:457-494 | Emission of a ready plan raises if and only if a property that the script creates, of a new object or added to a kept one, has an enumeration that lists no values, or the migration found for some required addition to a kept object has no literal backfill with a scalar value |
| MigrationSql.LiteralIsRead | tools/semantic_platform_generate.py:497-506 | The constant a script assigns is what SQL reads in the emitted text of the value: TRUE, FALSE, NULL, a number, or a quoted text with doubled quotes; lists and objects have no such text, and raise |
| MigrationSql.BackfillIsFirstLiteral | tools/semantic_platform_generate.py:479-494 | The backfill used is that of the first operation for this property of this object whose strategy is `literal`, and there is none if there is no such operation |
| MigrationExamples.OtherBackfillRaises | tools/semantic_platform_generate.py:479-494 | A validated registry whose plan is ready and whose emission raises on a computed backfill |
| MigrationExamples.UnlistedTypeRaises | tools/semantic_platform_generate.py:950-952 | One whose type lists no values: validated, planned, ready, and neither the migration nor the baseline can be emitted |
| MigrationExamples.MissingIdRaises | tools/semantic_platform_generate.py:340-340 | One whose migration has no identifier: validated, and planning raises, for a required and for an optional property |
| MigrationPlan.MigrationPlanOf | tools/semantic_platform_generate.py:237-299 | The loops compute the plan whose properties follow, or raise: exactly when the search for the migration of some property added to a kept object meets a malformed entry, or finds a migration without an identifier; what is found, `MigrationPlan.SearchFindsFirst` says |
| MigrationPlan.PropertyMigrationChanges | tools/semantic_platform_generate.py:302-392 | The changes within one kept object, additions, removals, retypings, each in sorted order; or the error of a lookup |
| MigrationPlan.SearchFindsFirst | tools/semantic_platform_generate.py:376-392 | When the search for a property's migration does not raise, it finds the first migration that lists an operation with a backfill for this property of this object, and none if no migration lists one |
| MigrationPlan.DeclaredIff | tools/semantic_platform_generate.py:376-392 | So the identifier recorded is that of the first such migration, and it is missing if and only if there is none |
| PlanMeaning.AddedEntryWords | tools/semantic_platform_generate.py:311-346 | The entry of a new property is blocked if and only if the property is required and no migration lists a backfill for it; its element, classification and action follow from these two facts |
| PlanMeaning.AddedEntry | tools/semantic_platform_generate.py:311-346 | It carries the property's type and flag, and the identifier of the first migration that lists a backfill for it |
| PlanMeaning.OtherEntryWords | tools/semantic_platform_generate.py:254-282 | Of the other entries new objects alone are not blocked; what is gone is destructive and what is retyped breaking, both up for review |
| PlanMeaning.StatusIff | tools/semantic_platform_generate.py:284-299 | The status is `ready` if nothing is removed or retyped and every required addition is declared, else `blocked` |
| PlanMeaning.RequiredActionsIff | tools/semantic_platform_generate.py:284-299 | The actions asked for are a review of each object and property that is gone and of each that has another type, and a backfill for each undeclared required addition, and no others |
| PlanMeaning.PlanInOrder | tools/semantic_platform_generate.py:251-282 | New objects come first, then those gone, then the kept ones by name, each with additions, removals and retypings by name; the order is strict, so it and the listed differences determine the plan |
| MigrationPlan.ChangesExact | tools/semantic_platform_generate.py:251-282 | The plan lists every object added or removed and every property added, removed or retyped, nothing else, and nothing twice |
| MigrationPlan.NoChangesIffSameStructure | tools/semantic_platform_generate.py:251-282 | The plan is empty if and only if both registries have the same objects, properties and types |
| MigrationPlan.BlockedIffNotReady | tools/semantic_platform_generate.py:284-289 | It is blocked if and only if something is removed or retyped, or some required property added to a kept object has no migration that lists an operation with a backfill member for that object and that property |
| MigrationPlan.ReversePlanIsBlocked | tools/semantic_platform_generate.py:264-289 | A ready plan with any change has a blocked reverse |
| MigrationPlan.ReadyComposes | tools/semantic_platform_generate.py:302-392 | Two ready plans in a row make a ready direct plan, if the last registry declares a backfill for each required property new on an object of the first |
| SchemaCompiler.ValidatedColumnsResolve | tools/semantic_platform_generate.py:933-966 | In a validated registry a property has a column if and only if its type, when it is an enumeration, lists values; and every foreign key targets the table of a declared object |
| SqlNames.SqlNameOfParts | tools/semantic_platform_generate.py:1013-1014 | A table's name is the identifier with its prefix `approval.object.` contracted to `approval_` wherever it occurs, every other dot an underscore, and every other character kept, in order |
| SqlNames.ApprovalObjectName | tools/semantic_platform_generate.py:1013-1014 | So `approval.object.x` gives `approval_x`, for every `x` without a dot |
| EmittedTables.SchemaTables | tools/semantic_platform_generate.py:509-525 | The tables of the baseline come in the order of the object identifiers, and one of an object `approval.object.x` is called `approval_x` |
| EmittedTables.MigrationTables | tools/semantic_platform_generate.py:395-476 | Every statement of a migration is about the table of a declared object, called as in the schema, and creates it if and only if the object is new |
| EmittedTables.ColumnsInOrder | tools/semantic_platform_generate.py:419-442 | A table has `id` first, a UUID primary key, `version` last, a BIGINT that is not NULL with default 1, and between them the properties' columns in the order of their names |
| EmittedTables.SchemaColumns | tools/semantic_platform_generate.py:933-966 | In the baseline script each property has, at its name's place, the column its type and flags ask for: of its own name and type TEXT, BOOLEAN or TIMESTAMPTZ; for an enumeration TEXT with a CHECK called `chk_`, table, `_`, property; for a reference a UUID called after it with `_id`, never UNIQUE, with a foreign key called `fk_`, table, `_`, property, to the table the script creates for that object |
| SchemaCompiler.CreateTableSql | tools/semantic_platform_generate.py:419-442 | For a validated registry the emitted statement has the id column, the properties' columns in name order, the version column and the properties' constraints; it raises if and only if some property's enumeration lists no values; names, types and flags are in `EmittedTables` and `SqlNames` |
| Schema.PostgresqlSql | tools/semantic_platform_generate.py:509-525 | The baseline script has one such statement for each object in sorted order, or raises if any does; table names, columns, types and constraints are in `EmittedTables.SchemaTables` and `EmittedTables.SchemaColumns` |
| Schema.TableIsDescribed | tools/semantic_platform_generate.py:419-442 | The created table holds the built-in columns, each property's column and constraint, and nothing else |
| ScriptTheorems.CreateRunsIff | tools/semantic_platform_generate.py:419-442 | The CREATE TABLE is accepted if and only if the server can read its names and lists, the table's name is free, those of columns, the built-in ones included, and of constraints differ as the server reads them, and the tables it refers to are there |
| Database.RunKeepsIntegrity | tools/semantic_platform_generate.py:395-416 | Whatever script is accepted, every table meets every constraint it then declares and every cell is of its column's type |
| RegistryValidation.Validate | tools/semantic_platform_generate.py:142-197 | In whatever order the document has its entries, the validator's loops raise if and only if the registry is not valid, and about a problem that it has |
| RegistryValidation.ValidIff | tools/semantic_platform_generate.py:158-197 | A registry is valid if and only if no property, behavior or transition names something unknown: a referenced object, a type, a subject, a state property, a transition, a behavior, a state, a command, an event or a permission |
| RegistryValidation.RunsUseWhatIsDeclared | tools/semantic_platform_generate.py:174-197 | Along every run of a behavior's own transitions every state, command, event and permission is declared |
| Registry.OwnTransitionsStayDeclared | tools/semantic_platform_generate.py:182-189 | Any run of transitions that name a behavior, started in one of its declared states, stays in them |
| Registry.ListedTransitionsStayDeclaredIff | tools/semantic_platform_generate.py:172-189 | The transitions a behavior lists keep all runs in its declared states if and only if each one that can start there ends there |
| Registry.ListedTransitionCanEscape | tools/semantic_platform_generate.py:172-189 | The validator accepts a registry where they do not |
| SqlLiteral.LiteralRoundTrip | tools/semantic_platform_generate.py:497-506 | Read by section 5.3 of ISO/IEC 9075-2, the literal of any string gives back the string, whatever follows short of another quote |
| SqlLiteral.ReadMeansEscaped | tools/semantic_platform_generate.py:504-505 | Conversely, any text that reads as a literal is the escaped value, a quote and the rest |
| SqlLiteral.EnumListReadsBackIff | tools/semantic_platform_generate.py:951-955 | The CHECK list reads back as the enumeration if and only if no value contains a quote |
| SqlLiteral.PlainValuesAreListed | tools/semantic_platform_generate.py:951-955 | A non-empty enumeration without quotes and NUL characters gives a CHECK over exactly its values |
| SqlLiteral.QuotedValueBreaksList | tools/semantic_platform_generate.py:951-955 | The list of the one value `it's` cannot be read at all |
| CycleSearch.Search.Visit | tools/migration_verify.py:139-149 | The search restores `visiting`, only adds to `visited`, reports a node met again while open, and ends; the class invariant says that reported nodes lie on cycles |
| CycleSearch.Search.VisitAll | tools/migration_verify.py:151-152 | After the driver loop every node is visited, every cycle passes through a reported node, none is reported if and only if the graph is acyclic, and the order of visiting is topological but for edges into reported nodes |
| CycleSearch.CycleNodes | tools/etra_conformance.py:247-264 | Every reported node lies on a cycle, every cycle passes through one, and none is reported if and only if there is no cycle |
| CyclePaths.PathSearch.Visit | tools/engineering_verify.py:189-201 | The path is restored; a node met again on it adds exactly the path from its first occurrence |
| CyclePaths.CyclesOf | tools/engineering_verify.py:185-205 | Each recorded path is a closed walk of real edges without inner repetition; every cycle passes through the start of one; none is recorded if and only if the graph is acyclic; and the order of finishing is topological but for edges into those starts |
| CyclePaths.PathSearch.VisitAll | tools/intelligence_verify.py:84-105 | The same search over investments' and proposals' dependencies leaves no node unvisited |
| MigrationVerify.Verify | tools/migration_verify.py:74-152 | From the parsed literals: the heads are the revisions that no literal names, the bases those whose literal names nothing, the dangling parents those named without a file; every finding is a defect; every duplicate, dangling parent and wrong count is reported; every cycle passes through a reported revision; no finding if and only if the history is clean |
| MigrationVerify.ChildrenMap | tools/migration_verify.py:120-124 | The children dictionary has one entry for each listing of a known parent |
| RevisionFiles.ItemsInOrder | tools/migration_verify.py:74-81 | From a tuple or list, the parents read are the texts of its items that are not None, one each and in order |
| RevisionFiles.ReadingMentions | tools/migration_verify.py:74-81 | A parent is read from a literal if and only if the literal is that name, a tuple or list with an item of that text, or another literal of that text |
| RevisionFiles.StrictReadingMentions | tools/etra_conformance.py:228-241 | The stricter reading takes a tuple of texts as one parent for each item, in order, and refuses lists, other literals and tuples with another item |
| RevisionFiles.HeadsOfFiles | tools/migration_verify.py:120-126 | A revision is a head if and only if no file's literal names it |
| RevisionFiles.StrictHeadsOfFiles | tools/etra_conformance.py:228-241 | Of the other verifier, if and only if the last file of no revision names it in an accepted form |
| RevisionFiles.DanglingOfFiles | tools/migration_verify.py:115-118 | A parent dangles if and only if some file's literal names it and no file has that revision |
| RevisionFiles.EdgesOfFiles | tools/migration_verify.py:132-152 | The graph searched for cycles leads from each revision to the known parents that its last file names |
| RevisionFiles.MergeHasOneHead | tools/migration_verify.py:74-81 | A merge of two revisions is the only head for both verifiers |
| EtraConformance.MigrationGraphCheck | tools/etra_conformance.py:195-265 | The same for the stricter reading, which refuses some literals and computes heads by a set difference: those that the last file of no revision names in an accepted form |
| MigrationGraph.SameRowsIff | tools/migration_verify.py:74-81 | The two verifiers work on the same rows if and only if every literal is one that both accept, or names nothing |
| MigrationGraph.VerifiersAgreeIff | tools/migration_verify.py:115-152 | On any rows, repeated revisions included, both verifiers find the same heads and the same dangling parents if and only if no listed parent is hidden by a later row of the same revision, and always agree on whether there is a cycle |
| MigrationGraph.HeadsAgreeIff | tools/migration_verify.py:120-126 | The heads alone agree if and only if every known parent that some row lists is listed by the last row of some revision |
| MigrationGraph.DanglingAgreeIff | tools/migration_verify.py:115-118 | The dangling parents alone agree if and only if every unknown one is |
| MigrationGraph.DistinctVerifiersAgree | tools/migration_verify.py:115-152 | In particular they agree on all three on distinct revisions |
| MigrationGraph.ReadingsAgreeIff | tools/etra_conformance.py:228-244 | From the literals, each by its own reading, they agree on heads and dangling parents if and only if every parent one reads as text is read as a name by the other in the last file of some revision |
| MigrationGraph.VerdictsDifferBy | tools/etra_conformance.py:228-246 | On the same files the verdicts differ exactly by the base count and the form of the literals |
| MigrationGraph.ListLiteralBreaksAgreement | tools/etra_conformance.py:232-238 | A list instead of a tuple makes the heads differ |
| MigrationGraph.DuplicatesBreakAgreement | tools/etra_conformance.py:226-241 | A repeated revision that hides a parent makes the heads differ |
| MigrationGraph.CleanIsStrictCleanWithOneBase | tools/migration_verify.py:125-130 | The verdicts differ by the base count alone |
| MigrationGraph.CleanGraphIsRooted | tools/migration_verify.py:108-152 | A clean history of any size, merges included, has one base from which every revision descends and one head of which every revision is an ancestor |
| MigrationGraph.LinearHistory | tools/etra_conformance.py:240-265 | With at most one parent each, a history without issues is a chain from the head that lists every revision once and ends at the only base |
| MigrationGraph.SingleParentVerdictsAgree | tools/migration_verify.py:125-130 | Then the base count that only one verifier checks is implied |
| GenerationRun.RunTable.UpdateRow | migrations/versions/c31a76d9e845_add_specification_engineering_platform.py:31-62 | An update is refused by the trigger or by a constraint, in that order, or replaces the row; the constraints hold afterwards |
| GenerationRun.GuardOnPresentStatuses | migrations/versions/c31a76d9e845_add_specification_engineering_platform.py:31-62 | On present statuses the trigger accepts exactly unchanged inputs, a step pending-running or running-completed or running-failed, and a manifest with its hash if completed |
| GenerationRun.GuardReadsNullAsAnyStatus | migrations/versions/c31a76d9e845_add_specification_engineering_platform.py:47-54 | In general it accepts every transition that some reading of NULL statuses makes legal |
| GenerationRun.GuardAloneLetsARunGoBack | migrations/versions/c31a76d9e845_add_specification_engineering_platform.py:47-54 | By itself it lets a run go back through a NULL status; the NOT NULL column refuses that |
| GenerationRun.RunSafety | migrations/versions/c31a76d9e845_add_specification_engineering_platform.py:31-62 | Over every sequence of inserts, updates and deletes a row stays, keeps its inputs, advances one rank per accepted update, is otherwise unchanged, and has manifest and hash if an update completed it |
| GenerationRun.OnlyOutputsMove | migrations/versions/c31a76d9e845_add_specification_engineering_platform.py:31-62 | Over every sequence of attempts a row changes in no other columns than status, manifest, manifest hash, failure document, start and end |
| GenerationRun.UpdateAcceptedIff | migrations/versions/c31a76d9e845_add_specification_engineering_platform.py:31-62 | An update is accepted if and only if it changes no other columns, starts a pending run or ends a running one, gives a completed run manifest and hash, and takes no hash of another run |
| GenerationRun.InsertAcceptedIff | migrations/versions/c31a76d9e845_add_specification_engineering_platform.py:104-129 | A new run is accepted if and only if its ten required columns are set and no run has its key, its input hash or its manifest hash |
| GenerationRun.RunsStayUnique | migrations/versions/c31a76d9e845_add_specification_engineering_platform.py:104-129 | Whatever was attempted on an empty table, no two runs share a key, an input hash or a manifest hash |
| GenerationRun.MessageIff | migrations/versions/c31a76d9e845_add_specification_engineering_platform.py:37-55 | On present statuses the trigger names the first of its three rules that is broken |
| GenerationRun.RunningRowsCanFail | migrations/versions/c31a76d9e845_add_specification_engineering_platform.py:47-54 | Any run under way can fail with any failure document |
| GenerationRun.FinishedRowsNeverChange | migrations/versions/c31a76d9e845_add_specification_engineering_platform.py:47-50 | At most two updates are ever accepted, fewer from a later status; completed and failed rows never change |
| GenerationRun.HistoryFollowsTheMachine | migrations/versions/c31a76d9e845_add_specification_engineering_platform.py:47-50 | The statuses a row takes form a path of the machine from its first status to its present one |
| GenerationRun.PendingRowsCanComplete | migrations/versions/c31a76d9e845_add_specification_engineering_platform.py:47-54 | Two updates are possible: any pending row can be run and completed with any manifest and unused hash |
| GenerationRun.RunKeepsConstraints | migrations/versions/c31a76d9e845_add_specification_engineering_platform.py:104-129 | NOT NULL and uniqueness hold after every sequence of attempts |
| InvestmentRanking.RankInvestments | tools/intelligence_verify.py:389-451 | The loop and sort compute the ranking and the flagged investments, or raise; who is scored, `InvestmentRanking.ScoredIff` says, by how much, `InvestmentRanking.OneMeasureDecides` and `InvestmentRanking.WorstScoresZero`, and in which order, `InvestmentRanking.RankedInOrder` |
| InvestmentRanking.ScoreIsBounded | tools/intelligence_verify.py:437-443 | With an accepted optimizer every score lies between zero and the sum of the weights |
| InvestmentRanking.OneMeasureDecides | tools/intelligence_verify.py:437-443 | Of two scored investments alike but in one measure, the scores differ by that measure's weight times the difference: a value or fit by hundredths under `expected_value` and `constraint_fit`, a confidence under `confidence`, a lower risk by hundredths under `risk_inverse`, a lower required capacity as a part of the available one under `capacity_fit` |
| InvestmentRanking.WorstScoresZero | tools/intelligence_verify.py:437-443 | The worst investment scores zero, which with the former fixes every score |
| InvestmentRanking.OptimizerAcceptedIff | tools/intelligence_verify.py:341-388 | An optimizer is accepted if and only if it has its members, approved evidence, a positive budget and the five weights, none negative, that give an investment without a fault a score of one to within 1e-12 |
| InvestmentRanking.ScoredIff | tools/intelligence_verify.py:392-436 | What an accepted optimizer asks of an investment before it scores it |
| InvestmentRanking.RankedIff | tools/intelligence_verify.py:444-451 | The ranking has an entry for each scored investment, with its identifier, its rounded score and its dependencies, and no other |
| InvestmentRanking.RankedInOrder | tools/intelligence_verify.py:451-451 | Entries go from high to low scores, and at one score by identifier |
| InvestmentRanking.RankedOrFlagged | tools/intelligence_verify.py:413-436 | Where nothing raises each investment is ranked or flagged, and an identifier is flagged if and only if an investment of it is not scored |
| InvestmentRanking.DominatingScoresHigher | tools/intelligence_verify.py:437-443 | The score is monotone in value, confidence and fit and antitone in risk and required capacity |
| InvestmentRanking.RankingRaisesIff | tools/intelligence_verify.py:389-451 | With an accepted optimizer the ranking raises if and only if the investments are not a list of dictionaries, an identifier cannot be hashed, the dependencies of an item checked that far do not make a set, the confidence of one checked further is not a number, or two scored ones of the same rounded score have identifiers that cannot be compared |
| InvestmentRanking.NullDependenciesRaise | tools/intelligence_verify.py:417-417 | Null dependencies raise under any accepted optimizer |
| InvestmentRanking.MixedIdentifiersRaise | tools/intelligence_verify.py:451-451 | So do two equally good investments identified by a text and by a number |
| InvestmentRanking.RankingIsCanonical | tools/intelligence_verify.py:451-451 | The ranking is a permutation of the scored investments in the sort order, and the only one |
| InvestmentRanking.RankingIgnoresInputOrder | tools/intelligence_verify.py:390-451 | The ranking does not depend on the order in which investments are listed |
| InvestmentRanking.DominatingRanksAhead | tools/intelligence_verify.py:437-451 | Under any order-keeping rounding a dominating investment is ranked ahead, unless both round alike and the identifiers decide |
| PythonValues.SameKeyIff | tools/intelligence_verify.py:390-391 | Identifiers count as one exactly when they are equal, truth values being the numbers 0 and 1, and cannot be hashed exactly when they are lists or dictionaries |
| PythonValues.SetOfIff | tools/intelligence_verify.py:417-417 | The dependencies make a set exactly when they are a list, dictionary or text that yields no list or dictionary; it holds the values equal to one they yield |
| Portfolio.SumsAgree | tools/intelligence_verify.py:660-664 | The filtered sum over investments is the sum over the required identifiers |
| Portfolio.AcceptedIffFitsBudget | tools/intelligence_verify.py:689-691 | With unique investment identifiers a recommendation naming known ones once each passes if and only if their capacities add up to at most the budget |
| Portfolio.AcceptedIffAmountsFit | tools/intelligence_verify.py:660-691 | Where texts identify the investments, a recommendation that lists some of them is accepted if and only if it lists none twice and the `required_capacity` of those listed, zero where absent, adds up to at most the `capacity_budget` |
| Portfolio.UnknownIsRefused | tools/intelligence_verify.py:689-691 | One that lists anything else is refused |
| Portfolio.AdditionRaisesIff | tools/intelligence_verify.py:660-664 | The addition raises if and only if the `required_capacity` of a listed investment is there and is no number |
| Lifecycle.AcceptedIff | tools/evolution_verify.py:158-167 | A history passes if and only if it is a non-empty contiguous part of the lifecycle, ending in the recorded state, in which every state occurs for the first time |
| Lifecycle.AcceptsEverySliceIffDistinct | tools/intelligence_verify.py:656-688 | Every non-empty contiguous part passes if and only if the lifecycle lists no state twice |
| Lifecycle.ReturningLifecycleRefused | tools/evolution_verify.py:158-167 | A lifecycle that returns to its first state is refused as a history |
| FederationGraph.Verify | tools/federation_verify.py:336-373 | The three passes compute the findings, and find nothing if and only if node and edge identifiers are unique and every node and edge obeys its rules |
| FederationGraph.LocalRulesIffWalksContained | tools/federation_verify.py:358-364 | Where no edge dangles, the scope and classification rules hold of every edge if and only if every walk stays in one visibility scope and no node on it is more highly classified than all its edges |
| FederationGraph.SoundWalksAreContained | tools/federation_verify.py:336-373 | A graph without findings has that property of walks |
| FederationRules.RankIff | tools/federation_verify.py:358-364 | The comparison of ranks is the order public, internal, confidential, restricted; a classification that is none of these, on either side, fails it |
| FederationRules.DuplicateNodeIff | tools/federation_verify.py:336-337 | The duplicate finding is made if and only if two nodes share an identifier |
| FederationRules.BadNodeIff | tools/federation_verify.py:339-346 | An identifier is reported as a node's if and only if the last node listed under it lacks known evidence, one of the four classifications or a scope |
| FederationRules.BadEdgeIff | tools/federation_verify.py:347-373 | An identifier is reported as an edge's if and only if an edge of it repeats that of an earlier one, or does not join two different listed nodes by a listed relationship on known evidence, within their scope and at least as highly classified as both |
| FederationRules.FindingsInOrder | tools/federation_verify.py:336-373 | Findings come in the order of the document: the duplicate, then nodes as first listed, then edges |
| FailurePatterns.GroupProblems | tools/runtime_baseline.py:100-117 | The loop leaves one entry for each key, in order of first occurrence, holding that key's group |
| FailurePatterns.BuildReport | tools/runtime_baseline.py:98-139 | The report is the sorted list of groups of the problem jobs |
| FailurePatterns.PatternsAreGroups | tools/runtime_baseline.py:101-117 | Each entry's count is the length of its list of ids, which are those of its jobs in their order; its job types are theirs without duplicates |
| FailurePatterns.ReportConserves | tools/runtime_baseline.py:98-117 | Every problem job is listed exactly once over the whole report, and the counts add up to their number |
| FailurePatterns.ReportIsStrictlyOrdered | tools/runtime_baseline.py:136-139 | The order of the report is strict |
| FailureCases.PatternCounts | tools/runtime_baseline.py:99-115 | Each pattern counts the jobs with status failed, dead_letter or abandoned under its class (`unknown` where there is none) and diagnostic, and lists their ids in their order |
| FailureCases.PatternExistsIff | tools/runtime_baseline.py:99-112 | There is a pattern for a class and a diagnostic if and only if a job failed under them |
| FailureCases.PatternTypes | tools/runtime_baseline.py:115-117 | Its job types are those of its jobs, `unknown` where there is none, without duplicates |
| FailureCases.PatternTypesInOrder | tools/runtime_baseline.py:115-117 | They come in the order in which they first occur |
| FailureCases.LargestFirst | tools/runtime_baseline.py:136-139 | The report goes from large to small counts, then by class, then by diagnostic, and lists no pair twice |
| ProductionReadiness.Verify | tools/production_readiness.py:79-150 | The loops compute the findings and the checks; a bundle that is JSON but no object raises |
| ProductionReadiness.AllowedIff | tools/production_readiness.py:79-154 | Production is allowed if and only if the bundle and every record are complete (`ProductionReadiness.BundleInOrderIff` says when the bundle is) and the time is within the dates of every proof |
| ProductionReadiness.ReadinessWindow | tools/production_readiness.py:119-128 | With other inputs fixed these times are those from the latest check, included, to the earliest expiry, excluded, or none |
| ProductionReadiness.BundleInOrderIff | tools/production_readiness.py:83-109 | The bundle as a whole gives no finding if and only if the infrastructure choices conform and the loaded document is an object for production that says by whom it was reviewed, satisfies the schema and has an object, if anything, as its proof |
| ProductionReadiness.BundleReportsIff | tools/production_readiness.py:83-109 | Which finding is made on which member, and when |
| ProductionReadiness.RecordReportsIff | tools/production_readiness.py:111-139 | Which finding is made on a record, and when |
| ProductionReadiness.TimeReportsIff | tools/production_readiness.py:119-128 | On dates: one that is no timestamp, a check in the future, an expiry that is not after now |
| ProductionReadiness.FieldReportsIff | tools/production_readiness.py:132-137 | On fields: one that is neither true nor a text that is not blank, and one that holds a secret |
| ProductionReadiness.CheckSays | tools/production_readiness.py:138-148 | The check of a proof repeats its dates and evidence, null where there are none, and passes if and only if the record is complete and its dates allow it |
| EvidenceSchema.RequiredProofsAreSections | schemas/production-readiness/production-evidence.schema.json:20-374 | The fourteen proofs and their fields are those that the JSON schema requires, in its order |
| EvidenceSchema.AllowedIffConformsAndProves | tools/production_readiness.py:98-150 | With the schema's verdict meaning that schema, production is allowed if and only if the choices conform, the document conforms, `reviewed_by` is not blank, and in each record the status is `passed`, the time is within its dates, the evidence is not blank, and every field is true or a text that is not blank and tells no secret |
| EvidenceSchema.InlineSecretIff | tools/production_readiness.py:187-200 | A value counts as an inline secret if and only if a path into it leads to a text with `password=`, `token=` or `secret=`, or to an object with one of the five secret keys, in any case and with dashes or underscores |
| EvidencePlan.ProofRequirements | tools/production_evidence_plan.py:144-181 | The loop computes the plan's entries from the records and the printed findings |
| EvidenceSchema.MissingIff | tools/production_evidence_plan.py:144-181 | An entry lists as missing exactly those of the four common members and the proof's own fields that the record does not have, or has as null or blank |
| EvidencePlan.PlanAgreesWithReadiness | tools/production_evidence_plan.py:144-181 | On one payload an entry lists exactly the findings of the readiness check of its name and is blocked if and only if that check is, for any proofs with distinct names that have no colon and are not those of bundle findings |
| EvidencePlan.RequiredPlanAgreesWithReadiness | tools/production_readiness.py:15-57 | The fourteen required proofs, whose names and fields `EvidenceSchema.RequiredProofsAreSections` compares with the schema's, are such |
| EvidencePlan.PlanRepeatsFindings | tools/production_evidence_plan.py:144-181 | The entry's findings are those of the check, in order, each after the proof's name, a colon and a space |

## Left out

- Reading files, parsing Python and JSON, JSON schema validation but for production evidence, HTTP, command lines,
  hashes and report formatting: the models start from parsed rows, registries and documents.
- The missing-section check of `_validate_registry`, and objects, properties, behaviors or transitions that are not
  the dictionaries it takes them for: it raises on these itself.
- Comments in the emitted SQL and its layout as text: statements are values. A table in the database has no order of
  columns.
- Which texts PostgreSQL reads as a name in which place, and how it folds and cuts names: parameters of
  `Database.Server`. Texts that carry SQL of their own, where a name or an enumeration value goes on past its place
  and the statement can still be read, are refused here; so are string literals continued on another line.
- The names PostgreSQL chooses by itself for the indexes of primary keys and of UNIQUE in a column definition, which a
  later table could meet (`a_pkey` beside `a`). A second UNIQUE on one column, which the generator never emits.
- How PostgreSQL writes a number constant as text, reads one as an integer and reads a text as an instant: parameters
  of `Database.Server`. NaN and infinities do not occur.
- Mapping and enforcement documents, the OpenAPI, user-interface, test, documentation, diagram and context emitters.
- Joining a recorded cycle with arrows and the final sort of the findings: a cycle is its list of names.
- File names in the findings of migration_verify, its downgrade checks, and files without a literal revision.
- Updates of several rows by one statement: attempts are one row each. The foreign key of a generation run, the widths
  of its text columns, and the append-only tables beside it, whose trigger refuses every change.
- The rounding of scores: a parameter of the ranking, with order-keeping as an explicit assumption where it is used.
  Scores are exact reals; NaN and infinities do not occur.
- The evidence references of the optimizer and of recommendations, whether the optimizer's weights are a dictionary,
  and the other conditions of a recommendation, which compare fixed values; identifiers that a recommendation requires
  are hashable. Identifiers in the ranking are taken up to Python's equality.
- Members of the ecosystem graph's nodes and edges are texts or absent.
- Maturity means, benchmark gaps, regulatory applicability and workload placement: one-step arithmetic and set
  comparisons.
- Entries of the runtime baseline are values in a map, replaced at each step, where the source updates one dictionary
  object; no other name refers to it there.
- How an ISO-8601 text denotes an instant and how text is lower-cased: parameters of `ProductionReadiness.Reader`.
- The infrastructure-choice part of the evidence plan, whose checks are in a module that is not part of this model.
