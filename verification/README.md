# pgify: a Dafny model of the argument scanner, the tree rewriter and the printer

pgify turns MySQL's SQL dialect into PostgreSQL's. This project is a Dafny model of its two stateful cores and
of the loop that connects the first one to the program:

* **The argument scanner** (`getopt.c`). `GetoptScanner.Scanner` is the file-level state of `_getopt_internal`
  as a class over a mutable `argv`; each method is one passage of the C function. `GetoptSpec.Parse` is a pure
  left-to-right parser that never moves an argument. `GetoptStep` is one call as a function, and
  `GetoptRefinement` proves that the calls of a run, in-place rotations included, add up to that parser.
  `GetoptReports` says what every option reports by its table row or its letter, `GetoptLaws` and `GetoptPrefix` hold
  laws of the parser, `GetoptRun` and `Main` the loops that drain the scanner (`main.c`), `SwitchReports` what pgify's
  own switches come to.
* **The tree rewriter** (`pgify.c`). `Nodes.Node` is ANTLR's tree node: a mutable child list, with the tree value
  it stands for as a ghost field. `ColumnWorker`, `TableWorker` and `Walker` are the passes and the walk on that
  heap, each loop proved equal to a function of the old tree (`TablePasses`, `TreeWalk`). What those functions
  amount to is proved in `TableConservation`, `TableStatements`, `StatementFields`, `TableExactly`, `EmittedWords`,
  `ColumnExactly`, `EnumBalance` and `WalkLaws`; `TableExactly.IndexTakesAccessMethod` adds the access method of an
  index.
* **The printer** (`pgify.c`). `Printer.Output` merges the leaves of the tree and the hidden tokens through one
  cursor. `LeafPaths` says which leaves are printed, `PrintTrace` what comes out piece by piece, `PrintLaws` what that
  is worth. `Pgify` puts walk, printer and statement buffer together; `NothingHiddenIsLost` says that a rewritten
  script keeps all its white space and comments.

Emitted statements are records (`TablePasses.Statement`), not SQL text.

## What the proofs found

Where a property does not hold on all inputs, the model keeps the code as it is and an iff gives the exact
condition; where the iff does not name the inputs itself, a lemma beside it gives one.

* A column keeps an ON UPDATE that directly follows another one, and gets no trigger for it: the loop steps past
  the child that moved up (`pgify.c:626-651`; `UpdatesAllGoneIff`, `UpdatesSideBySide`).
* The full-text pass resumes past the child that moved down (`pgify.c:300-308`). On lists separated by commas
  this is harmless (`FulltextShape`); otherwise `FulltextAllGoneIff` says exactly when one is left over, as in
  `FulltextLeftover`.
* An index without a name takes its first column for the name and loses it from the list (`pgify.c:352-353`), and
  the grammar does allow such indexes (`mysql.g:328-335`; `ColumnsListedIff`, `UnnamedIndexLosesColumn`).
* DOUBLE in a column is never spelled out: the pass changes exactly the children of the table itself
  (`pgify.c:519-540`; `DoubleSpelledIff`).
* Of a name `schema.table` the statements take the schema for the table when the schema is written as an
  identifier with another text; a schema that is a keyword or a quoted string is skipped and the table's name
  comes out right (`pgify.c:280-295`, `mysql.g:993-999`; `QualifiedNameIff`).
* ALTER TABLE ... ADD for a foreign key carries no schema (`pgify.c:482`): all statements of a table are qualified
  if and only if it has no foreign key (`AllQualifiedIff`).
* The printer compares columns across lines (`pgify.c:1079-1080`): white space behind a visible token that spans
  lines can be printed in front of it (`RoundTripIff`, `TextRoundTripIff`, `LineBreakInToken`).
* A trigger is spelled with the texts of the topmost nodes of ON UPDATE (`pgify.c:633-641`), and the parser puts
  every ordinary call below a node of its own (`mysql.g:759-770`): ON UPDATE NOW() assigns `T_FUNCTION_NAME`, and the words of
  the call are in no output. `TriggerTakesExpressionIff` says exactly which expressions come through,
  `CallLosesItsWords` is the input.
* A leading `+` or `-` of the option letters only chooses the ordering (`getopt.c:157-172`, `getopt.c:484-486`), but is
  stripped for the first call only (`getopt.c:530`). So later calls take it for an option letter and miss a `:` behind
  it. `DocumentedIff` says exactly for which letters and tables every command line is reported as documented;
  `DashInBundle` and `ColonMissed` are two that are not.
* An option that waits for its argument takes a non-option appended to the command line; that is the only way in
  which appending one changes the reports (`AppendNonOptionIff`, `MissingFileTakesNonOption`).
* The enum pass repeats the column's name in the text of the word. Parentheses outside quotes stay balanced for every
  name of the lexer without a double quote inside (`EnumsKeepBalance`). A name between backquotes may hold one, which
  the lexer does not escape (`mysql.g:2368-2387`): in `a"(` the parenthesis ends up outside the quotes.
  `NameKeepsBalanceIff` gives the exact condition, `DoubleQuoteInName` that input.
* In RETURN_IN_ORDER mode a report with code 1 is a non-option if and only if no option letter of that code takes an
  argument (`ReturnInOrderIff`).
* A zero date that stands only in ON UPDATE costs a column its NOT NULL if the zero-date pass sees it, but the ON
  UPDATE pass runs first (`pgify.c:856-857`; `ColumnBecomes`, `ZeroDateOnlyInUpdate`).

## Model

| member | source | states |
|---|---|---|
| ArgvRotation.SwapBlocks | getopt.c:349-355 | the inner loop exchanges two equally long blocks and touches nothing else |
| ArgvRotation.ExchangeBlocks | getopt.c:304-376 | `exchange` is a rotation: the blocks between bottom, middle and top change places, everything outside stays, and the loop ends because top - bottom shrinks |
| GetoptScanner.Scanner.Exchange | getopt.c:304-382 | skipped non-options and the options behind them change places and the two indices are relocated onto the moved block |
| GetoptScanner.Scanner.Initialize | getopt.c:389-453 | empty range of skipped non-options at optind, ordering from the prefix or POSIXLY_CORRECT, prefix stripped |
| GetoptScanner.Scanner.Gather | getopt.c:557-565 | the options seen behind skipped non-options come in front of them |
| GetoptScanner.Scanner.Skip | getopt.c:567-572 | all non-options ahead join the skipped ones, in order |
| GetoptScanner.Scanner.Terminate | getopt.c:575-591 | `--` stands with the options, everything behind it is a non-option |
| GetoptScanner.Scanner.AtEnd | getopt.c:575-603 | at the end or at `--` optind is the boundary between options and non-options; otherwise nothing changes |
| GetoptScanner.Scanner.ReturnNonOption | getopt.c:605-614 | outside PERMUTE a non-option stops the scan or is reported as the argument of code 1 |
| GetoptScanner.Scanner.LongOptionElement | getopt.c:638-770 | a long option is reported as its declarative resolution says, with the argument it takes and every field it writes |
| GetoptScanner.Scanner.ShortOptionLetter | getopt.c:772-968 | one letter of a bundle is reported by the colons behind its first occurrence, optind moves when the element is used up |
| GetoptScanner.Scanner.Getopt | getopt.c:511-969 | one call does exactly one step of the scan: result, optarg, optopt, longind, flag variables, argv and optind |
| GetoptDecode.MyIndex | getopt.c:776 | the first place of a character |
| GetoptDecode.NameEnd | getopt.c:650-651 | the typed name ends at the first `=` |
| GetoptDecode.FindLong | getopt.c:653-676 | the table loop computes the declarative resolution |
| GetoptSpec.Resolve | getopt.c:650-770 | exact name, else unique abbreviation, else ambiguous, else unknown |
| GetoptSpec.ResolutionIsUnique | getopt.c:650-770 | that meaning fixes the outcome |
| GetoptSpec.ResolveIgnoresOrder | getopt.c:653-676 | with distinct names the order of the table does not matter |
| GetoptSpec.Decode | getopt.c:623-969 | decoding one option never runs past the arguments, shortens what is left and never reports the end marker |
| GetoptReports.LongReport | getopt.c:678-745 | a long option that means row i, and is used as the row says, reports the row's code, or 0 if the row names a variable, with the row's number and as argument the text behind '=', the next argument or none |
| GetoptReports.MisusedReport | getopt.c:684-735 | a value where the row takes none, or a missing argument, reports '?', the latter ':' if that leads the letters, with the row's code in optopt |
| GetoptReports.NoRowReport | getopt.c:666-770 | an ambiguous or unknown name reports '?' and 0 in optopt |
| GetoptReports.ExactNameWins | getopt.c:653-676 | the full name of a row means that row, whatever longer names it begins |
| GetoptReports.UniqueBeginningWins | getopt.c:653-676 | the beginning of one name only means its row |
| GetoptReports.TwoBeginningsAreAmbiguous | getopt.c:653-688 | the beginning of two names, and none in full, is ambiguous |
| GetoptReports.NoBeginningIsUnknown | getopt.c:653-770 | what begins no name is unknown |
| GetoptReports.StoredIs | getopt.c:739-744 | the variable a row names holds the row's value after its report, and nothing else is stored |
| GetoptReports.PlainReport | getopt.c:772-968 | a letter without colon reports itself, and the rest of the element comes next |
| GetoptReports.OptionalReport | getopt.c:921-934 | two colons: the rest of the element is the argument, if there is any |
| GetoptReports.RequiredReport | getopt.c:935-964 | one colon: the argument is the rest of the element, else the next one, else missing |
| GetoptReports.UnknownReport | getopt.c:785-812 | any other character, and ':', reports '?' and itself in optopt |
| GetoptReports.OrderingDecides | getopt.c:605-614 | a non-option is reported with code 1 under the prefix '-', ends the scan under '+' or POSIXLY_CORRECT, and is set aside otherwise |
| GetoptReports.TerminatorIsLast | getopt.c:575-591 | what is left unread is the end of the line: behind a "--" that is the last of the options, or in REQUIRE_ORDER from a non-option on |
| GetoptRefinement.StepRefinesParse | getopt.c:511-969 | one call takes exactly the next event off the reference parse, or ends it with argv and optind settled |
| GetoptRefinement.StepKeepsSound | getopt.c:546-621 | every call keeps the scanner invariant (skipped arguments are non-options, argv is a permutation, the unscanned suffix is untouched) and decreases (arguments left, characters left) |
| GetoptRefinement.ReachableIsSound | getopt.c:546-621 | the invariant holds in every state a run reaches, and what precedes the scan stays put |
| GetoptRefinement.RunRefinesParse | getopt.c:511-969 | after any number of calls the reference parse of the original line is their reports followed by the parse of the rest |
| GetoptRefinement.RunEnds | getopt.c:557-603 | when a run ends its reports are all of the parse, argv is prefix, options, non-options, tail, optind is the boundary, and outside PERMUTE argv never changed |
| GetoptRun.Advance | main.c:106-116 | each call of the drain loop delivers the next report or the end, and makes progress |
| GetoptRun.Drain | getopt.c:468-471 | calling until -1 reports exactly what the reference parser reads off the original argv, and leaves argv partitioned with optind at the boundary |
| GetoptLaws.ParseIsStablePartition | getopt.c:168-172 | options with their arguments, and non-options, each keep their original order; the tail was never looked at |
| GetoptLaws.NothingSkippedInOrder | getopt.c:161-167 | without permutation nothing is set aside |
| GetoptLaws.ReturnInOrderReportsAll | getopt.c:605-614 | in RETURN_IN_ORDER the code-1 reports are the non-options met between option groups, in order, from any position on, where no letter of code 1 takes an argument |
| GetoptLaws.ReturnInOrderIff | getopt.c:605-614 | they are on every command line if and only if no letter of code 1 takes an argument, with the prefix or without it |
| GetoptLaws.ReturnInOrderSeparates | getopt.c:605-614 | what was read is the code-1 arguments, all non-options, merged with the other arguments, and those others alone report exactly the remaining events |
| GetoptLaws.ParseConcat | getopt.c:557-573 | in PERMUTE mode complete option groups parse independently of what follows |
| GetoptLaws.InsertNonOption | getopt.c:557-573 | inserting a non-option between complete groups changes no report |
| GetoptLaws.AppendAfterTerminator | getopt.c:575-591 | behind `--` nothing more is reported |
| GetoptLaws.AppendNonOptionIff | getopt.c:935-964 | appending a non-option leaves the reports alone if and only if no option waits for its argument |
| GetoptPrefix.HarmlessIsDocumented | getopt.c:455-502 | with a harmless prefix the parse from any position on is that of the parser that never sees the prefix |
| GetoptPrefix.DocumentedIff | getopt.c:455-502 | every command line is reported as by the parser that never sees the prefix if and only if the prefix means the same as a letter with and without it, and, where ':' leads the letters behind it, no letter ('-' included) and no typable long option requires an argument |
| GetoptPrefix.DashInBundle | getopt.c:526-532 | with "-ab" the argument "-a-" is reported as a and then as the valid option '-' |
| GetoptPrefix.ColonMissed | getopt.c:526-532 | with "-:a:b" the arguments "-b" "-a" are reported as b and then as '?' where ':' is documented |
| PgifyMain.PgifyConfig | main.c:46-53 | pgify's letters and table meet the scanner's interface and need no prefix stripped |
| PgifyMain.DrainSwitches | main.c:99-154 | the answer of the loop is the meaning of the reference parse of the original command line |
| PgifyMain.DecodeSwitches | main.c:99-154 | the same from argv, and argv with the options in front |
| PgifyMain.OptionsDependOn | main.c:99-154 | the options word depends only on which of d, e, c occur, the file on the last -f |
| PgifyMain.ReturnsWord | main.c:146-151 | whenever it returns: bit 1 is set iff it was given or -d occurs, bit 2 iff it was given or -e does not, bit 4 iff it was given or -c does not, no other bit changes, and the file is the argument of the last -f |
| SwitchReports.LongSwitch | main.c:46-53 | any beginning of help, version, debug, escape and lowercase reports h, V, d, e and c |
| SwitchReports.LetterSwitch | main.c:99-116 | each of the letters h, d, e, c and V reports itself, alone or in front of others |
| SwitchReports.FileSwitch | main.c:99-116 | -f takes the rest of its element, else the next argument |
| SwitchReports.NameBeforeSwitches | main.c:99-116 | a name in front of the switches is passed over, and with POSIXLY_CORRECT ends them |
| SwitchReports.HelpAnswers | main.c:121-122 | --help and its beginnings answer with the usage and status 0 |
| SwitchReports.VersionAnswers | main.c:117-119 | --version and its beginnings answer with the version |
| PgifyMain.FirstExitDecides | main.c:117-143 | the first report other than f, d, e, c decides: version, usage with status 0, else usage with status 1 |
| PgifyMain.ReturnsIff | main.c:117-143 | decode_switches returns if and only if every report is one of f, d, e, c |
| PgifyMain.MissingFileTakesNonOption | main.c:106-116 | -f at the end of the line reports an error, and takes any non-option put behind it |
| PgifyMain.NonOptionsAreIgnored | main.c:99-154 | non-options between complete groups, before `--`, never change the answer |
| Trees.Find | pgify.c:199-213 | the first place of a kind at or behind a position |
| Nodes.Node.SetText | pgify.c:535-536 | a new text for one token, the rest of the tree unchanged |
| Nodes.Node.DeleteChild | pgify.c:276 | child i goes, the later ones move down |
| Nodes.Node.AddChild | pgify.c:598 | a child is appended |
| NodeSearch.LookAheadIndex | pgify.c:199-213 | the first child of a kind, or -1 |
| NodeSearch.LookAheadDown | pgify.c:220-239 | non-negative exactly if a child at or behind the position, or something below one, has the kind |
| NodeSearch.CreateTableTablename | pgify.c:280-295 | the text of the first identifier |
| NodeSearch.Duplicate | pgify.c:597 | a fresh node with the same tree |
| Paths.BelowIffPath | pgify.c:220-239 | what the deep search looks for is a node of the kind at the end of some path |
| ColumnWorker.RewriteEnum | pgify.c:583-599 | one enum node gets its CHECK text and one more closing parenthesis |
| ColumnWorker.RewriteEnums | pgify.c:575-599 | every enum node of a column is rewritten with the column's name, nothing else |
| ColumnWorker.RewriteUpdates | pgify.c:621-651 | the deleting loop over a column is the fold that skips the child behind a deleted one; one trigger per deleted child |
| ColumnWorker.RewriteZeroDate | pgify.c:546-566 | the first adjacent NOT NULL goes if a zero date stands anywhere below |
| ColumnWorker.FindStart | pgify.c:415-437 | the search of the options gives the table's start value |
| ColumnWorker.RewriteAutoIncrement | pgify.c:408-466 | the first AUTO_INCREMENT goes and a sequence comes with the schema, the column's name and the start |
| ColumnWorker.ForEachColumn | pgify.c:406-467 | the loop shared by the column passes edits every column definition, nothing else, and emits per column in order |
| TableWorker.RewriteDatatypes | pgify.c:519-540 | a DOUBLE child of the table not followed by PRECISION gets it |
| TableWorker.ScanIndexChildren | pgify.c:341-367 | name, columns and directions of an index in one scan |
| TableWorker.DescribeIndex | pgify.c:331-385 | the CREATE INDEX record of one index node |
| TableWorker.HoistIndexes | pgify.c:313-394 | every index goes with the comma before it; one statement per index in order |
| TableWorker.HoistKeys | pgify.c:473-516 | every foreign key goes with the comma before it; one statement per key in order |
| TableWorker.DropFulltextIndexes | pgify.c:298-310 | the loop is the fold that resumes at the old position |
| TableWorker.RemoveTableOptions | pgify.c:272-277 | all option nodes go, nothing else |
| TableWorker.CreateTableWorker | pgify.c:853-863 | on the heap, the nine passes in their order rewrite the table and extend postbuf as RewriteTable says |
| TablePasses.FindNotNull | pgify.c:555-560 | the first NOT directly before NULL |
| TableLaws.FulltextStep | pgify.c:300-308 | one round of the full-text loop, with its one or two deletions, leaves the same result to come |
| TableLaws.UpdatesStep | pgify.c:622-651 | one round of the ON UPDATE loop leaves the same children and statements to come |
| TableLaws.HoistStep | pgify.c:319-391 | one round of the hoisting loops leaves the same children to come |
| TableLaws.PassIsWorkable | pgify.c:853-863 | each pass leaves a table the next passes can work on without reading a missing child |
| TableShape.HoistShape | pgify.c:319-391 | on definitions separated by single commas the index and foreign-key passes drop exactly their definitions, each with its comma, and the list stays well-formed |
| TableShape.FulltextShape | pgify.c:298-310 | so does the full-text pass although it skips the child that moved down |
| TableShape.KeptWellFormed | pgify.c:319-391 | what is kept is well-formed and none of the kind remains |
| TableShape.WellFormedIsSeparated | pgify.c:319-391 | header and definitions of a well-formed table have no two commas in a row, none first and none last |
| TableConservation.ChildrenAreConserved | pgify.c:853-863 | the final children are the header and first column, the definitions not hoisted in order with their commas, the tail without options; only columns are edited, and DOUBLE behind the definitions |
| TableConservation.RemainingIsWellFormed | pgify.c:853-863 | the definitions that stay are again well-formed, each behind its own comma, and nothing to hoist is among them |
| TableConservation.DefinitionsStaySeparated | pgify.c:853-863 | header and definitions of the rewritten table have no two commas in a row, none first and none last |
| TableStatements.StatementsAreConserved | pgify.c:853-863 | postbuf grows by exactly the triggers, then indexes, then sequences, then foreign keys of the table as parsed, although each pass works on what the earlier ones left |
| StatementFields.StatementsAreGrouped | pgify.c:853-863 | all triggers come before all indexes, these before all sequences, and the foreign keys last |
| StatementFields.SequenceFields | pgify.c:447-462 | one sequence for each column with AUTO_INCREMENT, in order, with the schema, the first identifier of the table, the column's name and the number of the first AUTO_INCREMENT option or 1 |
| StatementFields.IndexFields | pgify.c:331-385 | one index statement for each index, in order, with the schema, the table's name, the index's first identifier, the word behind USING and the rest of the list |
| StatementFields.KeyFields | pgify.c:473-497 | one ALTER TABLE for each foreign key, in order, with the table's name and the texts of its children |
| StatementFields.TriggerFields | pgify.c:621-651 | each trigger carries the schema, the table's name, the name of some column and the words of one of its ON UPDATE clauses; without neighbours one for each clause, in order |
| StatementFields.ScanNames | pgify.c:341-376 | an index is named after its first identifier, also when a direction comes before it |
| TableStatements.ColumnStatementsAtStages | pgify.c:604-655 | enum rewriting changes no trigger, and no earlier pass a sequence |
| TableStatements.TableNameIsFirst | pgify.c:280-295 | the table's name is the text of the first identifier child, empty if there is none |
| TableStatements.NameAtStages | pgify.c:316-317 | every pass looks up the same table name |
| TableStatements.StartValueIsFirst | pgify.c:415-437 | the sequence start is the number of the first AUTO_INCREMENT = number option, 1 without one |
| TableStatements.StartAtStages | pgify.c:853-863 | the options are all still there when the sequences look for their start |
| TableExactly.UpdatesAllGoneIff | pgify.c:621-651 | no ON UPDATE stays in a column if and only if no two of them are neighbours |
| TableExactly.UpdatesSideBySide | pgify.c:621-651 | of two neighbours behind name and type the second stays and gets no trigger |
| TableExactly.UpdatesAreHoisted | pgify.c:604-655 | without neighbours a column loses exactly its ON UPDATE children and gets one trigger for each, in order |
| EmittedWords.TriggerTakesExpressionIff | pgify.c:633-641 | the trigger assigns the words printed of the expression behind ON UPDATE if and only if none of its topmost nodes is ON or UPDATE and each has exactly one printed leaf with its own text |
| EmittedWords.CallLosesItsWords | pgify.c:633-641 | for ON UPDATE NOW() the clause leaves the column and the trigger assigns T_FUNCTION_NAME |
| EmittedWords.TextsPrintedIff | pgify.c:485-491 | the texts of a foreign key's children are the words printed of it if and only if each child has exactly one printed leaf with its own text |
| TableExactly.AutoIncrementsGoneIff | pgify.c:408-466 | no AUTO_INCREMENT stays in a column if and only if there was at most one |
| TableExactly.FulltextAllGoneIff | pgify.c:298-310 | no full-text index stays if and only if no comma is followed by two of them at once |
| TableExactly.FulltextLeftover | pgify.c:298-310 | a list on which one is left over |
| TableExactly.ColumnsListedIff | pgify.c:341-367 | the statement lists exactly the index's columns if and only if the index has a name or lists none |
| TableExactly.UnnamedIndexLosesColumn | pgify.c:341-367 | INDEX (a, b) is named after a and lists b only |
| TableExactly.DoubleSpelledIff | pgify.c:519-540 | of all nodes of a table at any depth the pass gives " PRECISION " to exactly the DOUBLE children of the table that are neither last nor followed by PRECISION, and leaves the others as they are |
| TableExactly.AllQualifiedIff | pgify.c:473-516 | every statement of a table carries a schema if and only if the table has no foreign key |
| TableExactly.QualifiedNameIff | pgify.c:280-295 | of schema.table the first identifier is the table's name if and only if the schema is no identifier or has the same text |
| ColumnExactly.ZeroDateDropsFirstNotNull | pgify.c:543-568 | a column with a zero date at the end of some path loses its first adjacent NOT NULL and nothing else |
| ColumnExactly.ZeroDateChangesIff | pgify.c:543-568 | the pass changes a column if and only if it has a zero date and an adjacent NOT NULL |
| ColumnExactly.EnumBecomes | pgify.c:571-601 | ENUM or SET ( values ) in a column c becomes "text CHECK ( c IN " ( values ) ), children of other kinds stay |
| ColumnExactly.ColumnKeepsTheRest | pgify.c:397-655 | through all column passes every child that is not an enum, ON UPDATE, NOT, NULL or AUTO_INCREMENT stays as it is, in order |
| ColumnExactly.ColumnBecomes | pgify.c:853-863 | the children of a column of the grammar behind all passes: enums marked, ON UPDATE gone, the first NOT NULL of what remains gone if a zero date stands outside ON UPDATE, AUTO_INCREMENT gone |
| ColumnExactly.ZeroDateOnlyInUpdate | pgify.c:855-857 | a zero date only in ON UPDATE would cost a column with name, type and NOT NULL its NOT NULL, but the ON UPDATE pass runs first |
| EnumBalance.CheckKeepsBalance | pgify.c:591-598 | the new text leaves as many parentheses open outside quotes as the old one wherever the old one closes none too many and all its quotes |
| EnumBalance.NameKeepsBalanceIff | pgify.c:591-598 | so it is for every text behind the word if and only if the column's name, read inside the new parenthesis, closes its quotes and leaves that parenthesis and no other open |
| EnumBalance.NameIsBalanced | mysql.g:2364-2366 | every bare word, and every name in double quotes without another one inside, is balanced, whatever parentheses stand between the quotes |
| EnumBalance.DoubleQuoteInName | pgify.c:591-598 | a column called `a"(` between backquotes does not |
| EnumBalance.MarkKeepsBalance | pgify.c:583-598 | so for the printed leaves of an enum node in a column with any name of the lexer that holds no double quote inside |
| EnumBalance.EnumsKeepBalance | pgify.c:571-601 | a table whose parentheses outside quotes are balanced stays so for any number of columns and enum nodes, whatever parentheses stand in quoted names and values |
| TreeWalk.RewriteKids | pgify.c:996-1066 | every child is rewritten once, in its place |
| WalkLaws.WalkIsRewrite | pgify.c:996-1066 | the resulting tree does not depend on the schema or the buffer |
| WalkLaws.WalkKidsIsFold | pgify.c:996-1066 | schema and statements are a left-to-right fold over the nodes in the order of their handling |
| WalkLaws.SchemaIsOfLatestUse | pgify.c:866-890 | the schema in force is that of the latest USE |
| WalkLaws.SchemaWithoutUse | pgify.c:158-169 | without a USE it is the initial one |
| WalkLaws.EveryStatementCarriesItsSchema | pgify.c:372-377 | every index, sequence and trigger carries the schema of the latest USE before its table; foreign keys carry none |
| WalkLaws.EveryNodeIsVisited | pgify.c:996-1066 | the walk comes to every node at any depth, with its children already rewritten |
| WalkLaws.EveryTableEmits | pgify.c:996-1066 | each CREATE TABLE at any depth leaves all its statements, with some schema |
| WalkLaws.OutsideStays | pgify.c:996-1066 | a node with no handled node above it stays in its place: unchanged but for its children if it has no handler, its own rewriting if no template is involved |
| WalkLaws.NothingHandledNothingChanged | pgify.c:1046-1064 | a tree without any of the eight kinds that have a handler comes out as it went in, with no statement |
| Walker.UseDatabaseWorker | pgify.c:866-890 | the texts of keyword and name change, the schema becomes the name with a dot; without the keyword nothing happens |
| Walker.LockTablesWorker | pgify.c:893-908 | no text and no children are left |
| Walker.Visit | pgify.c:1046-1064 | below the child first, then its handler, on trees without template kinds |
| Walker.TreeWalkWorker | pgify.c:996-1066 | the destructive walk on the heap refines the fold: tree, schema and postbuf, on trees without template kinds |
| Pgify.UseSetsSearchPath | pgify.c:866-890 | USE name becomes SET search_path TO name,public and name. qualifies what follows |
| Pgify.UseWithoutName | pgify.c:866-880 | without the keyword nothing changes, without a name the schema does not |
| Pgify.LockedTablesVanish | pgify.c:893-908 | nothing of LOCK TABLES is visible |
| PrintTrace.Reach | pgify.c:1069-1085 | the cursor stops at the first hidden token that is not early, everything passed was early or visible |
| PrintLaws.PrintedIsInterleaving | pgify.c:1069-1133 | for every tree and all positions: each leaf and each hidden token exactly once, each in its order |
| PrintLaws.RoundTripIff | pgify.c:1069-1133 | a tree whose leaves are the visible tokens prints in stream order if and only if behind every visible token the next hidden one stands in a later column; then the text is the original |
| PrintLaws.TextRoundTripIff | pgify.c:1069-1133 | where no visible text begins with that of the next hidden token or the other way round, a tree whose leaves are the visible tokens prints the original text if and only if behind every visible token the next hidden one stands in a later column |
| PrintLaws.RoundTripOnLines | pgify.c:1069-1133 | when no visible token spans a line break, a tree whose leaves are the visible tokens prints the token texts in the order of the stream, whatever the lexer made of their lengths |
| PrintLaws.ContiguousStaysOnLine | pgify.c:1069-1133 | texts the lexer left alone are an instance: there only visible texts with a line break can do harm |
| PrintLaws.HiddenOvertakes | pgify.c:1079-1080 | otherwise the hidden token is printed before the visible one |
| PrintLaws.LineBreakInToken | pgify.c:1079-1080 | a concrete text that does not come back |
| Printer.Output.Advance | pgify.c:1069-1088 | the early hidden tokens, then the leaf's text; the cursor where Reach says |
| Printer.Output.AdvanceAll | pgify.c:1091-1100 | all hidden tokens that are left |
| LeafPaths.PrintedByPaths | pgify.c:1103-1133 | what is printed of a child list is one leaf for each path that ends in a node without children other than end-of-file, each path once, from left to right |
| LeafPaths.PrintedIff | pgify.c:1103-1133 | a node is among the printed ones if and only if some path leads to it, it has no children and is no end-of-file token |
| LeafPaths.PrintedIsFixed | pgify.c:1103-1133 | no other list of leaves is one for each such path in their order |
| LeafPaths.EndOfFileIsSilent | pgify.c:1128-1131 | an end-of-file leaf anywhere in a child list adds nothing to the printed text |
| Printer.Output.TreeWalkPrinter | pgify.c:1103-1133 | prints exactly those leaves, each behind the hidden tokens in front of it |
| Printer.RenderedConcat | pgify.c:40-45 | the text of two lists of statements is that of the first, then that of the second |
| Printer.RenderedAt | pgify.c:40-45 | statement i stands between the texts of those before it and those behind it |
| Printer.Output.PrintPostbuf | pgify.c:40-45 | a line break and the statements if there are any, and the buffer is empty |
| Pgify.PgifyString | pgify.c:130-144 | the text is the print of the rewritten tree followed by the old and new statements, on trees without template kinds |
| Pgify.PostscriptAt | pgify.c:40-45 | what is appended is a line break and every statement, each once, in order |
| Pgify.StatementsOfBoth | pgify.c:130-144 | two scripts through one walker state append the statements of the first, then those of the second |
| Pgify.UntouchedScript | pgify.c:130-144 | a tree whose leaves are the visible tokens, without any node that has a handler and without a visible token over two lines, prints its token texts in their order and appends nothing |
| Pgify.ScriptsInSequence | pgify.c:996-1066 | two scripts through one walker state behave as one |

## Left out

- Walker.TreeWalkWorker: speaks of trees without nodes of the kinds SHOW TABLES, SHOW COLUMNS, server variable, IF and FOUND_ROWS, whose handlers fill fixed SQL templates or (server variables) search from an uninitialised index; `TreeWalk.SafeTree` excludes them, `TreeWalk.HasHandler` and the laws about untouched nodes count them among the handled ones.
- Walker.Visit: the same.
- Pgify.PgifyString: the same.
- The SQL text of the emitted statements and the quotes `unquote` removes from names: statements are records. `PrintPostbuf` and `PgifyString` take the rendering as a parameter; the buffer is empty exactly if no statement was collected.
- The lexer and parser: trees and token streams are inputs, with the texts the lexer gives them (it rewrites strings, zero dates and some keywords, `mysql.g:2199-2207`). Shape predicates state what the grammar guarantees (`TableShape.WellFormed`, `TableConservation.GrammarTable`, `TableStatements.Named`, `TreeWalk.SafeKids`).
- Reads through missing children: `TablePasses.Safe` excludes the trees on which the passes would follow a null pointer (no identifier at all, an enum node without its word or parenthesis, an index without any identifier or ending in USING, an option node that stops behind AUTO_INCREMENT =, a hoisted definition or a comma as the very first child); the grammar builds none of them.
- Tokens shared between nodes: the duplicated parenthesis is a separate node with its own text, and a node's text is the node's own field.
- The unused width computed by TreeWalkPrinter, debug output, memory management, reading of input.
- In getopt.c: `-W` with `W;`, `_LIBC` flags, `long_only`, a null table of long options, error messages; POSIXLY_CORRECT is a boolean parameter; option characters are non-negative codes, arguments and names are strings without a terminator byte; the variables named by `flag` are a map.
- Calls after the final -1, and callers that move optind or change argv between calls.
- ColumnWorker.ForEachColumn: the four loops over the column definitions are one method (`EditEach`); each of the originals is the instance with its pass.
- GetoptScanner.Scanner.ClampIndices: states what the two guards do, but not what follows when the caller moved optind back.
- GetoptLaws.ReturnInOrderReportsAll: asks that no letter with character code 1 takes an argument, whose reports could not be told from non-options; ReturnInOrderIff says that this is exactly the condition.
- GetoptLaws.ReturnInOrderSeparates: asks the same.
- EmittedWords.TriggerTakesExpressionIff: asks that something is printed of every topmost node, so none of them is an end-of-file token.
- PrintLaws.TextRoundTripIff: leaves out streams in which a visible text and the next hidden one begin alike, such as the operator `-` before a `--` comment; RoundTripIff, on the order of the pieces, has no such condition.
- TableStatements.StatementsAreConserved: speaks of tables whose columns begin with an identifier, as the grammar's do.
- EnumBalance.EnumsKeepBalance: counts parentheses outside quotes of the printed leaves, takes it from the lexer that no token leaves a quote open, and leaves out names with a double quote inside; the exact condition on the name is NameKeepsBalanceIff.
- EnumBalance.MarkKeepsBalance: the same.
