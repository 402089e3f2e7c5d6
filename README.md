# SCI script syntax parser: a Dafny model

This project models the core of SCI Companion's parser for SCI-syntax scripts,
`SCICompanionLib/Src/Compile/SCISyntaxParser.cpp`, and proves properties of the model.
It covers four parts of that file:

- **The hand-written lexical recognisers.** These are the selector and name parsers
  (`SelectorP`, `AlphanumPNoKeywordOrTerm`, `AlphanumPNoKeywordOrTerm2`,
  `AlphanumPSendTokenOrTerm`, `SelectorP_Term`), `IntegerNonZeroP`, the literal operator
  parser `SCIOperatorP`, and the token extractor used for error messages.
- **The operator trie.** `GenerateOperatorStringWorker` flattens a set of operator
  spellings into a table. `SCIOptimizedOperatorP` walks that table to find the operator
  under the cursor.
- **The semantic actions the grammar runs.** These handle `repeat`, `breakif`/`contif`,
  `enum` and the restructuring of n-ary associative operators into right-nested binary
  operators.
- **The post-processing of a parsed script (`PostProcessScript`).** In order, it:
  - marks procedures and classes public;
  - turns verb handlers into a `doVerb` method;
  - turns `foreach` loops into `for` or `while` loops;
  - turns `cond` into nested `if`s;
  - numbers the cases of a `switchto`;
  - warns about constructs that are parsed but not compiled.

  The same part also builds the message for a syntax error.

The modules are listed below.

| Module | What it holds |
|---|---|
| `Wrappers` | `Option`. |
| `Chars` | The C-locale character classes. `Peek` reads the character under a cursor; past the end it returns NUL, as dereferencing the stream does. Also decimal numerals. |
| `Lexical` | The recognisers. Each works on a text and a cursor position and returns whether it matched, the scratch string and the new cursor. |
| `OperatorTrie` | The trie, its table encoding, the generator and the matcher. Both are proved against a direct definition of "the operator at this position". |
| `Ast` | The syntax tree as one datatype, with generic access to a node's children. |
| `ParseActions` | The parser context as a class with the fields the actions update, plus the actions. |
| `Verbs`, `ForEachLowering`, `CondLowering`, `SwitchTo` | The passes of `PostProcessScript`. |
| `Desugar` | The whole post-processing and its warnings. |
| `SyntaxErrors` | The syntax-error report. |

Loops that the source runs inside a pass become methods proved equal to specification
functions:

- folding the clauses of a cond;
- numbering the cases of a switch;
- building the `doVerb` switch;
- restructuring an n-ary operator;
- scanning the trie table.

The tree walks are functions over the tree, and the properties are lemmas about those
functions.

Where a literal in the source looks like a slip, the model follows the code as written:

- The warning text lacks a space before "ignored - not implemented".
- The statement hint reads "must being".
- The keyword list is the one the compiler sees. Five entries lack their comma, so
  adjacent string literals are joined: `"class#classdefcond"`, `"externfile#for"`,
  `"globalif"`, `"methodsmod"` and `"selectorssuper#super"`. Because of this, `cond`,
  `for`, `if`, `mod` and `super` are not reserved words.

## Model

| member | source | states |
|---|---|---|
| Chars.Peek | SCICompanionLib/Src/Compile/SCISyntaxParser.cpp:54 | The character under the cursor is the text's character at that position, or NUL past the end |
| Chars.DecimalString | SCICompanionLib/Src/Compile/SCISyntaxParser.cpp:2101 | A number is written as a non-empty run of decimal digits with no leading zero |
| Chars.DecimalRoundTrip | SCICompanionLib/Src/Compile/SCISyntaxParser.cpp:2101 | Reading back the digits written for a number gives the number |
| Lexical.SelectorEndIff | SCICompanionLib/Src/Compile/SCISyntaxParser.cpp:49-70 | The selector run ends exactly where either no start character is present or the run of letters, digits, `_` and `-` stops |
| Lexical.SelectorP | SCICompanionLib/Src/Compile/SCISyntaxParser.cpp:49-70 | The scratch string is the run that starts with a letter, `_` or `-`, the cursor stops after it, and the parse succeeds exactly when the run contains a letter |
| Lexical.HasAlphaSnoc | SCICompanionLib/Src/Compile/SCISyntaxParser.cpp:63 | Whether a run has a letter is kept up to date one character at a time |
| Lexical.KeywordListAsCompiled | SCICompanionLib/Src/Compile/SCISyntaxParser.cpp:91-147 | The reserved-word list as compiled joins five pairs of adjacent literals into `class#classdefcond`, `externfile#for`, `globalif`, `methodsmod` and `selectorssuper#super`, so `cond`, `for`, `if`, `mod` and `super` are not reserved |
| Lexical.AlphanumPNoKeywordOrTerm | SCICompanionLib/Src/Compile/SCISyntaxParser.cpp:150-169 | Succeeds exactly when the selector parses, is not followed by `:` or `?`, and is neither reserved nor one of the context's extra keywords |
| Lexical.AlphanumPNoKeywordOrTerm2 | SCICompanionLib/Src/Compile/SCISyntaxParser.cpp:172-186 | The same test without extra keywords |
| Lexical.AlphanumPSendTokenOrTerm | SCICompanionLib/Src/Compile/SCISyntaxParser.cpp:189-210 | The same test, except that `send` and `super` are let through even when they are extra keywords |
| Lexical.SendTokenOnlyAddsSendSuper | SCICompanionLib/Src/Compile/SCISyntaxParser.cpp:150-210 | The send-token parser accepts everything the plain one does, and differs from it only on `send` or `super` listed as extra keywords |
| Lexical.SelectorP_Term | SCICompanionLib/Src/Compile/SCISyntaxParser.cpp:214-223 | Succeeds exactly when a selector is followed by the terminator, and then consumes the terminator too |
| Lexical.NameFormsExclusive | SCICompanionLib/Src/Compile/SCISyntaxParser.cpp:150-223 | A name cannot end in both `:` and `?`, and a terminated name is never a plain name |
| Lexical.IntegerNonZeroP | SCICompanionLib/Src/Compile/SCISyntaxParser.cpp:31-43 | Succeeds exactly on a non-zero integer; reports "Expected non-zero integer." exactly on zero |
| Lexical.AgreeFromIff | SCICompanionLib/Src/Compile/SCISyntaxParser.cpp:249-267 | The characters compared so far all match the literal, and the first one that stops the comparison does not |
| Lexical.SCIOperatorP | SCICompanionLib/Src/Compile/SCISyntaxParser.cpp:249-267 | The cursor advances over the matching prefix of the literal; the parse succeeds exactly when the whole literal is there followed by whitespace |
| Lexical.LiteralAgreesWithTable | SCICompanionLib/Src/Compile/SCISyntaxParser.cpp:249-267 | The literal parser and the table parser agree on a one-operator table |
| Lexical.TokenEndIff | SCICompanionLib/Src/Compile/SCISyntaxParser.cpp:2061-2069 | The token ends at the first NUL, whitespace character or parenthesis |
| Lexical.ExtractSomeToken | SCICompanionLib/Src/Compile/SCISyntaxParser.cpp:2061-2069 | Appends the token under the cursor to the string and leaves the cursor after it |
| OperatorTrie.GroupByFirstChar | SCICompanionLib/Src/Compile/SCISyntaxParser.cpp:505-518 | Groups the unfinished spellings by first character, each group holding the tails. It notes whether some spelling is finished: empty or starting with NUL, the source's `!op[0]` test |
| OperatorTrie.AppendSubEntries | SCICompanionLib/Src/Compile/SCISyntaxParser.cpp:540-544 | The result is the header followed by every sub-table in order |
| OperatorTrie.EncodeGroup | SCICompanionLib/Src/Compile/SCISyntaxParser.cpp:524 | The sub-table of a group is the serialized trie of its tails, one level shallower |
| OperatorTrie.EncodeNext | SCICompanionLib/Src/Compile/SCISyntaxParser.cpp:522-530 | One header step takes the smallest remaining first character, appends its pair and sub-table, and moves the offset past it |
| OperatorTrie.EncodeGroups | SCICompanionLib/Src/Compile/SCISyntaxParser.cpp:521-531 | The header pairs in character order, each pointing at its sub-table |
| OperatorTrie.LevelAssembled | SCICompanionLib/Src/Compile/SCISyntaxParser.cpp:519-544 | The header, the space terminal when some spelling is finished, the 0 end mark and the sub-tables are exactly one serialized level |
| OperatorTrie.GenerateOperatorStringWorker | SCICompanionLib/Src/Compile/SCISyntaxParser.cpp:503-545 | The table produced is the serialization of the trie built from the operator set |
| OperatorTrie.NulSpellingEnds | SCICompanionLib/Src/Compile/SCISyntaxParser.cpp:512-516 | A spelling starting with NUL counts as finished, like the empty one, at the top level and below: it adds the space terminal and no branch |
| OperatorTrie.BuildKeys | SCICompanionLib/Src/Compile/SCISyntaxParser.cpp:509-531 | The trie's branches at a level are the operators' first characters in ascending order |
| OperatorTrie.BuildFind | SCICompanionLib/Src/Compile/SCISyntaxParser.cpp:509-531 | A branch exists for a character exactly when some operator starts with it |
| OperatorTrie.FindKeyFirst | SCICompanionLib/Src/Compile/SCISyntaxParser.cpp:565-568 | The search finds the first branch with the character, and finds none exactly when no branch has it |
| OperatorTrie.BuildValid | SCICompanionLib/Src/Compile/SCISyntaxParser.cpp:503-545 | The built trie is well formed for the matcher: no branch key, at any depth, is NUL or whitespace |
| OperatorTrie.BuildMatches | SCICompanionLib/Src/Compile/SCISyntaxParser.cpp:503-592 | Walking the built trie finds exactly what the direct definition of operator matching finds |
| OperatorTrie.MatchOpsIff | SCICompanionLib/Src/Compile/SCISyntaxParser.cpp:554-592 | Matching yields `w` exactly when `w` is an operator spelled at the cursor and followed by whitespace |
| OperatorTrie.OperatorTableMatches | SCICompanionLib/Src/Compile/SCISyntaxParser.cpp:501-592 | For the table generated from an operator set, matching yields `w` exactly when `w` is in the set and stands at the cursor followed by whitespace; the match is at most the maximum length |
| OperatorTrie.OperatorAtUnique | SCICompanionLib/Src/Compile/SCISyntaxParser.cpp:554-592 | At most one operator stands at a position, so the match is unambiguous |
| OperatorTrie.RoundTrip | SCICompanionLib/Src/Compile/SCISyntaxParser.cpp:554-592 | An operator written and followed by whitespace is read back as that operator |
| OperatorTrie.UnaryLongestMatch | SCICompanionLib/Src/Compile/SCISyntaxParser.cpp:554-592 | On `-- ` the unary table yields `--`, not `-` |
| OperatorTrie.ScanLevel | SCICompanionLib/Src/Compile/SCISyntaxParser.cpp:562-568 | The scan of one level's header stops at the branch for the character, at the space terminal, or at the end mark when neither applies |
| OperatorTrie.MatchTrieStep | SCICompanionLib/Src/Compile/SCISyntaxParser.cpp:577-582 | Following a branch consumes its character and continues in its sub-trie |
| OperatorTrie.MatchTrieTerminal | SCICompanionLib/Src/Compile/SCISyntaxParser.cpp:569-576 | Whitespace where the level accepts the empty string ends the match with the characters read |
| OperatorTrie.MatchTrieMiss | SCICompanionLib/Src/Compile/SCISyntaxParser.cpp:584-588 | A character with no branch, and no terminal that accepts it, fails the match |
| OperatorTrie.MatchTrieEnd | SCICompanionLib/Src/Compile/SCISyntaxParser.cpp:560-591 | The end of the text fails the match |
| OperatorTrie.SCIOptimizedOperatorP | SCICompanionLib/Src/Compile/SCISyntaxParser.cpp:554-592 | Succeeds exactly when the trie matches; then the scratch string is the operator and the cursor stands after it |
| OperatorTrie.GeneratedOperatorP | SCICompanionLib/Src/Compile/SCISyntaxParser.cpp:547-592 | An operator parser over a generated table succeeds exactly when a spelling of the set is written at the cursor and followed by whitespace; it then holds that spelling and stops after it; on failure the scratch string is unchanged |
| ParseActions.SyntaxContext.InitEnumStart | SCICompanionLib/Src/Compile/SCISyntaxParser.cpp:446-449 | Resets the integer to 0 and changes nothing else |
| ParseActions.SyntaxContext.CreateEnumDefine | SCICompanionLib/Src/Compile/SCISyntaxParser.cpp:450-462 | Outside a false `#ifdef`, adds a define with the current integer and increments it; inside one, changes nothing |
| ParseActions.EnumDefinesValues | SCICompanionLib/Src/Compile/SCISyntaxParser.cpp:899 | The enum's names get consecutive values from the start value |
| ParseActions.SyntaxContext.ParseEnum | SCICompanionLib/Src/Compile/SCISyntaxParser.cpp:899 | An `enum` adds one define per name with consecutive values from the optional start (0 by default), unless inside a false `#ifdef` |
| ParseActions.SyntaxContext.SetRepeatStatement | SCICompanionLib/Src/Compile/SCISyntaxParser.cpp:282-292 | `repeat` becomes `while 1` with an empty body |
| ParseActions.SyntaxContext.FinishBreakContinueIf | SCICompanionLib/Src/Compile/SCISyntaxParser.cpp:295-308 | The if's condition becomes the parsed expression and its then-part a block holding only the break or continue, which `GetBreakContinueInIf` then finds |
| ParseActions.RightNestChain | SCICompanionLib/Src/Compile/SCISyntaxParser.cpp:463-498 | The nesting is a right-leaning chain of the operator whose leaves are the operands in order |
| ParseActions.ChainIsRightNest | SCICompanionLib/Src/Compile/SCISyntaxParser.cpp:463-498 | Every such chain is the nesting of its own leaves, so restructuring loses and invents nothing |
| ParseActions.SyntaxContext.RestructureNaryAssociativeOp | SCICompanionLib/Src/Compile/SCISyntaxParser.cpp:463-498 | `(op a b c d)` becomes `(op a (op b (op c d)))` and nothing else in the context changes |
| Verbs.VerbElse | SCICompanionLib/Src/Compile/SCISyntaxParser.cpp:1360-1377 | The added case is the default case, with no case value |
| Verbs.ProcessVerbHandler | SCICompanionLib/Src/Compile/SCISyntaxParser.cpp:1379-1412 | One case per verb clause, valued with the first verb, taking the clause's code; each clause is left empty |
| Verbs.ProcessClassForVerbHandlers | SCICompanionLib/Src/Compile/SCISyntaxParser.cpp:1414-1426 | A class with verb handlers gains one `doVerb` method; a class without any is unchanged |
| Verbs.DoVerbAddedIffHandlers | SCICompanionLib/Src/Compile/SCISyntaxParser.cpp:1379-1426 | A `doVerb` method is appended exactly when the class has verb handlers; the rest of the class is kept |
| Verbs.DoVerbSwitch | SCICompanionLib/Src/Compile/SCISyntaxParser.cpp:1379-1426 | `doVerb(theVerb)` switches on `theVerb` with one case per clause, in order, and the default case last and only there |
| Verbs.VerbCodeMoves | SCICompanionLib/Src/Compile/SCISyntaxParser.cpp:1404 | The clauses' code, in order, is the code of the switch cases; the clauses keep their verbs and lose their code |
| ForEachLowering.HintSuffixInjective | SCICompanionLib/Src/Compile/SCISyntaxParser.cpp:1506 | Different foreach counters give different name suffixes (a letter below 26, digits from 26) |
| ForEachLowering.IterNameFresh | SCICompanionLib/Src/Compile/SCISyntaxParser.cpp:1506-1507 | The new iteration variable differs from the original and from that of any other foreach in the function |
| ForEachLowering.RenameRemoves | SCICompanionLib/Src/Compile/SCISyntaxParser.cpp:1435-1474 | After renaming, no assignment, token value or send names the original iteration variable |
| ForEachLowering.RenameRoundTrip | SCICompanionLib/Src/Compile/SCISyntaxParser.cpp:1435-1474 | Renaming to a fresh name and back restores the code |
| ForEachLowering.SendRenamed | SCICompanionLib/Src/Compile/SCISyntaxParser.cpp:1435-1474 | A send to the iteration variable is sent to the new name, and the expression a send is made to is renamed like its parameters |
| ForEachLowering.IndexedSendObjectReported | SCICompanionLib/Src/Compile/SCISyntaxParser.cpp:1449-1461 | An indexed use of the iteration variable as the object of a send, as in `([v 2] foo:)`, is among the uses reported |
| ForEachLowering.RenameForEachCount | SCICompanionLib/Src/Compile/SCISyntaxParser.cpp:1435-1474 | Renaming keeps every foreach |
| ForEachLowering.CheckCollection | SCICompanionLib/Src/Compile/SCISyntaxParser.cpp:1512-1536 | A token collection is used by name, and is an array exactly when it is a declared temp or script variable; anything else is reported once and treated as the array "INVALID" |
| ForEachLowering.Prepare | SCICompanionLib/Src/Compile/SCISyntaxParser.cpp:1476-1536 | The foreach's pieces with the iteration variable renamed to the new name, and the counter moved on by one |
| ForEachLowering.ArrayForEachLowered | SCICompanionLib/Src/Compile/SCISyntaxParser.cpp:1538-1639 | An array foreach declares the new variable and index, reports each indexed use of the iteration variable, and becomes a `for` over `&sizeof` whose body assigns the element and then runs the renamed body |
| ForEachLowering.ListForEachLowered | SCICompanionLib/Src/Compile/SCISyntaxParser.cpp:1640-1775 | A list foreach declares the variable and two node temps, adds `FirstNode` before the loop, and becomes a `while` that steps to the next node and assigns the value before the renamed body |
| ForEachLowering.BadCollectionReported | SCICompanionLib/Src/Compile/SCISyntaxParser.cpp:1512-1536 | A collection that is not a token is reported with the source's message for its kind, and the array "INVALID" is used |
| ForEachLowering.ExpandHint | SCICompanionLib/Src/Compile/SCISyntaxParser.cpp:1778-1791 | The counter advances by one per foreach walked |
| ForEachLowering.ExpandNoForEach | SCICompanionLib/Src/Compile/SCISyntaxParser.cpp:1778-1791 | Code without a foreach is left untouched |
| ForEachLowering.ExpandGrows | SCICompanionLib/Src/Compile/SCISyntaxParser.cpp:1778-1791 | Temps and reports are only ever appended |
| ForEachLowering.ExpandEmptied | SCICompanionLib/Src/Compile/SCISyntaxParser.cpp:1476-1791 | After the pass no foreach holds statements of its own |
| ForEachLowering.ExpandErrors | SCICompanionLib/Src/Compile/SCISyntaxParser.cpp:1435-1536 | Everything the pass reports is an error |
| ForEachLowering.ExpandScriptShape | SCICompanionLib/Src/Compile/SCISyntaxParser.cpp:1778-1791 | Over a script, every function is emptied of foreach bodies and only its body and temps change; the reports are all errors |
| CondLowering.Guarded | SCICompanionLib/Src/Compile/SCISyntaxParser.cpp:1946-1951 | A trailing `else` is set aside; the other clauses keep their order |
| CondLowering.LastDefault | SCICompanionLib/Src/Compile/SCISyntaxParser.cpp:1953-1962 | Finds the last `else` among the clauses, if any |
| CondLowering.NestIfs | SCICompanionLib/Src/Compile/SCISyntaxParser.cpp:1964-1981 | The outermost if tests the first kept clause and runs its code |
| CondLowering.FoldCond | SCICompanionLib/Src/Compile/SCISyntaxParser.cpp:1944-1994 | The backwards fold of the clauses produces the chain of nested ifs its specification defines, and reports exactly when it does |
| CondLowering.CondLogsIff | SCICompanionLib/Src/Compile/SCISyntaxParser.cpp:1953-1962 | "The else clause must be the last clause" is reported exactly when an `else` stands before the last clause |
| CondLowering.KeptIsLongestElseFreeRun | SCICompanionLib/Src/Compile/SCISyntaxParser.cpp:1953-1962 | The clauses kept are the longest run without an `else` that ends before the trailing `else`; clauses before a misplaced `else` are dropped |
| CondLowering.UnfoldNestIfs | SCICompanionLib/Src/Compile/SCISyntaxParser.cpp:1964-1981 | The nested ifs can be read back into exactly the kept clauses and the final else |
| CondLowering.CondChainShape | SCICompanionLib/Src/Compile/SCISyntaxParser.cpp:1944-1994 | The cond becomes a chain of ifs, one per kept clause in order, ending in the `else` block; with nothing kept, just the `else` block |
| CondLowering.NothingKept | SCICompanionLib/Src/Compile/SCISyntaxParser.cpp:1983-1994 | A cond with only an `else` becomes that clause's code in a block |
| CondLowering.LowerNodeClears | SCICompanionLib/Src/Compile/SCISyntaxParser.cpp:1937-1998 | After the pass no cond anywhere holds clauses |
| CondLowering.LowerNodeNoOp | SCICompanionLib/Src/Compile/SCISyntaxParser.cpp:1937-1998 | Code without clauses is left untouched |
| CondLowering.LowerNodeIdempotent | SCICompanionLib/Src/Compile/SCISyntaxParser.cpp:1937-1998 | Running the pass again changes nothing and reports nothing |
| CondLowering.LowerNodeReports | SCICompanionLib/Src/Compile/SCISyntaxParser.cpp:1956-1962 | A tree never gets more reports than it has conds with a misplaced `else`; the exact count is stated by `LowerNodeReached` |
| CondLowering.LowerNodeReached | SCICompanionLib/Src/Compile/SCISyntaxParser.cpp:1937-1998 | The number of reports equals the number of conds with a misplaced `else` that the walk reaches: all of them outside a cond with clauses, and inside one only those in the kept clauses and the trailing `else` (clauses before the last misplaced `else` are dropped unvisited); every reached such cond is reported once |
| CondLowering.LowerNodeKeeps | SCICompanionLib/Src/Compile/SCISyntaxParser.cpp:1937-1998 | Any property of single nodes that ifs, blocks and emptied conds have, and that the input has everywhere, holds everywhere after the pass |
| SwitchTo.Numbered | SCICompanionLib/Src/Compile/SCISyntaxParser.cpp:2007-2012 | Case `k` gets the value `k` modulo 2^16 |
| SwitchTo.ScanSwitchTo | SCICompanionLib/Src/Compile/SCISyntaxParser.cpp:2005-2006 | True exactly when no case is a default case or has a value |
| SwitchTo.NumberCases | SCICompanionLib/Src/Compile/SCISyntaxParser.cpp:2007-2012 | The `uint16_t` counter loop numbers the cases as `Numbered` does |
| SwitchTo.NumberSwitchCases | SCICompanionLib/Src/Compile/SCISyntaxParser.cpp:2000-2016 | A `switchto` gets its cases numbered; any other switch is unchanged |
| SwitchTo.NumberedCases | SCICompanionLib/Src/Compile/SCISyntaxParser.cpp:2007-2012 | Each case keeps its code and gets its position as its value |
| SwitchTo.NumberedSettles | SCICompanionLib/Src/Compile/SCISyntaxParser.cpp:2000-2016 | Numbering what is still a `switchto` after numbering changes nothing more |
| SwitchTo.NumberNodeSettles | SCICompanionLib/Src/Compile/SCISyntaxParser.cpp:2000-2016 | After the pass no `switchto` anywhere is left unnumbered |
| SwitchTo.NumberNodeNoOp | SCICompanionLib/Src/Compile/SCISyntaxParser.cpp:2000-2016 | Code with no unnumbered `switchto` is left untouched |
| SwitchTo.NumberNodeIdempotent | SCICompanionLib/Src/Compile/SCISyntaxParser.cpp:2000-2016 | Running the pass again changes nothing |
| SwitchTo.NumberNodeKeeps | SCICompanionLib/Src/Compile/SCISyntaxParser.cpp:2000-2016 | The pass keeps every property of single nodes that does not depend on child values |
| Desugar.PublishedShape | SCICompanionLib/Src/Compile/SCISyntaxParser.cpp:1903-1919 | Each procedure and class is public exactly when it is exported; a class gains a method exactly when it has verb handlers |
| Desugar.ExpandScriptOutline | SCICompanionLib/Src/Compile/SCISyntaxParser.cpp:1921-1928 | The foreach pass keeps every procedure, class and method with its name and public mark |
| Desugar.CondScriptShape | SCICompanionLib/Src/Compile/SCISyntaxParser.cpp:1937-1998 | Over a script the cond pass clears every cond and keeps the outline |
| Desugar.NumberScriptShape | SCICompanionLib/Src/Compile/SCISyntaxParser.cpp:2000-2016 | Over a script the switch pass numbers every `switchto` and keeps the outline |
| Desugar.UsedFromSpec | SCICompanionLib/Src/Compile/SCISyntaxParser.cpp:2018-2047 | The checks retained are exactly those that hold, in ascending order |
| Desugar.HasMethodForwards | SCICompanionLib/Src/Compile/SCISyntaxParser.cpp:2040-2047 | True exactly when some class has method forward declarations |
| Desugar.PushWarning | SCICompanionLib/Src/Compile/SCISyntaxParser.cpp:2019-2039 | A warning's text is appended exactly when its construct is used |
| Desugar.CollectWarnings | SCICompanionLib/Src/Compile/SCISyntaxParser.cpp:2018-2048 | The six checks in order produce the warnings of the script |
| Desugar.WarningsSpec | SCICompanionLib/Src/Compile/SCISyntaxParser.cpp:2018-2048 | One warning per construct used and none for the others, in check order, each with its text |
| Desugar.WarningLog | SCICompanionLib/Src/Compile/SCISyntaxParser.cpp:2049-2056 | Each warning is logged as a warning with "ignored - not implemented" appended |
| Desugar.PostProcessScript | SCICompanionLib/Src/Compile/SCISyntaxParser.cpp:1900-2057 | The passes, run in the source's order, give the script and log the pass-by-pass specification defines |
| Desugar.PostProcessedScript | SCICompanionLib/Src/Compile/SCISyntaxParser.cpp:1900-2057 | Afterwards every procedure and class is public exactly when exported, classes with verb handlers have a `doVerb`, no cond holds clauses, no `switchto` is unnumbered, and with a log no foreach holds statements |
| Desugar.PostProcessedLog | SCICompanionLib/Src/Compile/SCISyntaxParser.cpp:1921-2056 | Without a log nothing is reported; with one, the errors of the foreach and cond passes come first, then exactly the warnings, in order |
| SyntaxErrors.KindOf | SCICompanionLib/Src/Compile/SCISyntaxParser.cpp:2107-2124 | No hint exactly when there is no token; the stray-`else` hint only for `else` |
| SyntaxErrors.HintFor | SCICompanionLib/Src/Compile/SCISyntaxParser.cpp:2107-2124 | The hint chosen by the statement-keyword, operator, `else` and other-token tests, in that order |
| SyntaxErrors.ReportSyntaxError | SCICompanionLib/Src/Compile/SCISyntaxParser.cpp:2095-2130 | The report is the one the message specification defines |
| SyntaxErrors.HintInjective | SCICompanionLib/Src/Compile/SCISyntaxParser.cpp:2107-2124 | Different tokens give different hints |
| SyntaxErrors.PositionHintInjective | SCICompanionLib/Src/Compile/SCISyntaxParser.cpp:2101-2124 | The position and hint can be read back from their text |
| SyntaxErrors.ErrorReportSpec | SCICompanionLib/Src/Compile/SCISyntaxParser.cpp:2095-2130 | The message starts with the file, error text and position; it has a hint exactly when a token stands at the error; the reported line is one more than the stream's |
| SyntaxErrors.MessageDetermines | SCICompanionLib/Src/Compile/SCISyntaxParser.cpp:2095-2124 | The message determines the line, the column and the token |

## Left out

- In-place mutation of the syntax tree through `unique_ptr` moves is modelled on values. Each pass returns a new tree, so aliasing is not captured.
- Script ids and source positions in compile results are not modelled. Reports carry only their text and whether they are warnings; only the syntax error keeps its line and column.
- Line and column numbers come from the stream iterator, which is not part of this model. They are parameters of the syntax-error report.
- The operator name tables behind `IsOperator` are a parameter, `isOperator`.
- `fmt::format` is modelled as concatenation with decimal numerals.
- The generic parser engine is not modelled. That covers the grammar table built in `Load`, the parse context's node stack, `MatchResult`, the requirement that the whole text match, and the autocomplete and timing hooks. The grammar actions are modelled as methods on the context fields they change.
- `Parse` reports a syntax error only when an error log is given. Whether the log exists is left to the caller of the report.
- `Vocab99x.h` is not part of this model.
- `SCISyntaxParser.cpp` does not define the `ENABLE_` macros, so the build configuration is an assumption: `ENABLE_FOREACH` and `ENABLE_VERBS` are taken as defined, and `ENABLE_GETPOLY`, `ENABLE_LDMSTM` and `ENABLE_EXISTS` as not defined. The reserved-word set, the verb pass and the foreach pass depend on this choice. Under it, `foreach` and `verbs` are reserved and `&exists` and `&getpoly` are not (SCISyntaxParser.cpp:93-98, 116-118, 139-141).
- `_ProcessGetPoly` and `_ProcessGetPolys` fall under `ENABLE_GETPOLY` and read polygon resources. They are not modelled, and neither are reference foreach loops under `ENABLE_LDMSTM`.
- The `ConditionalExpression` wrapper is dropped: a condition is the statement it wraps. The source wraps every condition it builds, in `repeat`, `breakif`/`contif`, the foreach loops and the ifs made from a cond (SCISyntaxParser.cpp:290, 300, 1546-1549, 1672-1675, 1971-1972). So in `CondLowering.NestIfs` and `CondLowering.CondChainShape` an if's condition is the clause value itself, not the value inside a wrapper.
- `ComplexPropertyValue` and `PropertyValue` are one `Value` node.
- `_MakeSimpleSend` builds the `elements?` send only in the shape needed for the list loop.
- `EnumScriptElements` is assumed to visit a node before its children. For a send, the expression it is made to is taken to come before its parameters; the traversal code of `SendCall` is not part of this model. Statements a foreach lowering creates are not walked again, except the renamed body, which the source also visits.
- ForEachLowering.Rename: the three renaming walks of `_ReplaceIterationVariable` are one pass. The reports they make are identical texts, so their order is not distinguished.
- SwitchTo.NumberNodeSettles: numbering is applied after the children are visited, not before. The result is the same, because numbering reads only the default marks and the emptiness of case values, and the walk below a switch does not change them.
- OperatorTrie.GenerateOperatorStringWorker: the table is a sequence of unbounded integers. The source's assertion that offsets stay below 128, and its cast of each entry to `char`, are not modelled.
- OperatorTrie.GroupByFirstChar: the groups are ordered by character code, which agrees with `std::map<char, …>` ordering for ASCII operators only.
- OperatorTrie.SCIOptimizedOperatorP: when the match fails, the contract states only that the cursor did not move back, not where it stopped.
- The ordering of `unordered_set` in `_ProcessVerbHandler` plays no part and is not modelled.
