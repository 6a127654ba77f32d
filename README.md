# cw-db in Dafny

A model of cw-db, a small SQL-like database engine. The server gets one
command string at a time and replies with a text that starts with `[OK]` or
`[ERROR]`. To answer, it goes through these steps:

- **Tokenising.** The command is cut into tokens. This is done in three
  passes, over spaces, over runs of letters and digits, and over merged
  symbols.
- **Parsing.** The tokens are parsed by recursive descent over a fixed
  grammar of terminal, ordered-choice and sequence rules.
- **Checking.** The command is checked against the reserved words, the
  selected database, the table files and the table's columns, in a fixed
  order.
- **Running.** The command is run on an in-memory table. That table is
  loaded from, and saved back to, tab-separated text files, together with a
  counter file for automatic row ids.

The model has one module per source file:

| Dafny module | File | Source |
|---|---|---|
| `Tokeniser` | `tokeniser.dfy` | `Tokeniser.java` |
| `Grammar` | `grammar.dfy` | `SQLSimpGrammar.java`: the rule graph, the terminal patterns, the reserved words |
| `ParseTree` | `parse_tree.dfy` | `Node.java` |
| `Rules` | `rule.dfy` | `Rule.java` |
| `ConditionResults` | `condition_result.dfy` | `ConditionResult.java` |
| `Tables` | `table.dfy` | the value of a table and the specification of every table operation |
| `ArrListTables` | `arr_list_table.dfy` | `ArrListTable.java`, a class with sequence fields |
| `TableHandlers` | `table_handler.dfy` | `TableHandler.java` and the file store |
| `DatabaseHandlers` | `database_handler.dfy` | `DatabaseHandler.java` |
| `Base` | `base.dfy` | shared helpers: case mapping, Java's `split`, decimal integers |

The model follows the code's own form.

- **Loops are methods.** Every loop outside `Node.java` is a `method` with
  a `while` loop. The for-each traversals of `Node.java` only compute a
  value over the tree, so they are recursive functions. Examples are the space scan, the run split, the
  list-replacing pass with its index bump, the combining cursor, the bracket
  counter, the SEQ part loop, the row, column and print loops, the save and
  load loops, the selection mask, the reverse delete loop and the nested
  join loops.
- **Each method is proved against a function.** The method's `ensures`
  equates its result, or its new state, with a specification function. The
  properties the source promises are then proved about that function.
- **Objects are classes.** Objects whose fields change in place are
  classes: `ArrListTable`, `TableHandler`, `DatabaseHandler` and the `Disk`
  store. Their state is related to a value by `Value()` or `Abs()`.
- **Pure code is functions.** Pure recursion is functions over datatypes:
  the parser's `ParseRule` and the tree queries.

The file system is a `Disk` object. It holds a map from directory name to
file name to file text. `Double.parseDouble` and the numeric comparison are
the two function fields of a `Numerics` value, passed in as parameters.

Two details of the code that a reader might not expect:

- The counter file is `name_ID.tab`. `saveID` puts `_ID` in front of
  `.tab` (`TableHandler.java:170-171`).
- The top-level parse does not check that the tokens end after the `;`
  (`Rule.java:116-131`).

## Model

| member | source | states |
|---|---|---|
| Tokeniser.SplitBySpaces | cw-db/src/main/java/edu/uob/Tokeniser.java:155-181 | The character loop with its quote flag gives exactly `SpaceSplit(s)`. |
| Tokeniser.SpaceSplitText | cw-db/src/main/java/edu/uob/Tokeniser.java:159-175 | The pieces concatenate to the input without exactly the spaces that follow an even number of quotes: each `'` toggles the quoted state. |
| Tokeniser.SpaceScanText | cw-db/src/main/java/edu/uob/Tokeniser.java:162-172 | After the loop, the quote flag is the parity of the quotes read. The finished pieces plus the pending text are the input without its unquoted spaces. |
| Tokeniser.SpaceSplitNonEmpty | cw-db/src/main/java/edu/uob/Tokeniser.java:177-178 | No piece is the empty string. |
| Tokeniser.AllSpacesGiveNothing | cw-db/src/main/java/edu/uob/Tokeniser.java:162-178 | The empty string, and a string of spaces only, give no pieces. |
| Tokeniser.SplitRuns | cw-db/src/main/java/edu/uob/Tokeniser.java:18-39 | The per-character loop gives exactly `Runs(s)`. |
| Tokeniser.RunsSplit | cw-db/src/main/java/edu/uob/Tokeniser.java:22-39 | The pieces concatenate back to the substring. Each piece is a run of letters and digits or a single other character, and no two runs are adjacent, so the runs are maximal. |
| Tokeniser.WellSplitMeans | cw-db/src/main/java/edu/uob/Tokeniser.java:22-39 | The piece-by-piece invariant is equivalent to: every piece is a run or one symbol, and no two neighbours are both runs. |
| Tokeniser.ExpandInPlace | cw-db/src/main/java/edu/uob/Tokeniser.java:16-49 | The in-place pass gives `Expanded(orig)`. It removes a piece, inserts its runs and bumps the index past them. |
| Tokeniser.ExpandStep | cw-db/src/main/java/edu/uob/Tokeniser.java:42-48 | One in-place replacement turns the list as processed up to piece `k` into the list as processed up to piece `k + 1`. The cursor lands after the inserted runs. |
| Tokeniser.ExpandedText | cw-db/src/main/java/edu/uob/Tokeniser.java:16-49 | The second pass keeps the concatenated text. |
| Tokeniser.IsNumeric | cw-db/src/main/java/edu/uob/Tokeniser.java:183-188 | True exactly when every character is a digit, so it is true for `""`. |
| Tokeniser.CombineSymbolTokens | cw-db/src/main/java/edu/uob/Tokeniser.java:64-150 | The cursor loop gives exactly `Combine(tokenStrings)`. |
| Tokeniser.CombineOne | cw-db/src/main/java/edu/uob/Tokeniser.java:70-147 | One loop iteration gives the merged token and the next index of `CombineStep`. |
| Tokeniser.GatherLiteral | cw-db/src/main/java/edu/uob/Tokeniser.java:80-95 | The do-while loop stops one past the next quote token, or at the end. The literal is the concatenation of the tokens it absorbed. |
| Tokeniser.CombineStep | cw-db/src/main/java/edu/uob/Tokeniser.java:69-147 | Each merged token consumes at least one token. Its text is the concatenation of the tokens it consumed, less a dropped leading `+`. |
| Tokeniser.LiteralAbsorbs | cw-db/src/main/java/edu/uob/Tokeniser.java:80-95 | A `'` with at least one token after it absorbs every token up to and including the next `'`, or up to the end when there is none. |
| Tokeniser.ComparatorMerges | cw-db/src/main/java/edu/uob/Tokeniser.java:98-104 | `=`, `<`, `>` or `!` followed by `=` merge into one two-character token. |
| Tokeniser.SignedNumberMerges | cw-db/src/main/java/edu/uob/Tokeniser.java:107-134 | A sign followed by digits merges with them, and with `.` and digits when they follow. A `-` is kept and a `+` dropped. |
| Tokeniser.UnsignedDecimalMerges | cw-db/src/main/java/edu/uob/Tokeniser.java:137-143 | Digits, `.` and digits merge into one decimal. |
| Tokeniser.CombineShorter | cw-db/src/main/java/edu/uob/Tokeniser.java:64-150 | The combined list is never longer than its input. |
| Tokeniser.CombineFromText | cw-db/src/main/java/edu/uob/Tokeniser.java:64-150 | With no `+` token, combining only regroups: the concatenated text is unchanged. |
| Tokeniser.ExtractTokens | cw-db/src/main/java/edu/uob/Tokeniser.java:7-60 | The three passes give `Tokenise(commandStr)`. |
| Tokeniser.TokeniseText | cw-db/src/main/java/edu/uob/Tokeniser.java:7-60 | For a command without `+`, the tokens concatenate to the command without its unquoted spaces. |
| Tokeniser.BlankHasNoTokens | cw-db/src/main/java/edu/uob/Tokeniser.java:155-181 | An empty or all-space command has no tokens. |
| Tokeniser.IncompleteDecimalExample | cw-db/src/main/java/edu/uob/Tokeniser.java:107-143 | `+17.` gives `17` and `.`: the sign merges with the digits and the point stays alone. |
| Tokeniser.LeadingPointExample | cw-db/src/main/java/edu/uob/Tokeniser.java:137-147 | `.` followed by `125` stays two tokens. |
| Tokeniser.UnclosedLiteralExample | cw-db/src/main/java/edu/uob/Tokeniser.java:80-95 | A literal without its closing quote runs to the end of the tokens. |
| Tokeniser.SignedDecimalExample | cw-db/src/main/java/edu/uob/Tokeniser.java:107-119 | `+ 2 . 66` merges into `2.66`. |
| Tokeniser.LoneMinusExample | cw-db/src/main/java/edu/uob/Tokeniser.java:122-147 | A lone `-` stays a token. |
| Tokeniser.FinalQuoteExample | cw-db/src/main/java/edu/uob/Tokeniser.java:80-95 | A quote that is the last token is left alone. |
| Grammar.OrRank | cw-db/src/main/java/edu/uob/SQLSimpGrammar.java:97-128 | Every alternative of a choice ranks below the choice, so no choice recurses at the same position. |
| Grammar.SeqRank | cw-db/src/main/java/edu/uob/SQLSimpGrammar.java:97-128 | Every sequence has parts, and its first part ranks below it. |
| Grammar.KeywordIsUpper | cw-db/src/main/java/edu/uob/Rule.java:27-37 | A case-insensitive keyword match is equality of the upper-cased token with the keyword. |
| Grammar.FloatNeedsDigitsBothSides | cw-db/src/main/java/edu/uob/SQLSimpGrammar.java:53 | A float literal holds a point and neither starts nor ends with it. |
| Grammar.IntegerNotFloat | cw-db/src/main/java/edu/uob/SQLSimpGrammar.java:52-53 | No token is both an integer and a float literal. |
| Grammar.NotNameAt | cw-db/src/main/java/edu/uob/SQLSimpGrammar.java:47-49 | A text with a character that is neither a letter nor a digit is not a name. |
| Grammar.NameExamples | cw-db/src/main/java/edu/uob/SQLSimpGrammar.java:47-49 | `finance_data` and `censors**p` are not names. |
| Grammar.FloatExamples | cw-db/src/main/java/edu/uob/SQLSimpGrammar.java:53 | `2.` and `.99` are not floats; `-12.12` is. |
| Grammar.StringLitExamples | cw-db/src/main/java/edu/uob/SQLSimpGrammar.java:91-94 | A literal holding `"`, `£` or `¬` is refused; `'Simon'` is accepted. |
| Grammar.StringLitCharIsPrintable | cw-db/src/main/java/edu/uob/SQLSimpGrammar.java:91-94 | The allowed literal characters are exactly the printable ASCII characters other than `"`, `'` and `\|`. The range `A-z` takes in `[ \ ] ^ _` and the backquote. |
| Grammar.ReservedExamples | cw-db/src/main/java/edu/uob/SQLSimpGrammar.java:7-9 | The list has 22 entries with DROP twice. `select` and `Drop` are reserved after upper-casing; `marks` is not. |
| Rules.FindNakedBool | cw-db/src/main/java/edu/uob/Rule.java:45-71 | The bracket-counting loop gives `NakedBool(tokens, start)`. |
| Rules.NakedBoolMeans | cw-db/src/main/java/edu/uob/Rule.java:45-71 | The look-ahead holds exactly when an AND/OR token at depth 0 follows, with no non-bracket token at negative depth before it. |
| Rules.ConditionShape | cw-db/src/main/java/edu/uob/Rule.java:138-167 | The chosen shape is a condition shape ranked below CONDITION. |
| Rules.ParseRule | cw-db/src/main/java/edu/uob/Rule.java:74-136 | A result exists only when the start position is before the end. It is tagged with the rule and has at least one leaf. |
| Rules.ParseTokens | cw-db/src/main/java/edu/uob/Rule.java:74-136 | The recursive method with its OR and SEQ loops returns exactly `ParseRule(tokens, start, r)`. |
| Rules.ParseOrTokens | cw-db/src/main/java/edu/uob/Rule.java:94-104 | The alternative loop returns `ParseOr`: the first alternative that succeeds. |
| Rules.ParseSeqTokens | cw-db/src/main/java/edu/uob/Rule.java:116-132 | The part loop advances the start by each subtree's leaf count. It returns `ParseParts`, and fails when any part fails. |
| Rules.ParseConditionTokens | cw-db/src/main/java/edu/uob/Rule.java:138-167 | The condition method returns `ParseCondition`, the shape its look-ahead picks, parsed. |
| Rules.ParseRuleSpans | cw-db/src/main/java/edu/uob/Rule.java:107-132 | A successful parse from `p` is a formed tree whose k ≥ 1 leaves are exactly `tokens[p..p+k)`, with p+k ≤ \|tokens\|. |
| Rules.TextsAtSlice | cw-db/src/main/java/edu/uob/Rule.java:107-132 | Leaves laid at `pos` are exactly the token slice from `pos`. |
| Rules.TermIff | cw-db/src/main/java/edu/uob/Rule.java:27-37 | A terminal succeeds exactly when a token is left and matches its pattern. It then gives one leaf holding that token (lines 107-113). |
| Rules.ChoiceFirst | cw-db/src/main/java/edu/uob/Rule.java:94-104 | A choice fails exactly when every alternative fails. Otherwise it holds the first succeeding alternative's tree as its only child. |
| Rules.ParseOrNone | cw-db/src/main/java/edu/uob/Rule.java:95-104 | The alternative loop fails exactly when every alternative does. |
| Rules.ParseOrFirst | cw-db/src/main/java/edu/uob/Rule.java:95-104 | The loop returns the first alternative that succeeds. |
| Rules.PartsStep | cw-db/src/main/java/edu/uob/Rule.java:117-129 | A failing part fails the sequence. Otherwise parsing continues after the part's leaves. |
| Rules.GrammarPriorities | cw-db/src/main/java/edu/uob/SQLSimpGrammar.java:97-124 | CREATE TABLE with attributes is tried before the bare form, and SELECT with WHERE before SELECT without. Each list's recursive form is tried before its single element. |
| Rules.ValueTriesInOrder | cw-db/src/main/java/edu/uob/SQLSimpGrammar.java:121 | A value is the first of string, boolean, float, integer and NULL whose pattern matches the token. |
| Rules.ConditionOneChild | cw-db/src/main/java/edu/uob/Rule.java:83-91 | CONDITION succeeds exactly when its chosen shape parses, and then has that tree as its only child. |
| Rules.CommandChildren | cw-db/src/main/java/edu/uob/SQLSimpGrammar.java:97 | A parsed command is the command body followed by the `;` leaf right after it. |
| Rules.CommandEndsAtSemicolon | cw-db/src/main/java/edu/uob/SQLSimpGrammar.java:97 | The last token a parsed command covers is `;`, which need not be the last token. |
| ParseTree.LeafCount | cw-db/src/main/java/edu/uob/Node.java:36-54 | The leaf count, 1 for a leaf and the sum over the children otherwise, equals the number of leaf texts. |
| ParseTree.FindIsFirstInPreorder | cw-db/src/main/java/edu/uob/Node.java:137-149 | The search returns the first node with the rule in left-to-right pre-order, or nothing. |
| ParseTree.FindTokenStringIsFirstLeaf | cw-db/src/main/java/edu/uob/Node.java:152-160 | There is a text exactly when the first match exists and is a leaf. The text is that leaf's. |
| ParseTree.FormedLeaf | cw-db/src/main/java/edu/uob/Rule.java:107-113 | In a parsed tree, terminal rules and only they are leaves. |
| ParseTree.FormedSeq | cw-db/src/main/java/edu/uob/Rule.java:116-132 | A sequence node has one child per part, each built by its part. |
| ParseTree.FormedValue | cw-db/src/main/java/edu/uob/SQLSimpGrammar.java:121 | A VALUE node has a single leaf below it. |
| ParseTree.NamesInPreorder | cw-db/src/main/java/edu/uob/Node.java:164-188 | For ATTRIBUTE and TABLE_NAME, the collected texts are the texts of the leaves so tagged, in pre-order. |
| ParseTree.MatchedNodeGivesOne | cw-db/src/main/java/edu/uob/Node.java:168-175 | A matched node contributes at most one text; the collection does not look below it. |
| ParseTree.NameValueCounts | cw-db/src/main/java/edu/uob/SQLSimpGrammar.java:116-118 | A name=value list yields as many attributes as values. |
| ParseTree.FoundFormed | cw-db/src/main/java/edu/uob/Node.java:137-149 | The found node has the rule searched for, is formed, and passes the attribute check when the whole tree does. |
| ParseTree.CheckAttributesExistSpec | cw-db/src/main/java/edu/uob/Node.java:62-80 | The check holds exactly when every collected ATTRIBUTE name has a column. |
| ParseTree.AttributesCoverConditions | cw-db/src/main/java/edu/uob/Node.java:62-93 | When every attribute exists, every column a simple condition names exists. |
| ParseTree.CombineCompoundTable | cw-db/src/main/java/edu/uob/Node.java:97-119 | A compound is INVALID exactly when a side is. AND is TRUE iff both sides are TRUE, OR iff either is, and an unknown operator is never TRUE. It is never NO_CONDITION. |
| ParseTree.FormedCompound | cw-db/src/main/java/edu/uob/Node.java:98-103 | A compound node has a left side, an operator leaf and a right side. |
| ParseTree.CompoundNestsRight | cw-db/src/main/java/edu/uob/SQLSimpGrammar.java:125-128 | A compound condition is a simple or bracketed condition, an operator and a whole condition, so conditions nest to the right with no AND/OR precedence. |
| ParseTree.ChildResults | cw-db/src/main/java/edu/uob/Node.java:123-132 | There is one outcome per child. |
| ParseTree.NoConditionWithoutConditions | cw-db/src/main/java/edu/uob/Node.java:82-133 | A tree with no simple or compound condition gives NO_CONDITION for every row. |
| ParseTree.ReservedWordsSpec | cw-db/src/main/java/edu/uob/Node.java:191-213 | The check fails exactly when the first TABLE_NAME, the first DB_NAME or any ATTRIBUTE, upper-cased, is reserved. A JOIN's second table name is not looked at. |
| ParseTree.TaggedTexts | cw-db/src/main/java/edu/uob/Node.java:164-188 | A text is collected exactly when some leaf with that tag holds it. |
| ConditionResults.GetVal | cw-db/src/main/java/edu/uob/ConditionResult.java:4-17 | The ranks are NO_CONDITION 0, TRUE 1, FALSE 2, INVALID 3, each in both directions. |
| ConditionResults.GetValInjective | cw-db/src/main/java/edu/uob/ConditionResult.java:4-7 | Equal ranks mean equal values, so the rank is a strict total order. |
| ConditionResults.Higher | cw-db/src/main/java/edu/uob/Node.java:127-129 | One aggregation step keeps whichever of the two values has the higher rank. |
| ConditionResults.MaxOfIsMaximum | cw-db/src/main/java/edu/uob/Node.java:124-132 | The aggregate is NO_CONDITION or one of the inputs, and no input ranks higher. |
| ConditionResults.MaxOfInvalid | cw-db/src/main/java/edu/uob/ConditionResult.java:4-7 | The aggregate is INVALID exactly when an input is: INVALID is the maximum. |
| ConditionResults.MaxOfAllNoCondition | cw-db/src/main/java/edu/uob/ConditionResult.java:4-7 | The aggregate is NO_CONDITION exactly when every input is: NO_CONDITION is the identity. |
| Tables.NewTable | cw-db/src/main/java/edu/uob/ArrListTable.java:13-21 | A new table keeps the table invariant and has no rows. |
| Tables.ColumnIndex | cw-db/src/main/java/edu/uob/ArrListTable.java:49-54 | The first column whose header equals the name ignoring case, or none when no header does. |
| Tables.AddColumnKeeps | cw-db/src/main/java/edu/uob/ArrListTable.java:31-47 | Refused, with no change, exactly on a case-insensitive duplicate. Otherwise the header is appended with one NULL per row, and nothing else changes. |
| Tables.WithAttributesKeeps | cw-db/src/main/java/edu/uob/ArrListTable.java:23-28 | The attribute constructor adds at most one column per name and changes only the columns. |
| Tables.AddHeaders | cw-db/src/main/java/edu/uob/ArrListTable.java:23-28 | Names that clash with nothing are appended in order, each as a header-only column. |
| Tables.RemoveColumnKeeps | cw-db/src/main/java/edu/uob/ArrListTable.java:57-70 | Refused, with no change, exactly for `id` in any case and for absent names. Otherwise exactly the first matching column is dropped, the others keep their order, and no header matches any more. |
| Tables.Row | cw-db/src/main/java/edu/uob/ArrListTable.java:123-131 | A row has one cell per column, taken from that column. |
| Tables.AppendRowKeeps | cw-db/src/main/java/edu/uob/ArrListTable.java:133-147 | Appending a row keeps the invariant, adds exactly that row and leaves the earlier rows alone. |
| Tables.AddRowKeeps | cw-db/src/main/java/edu/uob/ArrListTable.java:87-121 | The row is refused, with no change, on a wrong value count or a non-`int` id. A provided id goes in as given and the counter stays. An automatic id is the counter plus one, with wrap-around, and the counter moves to it. Earlier rows are unchanged. |
| Tables.AutoIdText | cw-db/src/main/java/edu/uob/ArrListTable.java:108-110 | The automatic id's cell text reads back as the id. |
| Tables.RemoveRowKeeps | cw-db/src/main/java/edu/uob/ArrListTable.java:315-328 | Row 0 is refused with no change. Otherwise that row leaves every column and the id list, and the other rows keep their order. |
| Tables.PickPositions | cw-db/src/main/java/edu/uob/ArrListTable.java:159-161 | Each marked element lands at the position given by the number of marks before it, and there are no others. |
| Tables.SelectKeeps | cw-db/src/main/java/edu/uob/ArrListTable.java:150-164 | The selection has the same headers and exactly the marked rows, in order, each with its id. |
| Tables.SelectPrefixStep | cw-db/src/main/java/edu/uob/ArrListTable.java:159-161 | Each loop step appends the row exactly when it is marked. |
| Tables.SelectPrefixZero | cw-db/src/main/java/edu/uob/ArrListTable.java:156 | The selection starts as the attribute constructor applied to the header row. |
| Tables.UpdateCells | cw-db/src/main/java/edu/uob/ArrListTable.java:167-181 | Every marked cell of a named column holds the value of the last pair naming that column, so later pairs win. Every other cell, every header and every id is unchanged. |
| Tables.RemoveStrLitQuotes | cw-db/src/main/java/edu/uob/ArrListTable.java:203-211 | Either the text is unchanged, or exactly one enclosing pair of quotes is removed from a text of length at least 2. |
| Tables.RemoveQuotesOfQuoted | cw-db/src/main/java/edu/uob/ArrListTable.java:203-211 | A quoted text loses exactly its outer quotes. |
| Tables.RemoveQuotesOfUnquoted | cw-db/src/main/java/edu/uob/ArrListTable.java:203-211 | A text shorter than 2, or not enclosed in quotes, is unchanged. |
| Tables.CompareStringsLaws | cw-db/src/main/java/edu/uob/ArrListTable.java:294-313 | `<=` holds iff `>` does not, `>=` iff `<` does not, and `!=` iff `==` does not. `>` is `<` swapped and `==` is symmetric. The result is TRUE or FALSE. |
| Tables.LikeExamples | cw-db/src/main/java/edu/uob/ArrListTable.java:307-310 | LIKE strips the quotes and tests containment case-sensitively, with the comparator in any case. |
| Tables.UnknownComparatorFalse | cw-db/src/main/java/edu/uob/ArrListTable.java:294-313 | A comparator that is none of the known ones gives FALSE. |
| Tables.EvaluateConditionCases | cw-db/src/main/java/edu/uob/ArrListTable.java:236-275 | The result is INVALID exactly when one side is numeric and the other is not, unless the comparator is LIKE. LIKE and two strings compare as strings. It is never NO_CONDITION. |
| Tables.ColumnTabs | cw-db/src/main/java/edu/uob/ArrListTable.java:214-234 | The tab count is at least 1. |
| Tables.ColumnTabsAlign | cw-db/src/main/java/edu/uob/ArrListTable.java:214-234 | A cell followed by its tabs ends at the tab stop just past the widest cell of its column. |
| Tables.LineShape | cw-db/src/main/java/edu/uob/ArrListTable.java:185-199 | A printed line is the cells before the last, each with its tabs, then the last cell with no tabs and a newline. A NULL cell, in any case, prints as nothing. |
| Tables.RenderLines | cw-db/src/main/java/edu/uob/ArrListTable.java:183-201 | Each step of the print loop appends the next row's line, starting from the header line. |
| ArrListTables.ArrListTable.constructor | cw-db/src/main/java/edu/uob/ArrListTable.java:13-21 | A new table is `NewTable(name)`. |
| ArrListTables.ArrListTable.FromAttributes | cw-db/src/main/java/edu/uob/ArrListTable.java:23-28 | The table is `WithAttributes` of a new table. |
| ArrListTables.ArrListTable.FindColumn | cw-db/src/main/java/edu/uob/ArrListTable.java:49-54 | The loop finds `ColumnIndex`. |
| ArrListTables.ArrListTable.GetColumn | cw-db/src/main/java/edu/uob/ArrListTable.java:49-54 | A column exists exactly when the attribute does, and it is the first matching one. |
| ArrListTables.ArrListTable.CheckAttributeExists | cw-db/src/main/java/edu/uob/ArrListTable.java:82-84 | The result is exactly `AttributeExists`. |
| ArrListTables.ArrListTable.AddColumn | cw-db/src/main/java/edu/uob/ArrListTable.java:31-47 | The new table and the flag are `AddColumnSpec` of the old table. |
| ArrListTables.ArrListTable.RemoveColumn | cw-db/src/main/java/edu/uob/ArrListTable.java:57-70 | The new table and the flag are `RemoveColumnSpec` of the old table. |
| ArrListTables.ArrListTable.AddRow | cw-db/src/main/java/edu/uob/ArrListTable.java:87-121 | The new table and the flag are `AddRowSpec` of the old table. |
| ArrListTables.ArrListTable.GetRow | cw-db/src/main/java/edu/uob/ArrListTable.java:123-131 | The loop returns `Row(Value(), rowNum)`. |
| ArrListTables.ArrListTable.CopyRow | cw-db/src/main/java/edu/uob/ArrListTable.java:133-147 | The copy succeeds exactly when the column counts agree, and appends the row with its id. Otherwise the target is unchanged. |
| ArrListTables.ArrListTable.SelectRows | cw-db/src/main/java/edu/uob/ArrListTable.java:150-164 | Null exactly on a mask of the wrong length. Otherwise a fresh table equal to `SelectSpec`. |
| ArrListTables.ArrListTable.UpdateTable | cw-db/src/main/java/edu/uob/ArrListTable.java:167-181 | False, with no change, exactly on a mask of the wrong length. Otherwise the table becomes `UpdateSpec`. |
| ArrListTables.ArrListTable.SetMarkedRows | cw-db/src/main/java/edu/uob/ArrListTable.java:175-177 | The inner loop gives `UpdatePair`. |
| ArrListTables.ArrListTable.PrintTable | cw-db/src/main/java/edu/uob/ArrListTable.java:183-201 | The nested loops give `Render(Value())`. |
| ArrListTables.ArrListTable.PrintRow | cw-db/src/main/java/edu/uob/ArrListTable.java:186-197 | The column loop gives one printed line. |
| ArrListTables.ArrListTable.GetColumnTabs | cw-db/src/main/java/edu/uob/ArrListTable.java:214-234 | The width loop returns `ColumnTabs`. |
| ArrListTables.ArrListTable.RemoveRow | cw-db/src/main/java/edu/uob/ArrListTable.java:315-328 | The new table and the flag are `RemoveRowSpec` of the old table. |
| TableHandlers.TablePath | cw-db/src/main/java/edu/uob/TableHandler.java:136-139 | The path is `parent/db/name.tab`, with `null` for a missing database. |
| TableHandlers.IdFile | cw-db/src/main/java/edu/uob/TableHandler.java:170-171 | The counter file is `name_ID.tab`. |
| TableHandlers.Lines | cw-db/src/main/java/edu/uob/TableHandler.java:106-117 | The file has one line per row, header first, each line its cells in column order joined by tabs. |
| TableHandlers.ReadLinesJoin | cw-db/src/main/java/edu/uob/TableHandler.java:57-76 | Non-empty lines without breaks, joined by `\n`, are read back one by one. |
| TableHandlers.ReplayRows | cw-db/src/main/java/edu/uob/TableHandler.java:60-76 | Replaying later lines as rows with provided ids keeps the table invariant. A refused row is skipped. |
| TableHandlers.LoadSpec | cw-db/src/main/java/edu/uob/TableHandler.java:46-86 | A loaded table always keeps the table invariant. |
| TableHandlers.SaveLoadRoundTrip | cw-db/src/main/java/edu/uob/TableHandler.java:46-127 | For a table with non-empty cells free of tabs and line breaks, loading what was saved gives back the same columns, rows, ids and counter. |
| TableHandlers.RowLinesSplit | cw-db/src/main/java/edu/uob/TableHandler.java:63 | Splitting a saved row line at tabs gives back the row. |
| TableHandlers.TableLoads | cw-db/src/main/java/edu/uob/TableHandler.java:60-76 | The lines of a storable table rebuild it, all but its counter. |
| TableHandlers.TableHandler.constructor | cw-db/src/main/java/edu/uob/TableHandler.java:22-26 | The handler starts with no database, no table and no path. |
| TableHandlers.TableHandler.ForTable | cw-db/src/main/java/edu/uob/TableHandler.java:28-32 | The handler points at the given database and table. |
| TableHandlers.TableHandler.SetTableName | cw-db/src/main/java/edu/uob/TableHandler.java:152-157 | Sets the name and the path `parent/db/name.tab`. |
| TableHandlers.TableHandler.SetDatabaseName | cw-db/src/main/java/edu/uob/TableHandler.java:159-167 | Sets the database and clears the table name, the path and the table in memory. |
| TableHandlers.TableHandler.CheckTableExists | cw-db/src/main/java/edu/uob/TableHandler.java:131-134 | True exactly when the table file is in the database's directory. |
| TableHandlers.TableHandler.DeleteTable | cw-db/src/main/java/edu/uob/TableHandler.java:143-146 | Deletes only the table file. It reports whether the file was there. |
| TableHandlers.TableHandler.SaveID | cw-db/src/main/java/edu/uob/TableHandler.java:169-191 | Writes the counter's decimal text to `name_ID.tab`. Fails with no change when the directory is missing. |
| TableHandlers.TableHandler.TableText | cw-db/src/main/java/edu/uob/TableHandler.java:106-117 | The save loops build `Serialize(t)`: the lines with `\n` between them and none after the last. |
| TableHandlers.TableHandler.SaveTable | cw-db/src/main/java/edu/uob/TableHandler.java:90-127 | Writes the table file, then the counter file. Both fail together when the directory is missing. |
| TableHandlers.TableHandler.LoadID | cw-db/src/main/java/edu/uob/TableHandler.java:193-214 | Reads the counter back as `LoadIdSpec`. A missing file fails, and bad text throws. |
| TableHandlers.TableHandler.LoadTable | cw-db/src/main/java/edu/uob/TableHandler.java:46-86 | Loads exactly as `LoadSpec` from the texts of the two files. |
| TableHandlers.TableHandler.BuildTable | cw-db/src/main/java/edu/uob/TableHandler.java:60-76 | The line loop builds `Replay(name, None, lines)`. |
| TableHandlers.TableHandler.CreateTable | cw-db/src/main/java/edu/uob/TableHandler.java:34-37 | The table in memory becomes a new table, and it is saved. |
| TableHandlers.TableHandler.CreateTableWith | cw-db/src/main/java/edu/uob/TableHandler.java:39-42 | The table in memory becomes the table of the attributes, and it is saved. |
| DatabaseHandlers.AfterLoad | cw-db/src/main/java/edu/uob/DatabaseHandler.java:113-127 | Loading keeps the disk and the database, and sets the table name. |
| DatabaseHandlers.DropDatabaseSpec | cw-db/src/main/java/edu/uob/DatabaseHandler.java:186-191 | A dropped database keeps the state sound. |
| DatabaseHandlers.Selection | cw-db/src/main/java/edu/uob/DatabaseHandler.java:432-445 | The mask has one entry per row, and row `i + 1` is marked exactly when its condition is TRUE. |
| DatabaseHandlers.Project | cw-db/src/main/java/edu/uob/DatabaseHandler.java:290-305 | There is a projection exactly when every name exists. It holds the named columns in order, with the same ids. |
| DatabaseHandlers.DeleteIsSelection | cw-db/src/main/java/edu/uob/DatabaseHandler.java:346-350 | Deleting the marked rows one by one, from the last, equals selecting the unmarked rows. |
| DatabaseHandlers.DeleteKeepsUnmarked | cw-db/src/main/java/edu/uob/DatabaseHandler.java:340-353 | After the delete, exactly the unmarked rows remain, in order and with their ids. The headers are unchanged. |
| DatabaseHandlers.Prefixed | cw-db/src/main/java/edu/uob/DatabaseHandler.java:420-428 | Every cell gets the prefix; the length is kept. |
| DatabaseHandlers.JoinedRow | cw-db/src/main/java/edu/uob/DatabaseHandler.java:411-430 | The joined row drops cell 0 of each row, so its length is len1 + len2 - 2. Each cell comes from the right row, prefixed by `table.` when `prependName` is set. |
| DatabaseHandlers.JoinPairsMembers | cw-db/src/main/java/edu/uob/DatabaseHandler.java:385-400 | A pair of row numbers is joined exactly when both are data rows and their join cells are equal. |
| DatabaseHandlers.JoinPairsOrdered | cw-db/src/main/java/edu/uob/DatabaseHandler.java:385-400 | The joined pairs come in r1-major order, outer table first. |
| DatabaseHandlers.AddRowsFit | cw-db/src/main/java/edu/uob/DatabaseHandler.java:393-397 | Rows added to an empty joined table get the fresh ids 1, 2, … in order, each row behind its id. |
| DatabaseHandlers.JoinFullRows | cw-db/src/main/java/edu/uob/DatabaseHandler.java:363-400 | When the joined headers do not collide, the joined table's rows are the joined pair rows, in pair order, with fresh ids 1, 2, ... |
| DatabaseHandlers.JoinFullCollides | cw-db/src/main/java/edu/uob/DatabaseHandler.java:363-400 | When two joined headers collide ignoring case, no row is added and the join is the header-only table. |
| DatabaseHandlers.JoinTable | cw-db/src/main/java/edu/uob/DatabaseHandler.java:401-407 | The printed join table, with the join columns dropped unless they are `id`, keeps the table invariant. |
| DatabaseHandlers.RefusedFirst | cw-db/src/main/java/edu/uob/DatabaseHandler.java:80-97 | More than 1000 tokens, a parse failure or a reserved name each give their error with no state change, in that order. Otherwise the command is dispatched. |
| DatabaseHandlers.DatabaseAndTableRequired | cw-db/src/main/java/edu/uob/DatabaseHandler.java:99-120 | Apart from USE, CREATE DATABASE and DROP DATABASE, a command with no database selected is refused. Apart from CREATE TABLE, a command on a missing table file is refused. Both refusals leave the state unchanged. |
| DatabaseHandlers.UseSelectsExisting | cw-db/src/main/java/edu/uob/DatabaseHandler.java:156-169 | USE succeeds exactly when the lower-cased directory exists. It then selects that database and forgets the table. Otherwise nothing changes. |
| DatabaseHandlers.CreateDatabaseAdds | cw-db/src/main/java/edu/uob/DatabaseHandler.java:171-184 | CREATE DATABASE succeeds exactly when the lower-cased directory is missing. It then adds it empty and selects it. |
| DatabaseHandlers.DropSelectedDatabase | cw-db/src/main/java/edu/uob/DatabaseHandler.java:52-77 | Dropping the selected database removes its directory and leaves no database, table name or table selected. |
| DatabaseHandlers.DropTableRemovesFile | cw-db/src/main/java/edu/uob/DatabaseHandler.java:213-222 | DROP TABLE removes only the table file. Dropping the current table forgets it. |
| DatabaseHandlers.AlterAddOutcome | cw-db/src/main/java/edu/uob/DatabaseHandler.java:224-252 | ADD, in any case, succeeds exactly when no column has the name and there are fewer than 100 columns. The new column is appended with that header. On any other answer nothing changes. |
| DatabaseHandlers.AlterDropOutcome | cw-db/src/main/java/edu/uob/DatabaseHandler.java:224-252 | Any keyword other than ADD (the grammar only admits DROP, in any case) drops. It succeeds exactly when the column exists and is not `id`. One column goes and the ids stay. On any other answer nothing changes. |
| DatabaseHandlers.InsertOutcome | cw-db/src/main/java/edu/uob/DatabaseHandler.java:254-269 | INSERT succeeds exactly when there are fewer than 1000 rows and one value per non-id column. The new row carries the next automatic id. |
| DatabaseHandlers.UpdateRefusesId | cw-db/src/main/java/edu/uob/DatabaseHandler.java:311-338 | A successful UPDATE never changes the `id` column or the ids. A refused one changes nothing. |
| DatabaseHandlers.UpdateIdOutcome | cw-db/src/main/java/edu/uob/DatabaseHandler.java:319-322 | UPDATE is refused, with no change, exactly when a name it sets is `id` in any case. |
| DatabaseHandlers.DeleteRemovesMarked | cw-db/src/main/java/edu/uob/DatabaseHandler.java:340-353 | DELETE keeps exactly the rows whose condition is not TRUE, in order. |
| DatabaseHandlers.ReadOnlyCommands | cw-db/src/main/java/edu/uob/DatabaseHandler.java:129-146 | SELECT and JOIN change neither the disk nor the selection nor the table in memory. |
| DatabaseHandlers.StoredReloads | cw-db/src/main/java/edu/uob/TableHandler.java:46-127 | A storable table saved into the selected database loads back as itself on the next command. Storable means every cell is non-empty and holds no tab or line break, and each id cell reads back as the row's id. |
| DatabaseHandlers.DatabaseHandler.constructor | cw-db/src/main/java/edu/uob/DatabaseHandler.java:20-26 | The handler starts with no database and no table. |
| DatabaseHandlers.DatabaseHandler.UpdateFilePath | cw-db/src/main/java/edu/uob/DatabaseHandler.java:29-36 | Selects the database and deselects the table. |
| DatabaseHandlers.DatabaseHandler.MakeDatabaseDir | cw-db/src/main/java/edu/uob/DatabaseHandler.java:43-50 | Selects the database and makes its directory when it is missing. |
| DatabaseHandlers.DatabaseHandler.DeleteDatabaseDir | cw-db/src/main/java/edu/uob/DatabaseHandler.java:52-77 | Deletes the directory with its files. Deleting the selected database deselects it. |
| DatabaseHandlers.DatabaseHandler.UseCommand | cw-db/src/main/java/edu/uob/DatabaseHandler.java:156-169 | The reply and the new state are `UseSpec`. |
| DatabaseHandlers.DatabaseHandler.CreateDatabaseCommand | cw-db/src/main/java/edu/uob/DatabaseHandler.java:171-184 | The reply and the new state are `CreateDatabaseSpec`. |
| DatabaseHandlers.DatabaseHandler.DropDatabaseCommand | cw-db/src/main/java/edu/uob/DatabaseHandler.java:186-191 | The reply and the new state are `DropDatabaseSpec`. |
| DatabaseHandlers.DatabaseHandler.CreateTableCommand | cw-db/src/main/java/edu/uob/DatabaseHandler.java:193-211 | The reply and the new state are `CreateTableSpec`. |
| DatabaseHandlers.DatabaseHandler.DropTableCommand | cw-db/src/main/java/edu/uob/DatabaseHandler.java:213-222 | The reply and the new state are `DropTableSpec`. |
| DatabaseHandlers.DatabaseHandler.AlterCommand | cw-db/src/main/java/edu/uob/DatabaseHandler.java:224-252 | The reply and the new state are `AlterSpec`. |
| DatabaseHandlers.DatabaseHandler.InsertCommand | cw-db/src/main/java/edu/uob/DatabaseHandler.java:254-269 | The reply and the new state are `InsertSpec`. |
| DatabaseHandlers.DatabaseHandler.GenerateSelection | cw-db/src/main/java/edu/uob/DatabaseHandler.java:432-445 | The array loop marks exactly the rows whose condition is TRUE: the array is `Selection`. |
| DatabaseHandlers.DatabaseHandler.SelectCommand | cw-db/src/main/java/edu/uob/DatabaseHandler.java:271-309 | The reply is `SelectCommandSpec`, and nothing changes. |
| DatabaseHandlers.DatabaseHandler.ProjectColumns | cw-db/src/main/java/edu/uob/DatabaseHandler.java:290-305 | The column loop gives `Project`. It is null exactly when some name has no column. |
| DatabaseHandlers.DatabaseHandler.UpdateCommand | cw-db/src/main/java/edu/uob/DatabaseHandler.java:311-338 | The reply and the new state are `UpdateCommandSpec`. |
| DatabaseHandlers.DatabaseHandler.DeleteCommand | cw-db/src/main/java/edu/uob/DatabaseHandler.java:340-353 | The reverse loop leaves the table `DeleteMarked(t, mask)` and saves it. |
| DatabaseHandlers.DatabaseHandler.PrependName | cw-db/src/main/java/edu/uob/DatabaseHandler.java:420-428 | The loop gives `Prefixed(name + ".", row)`. |
| DatabaseHandlers.DatabaseHandler.GetJoinedRow | cw-db/src/main/java/edu/uob/DatabaseHandler.java:411-430 | The method returns `JoinedRow`. |
| DatabaseHandlers.DatabaseHandler.JoinCommand | cw-db/src/main/java/edu/uob/DatabaseHandler.java:355-408 | The reply is `JoinSpec`, and nothing changes. |
| DatabaseHandlers.DatabaseHandler.LoadForJoin | cw-db/src/main/java/edu/uob/DatabaseHandler.java:363-372 | Each table is loaded by a handler of its own, as `LoadSpec` with no table in memory. |
| DatabaseHandlers.DatabaseHandler.BuildJoin | cw-db/src/main/java/edu/uob/DatabaseHandler.java:385-400 | The nested loops build `JoinFull`. |
| DatabaseHandlers.DatabaseHandler.JoinRow | cw-db/src/main/java/edu/uob/DatabaseHandler.java:390-399 | The inner loop adds the joined rows of the matches of one outer row. |
| DatabaseHandlers.DatabaseHandler.JoinText | cw-db/src/main/java/edu/uob/DatabaseHandler.java:385-407 | The printed text is `Render(JoinTable(...))`. |
| DatabaseHandlers.DatabaseHandler.RespondToCommand | cw-db/src/main/java/edu/uob/DatabaseHandler.java:80-154 | The reply and the new state are `RespondSpec`. |
| DatabaseHandlers.DatabaseHandler.DispatchCommand | cw-db/src/main/java/edu/uob/DatabaseHandler.java:99-127 | The reply and the new state are `DispatchSpec`. |
| DatabaseHandlers.DatabaseHandler.TableCommand | cw-db/src/main/java/edu/uob/DatabaseHandler.java:129-153 | The reply and the new state are `TableCommandSpec`. |

## Left out

- **The file system.**
  - It is modelled as a map from directory to file name to text.
  - Durability, crashes, permissions and I/O exceptions are not modelled.
  - Deleting the old file before a rewrite (`TableHandler.java:95`) is
    folded into the write.
  - The `File.separator` of the platform is taken to be `/`.
- **Floating point.** `Double.parseDouble` and `compareNumerics` are not
  modelled; `ArrListTable.java:242-257, 277-292` work with floating point
  and an epsilon. They are the parameters `isNumber` and `holds` of a
  `Numerics` value. Only the type-dispatch branch around them is modelled.
- **Unicode.** The Java regex engine and Unicode `isLetterOrDigit`,
  `toUpperCase` and `compareToIgnoreCase` are replaced by ASCII letters and
  digits. The regular expressions are replaced by hand-written predicates.
- **DBServer.** The network server is not part of this model.
- Tokeniser.CombineFromText: the text is proved to be kept only for token
  lists without `+`. With dropped `+` signs, the general statement is
  `CombineStep`'s per-step ensures.
- **Null leaves.** `getNumberOfLeaves` of a null node is 0. Trees are never
  null here, so that case does not arise.
- **Unmodelled files.** `TableStructure.java` contributes no behaviour.
  The test harness `ExampleDBTests.java` is only a source of the example
  lemmas.
- **Null dereferences.**
  - The grammar guarantees some leaves that the code dereferences, such as
    the table name, the database name and the fields of ALTER.
  - Where code still reads a missing one, the model answers `Throws`
    instead of a `NullPointerException`.
  - SELECT with a projected column that does not exist never gets that far,
    because of the attribute check.
- **ALTER with a missing column name.**
  - `DatabaseHandlers.AlterSpec` answers `Throws` when the alteration kind
    or the attribute leaf is missing.
  - The Java code fails only when the kind is missing. With the attribute
    missing, ADD would add a column whose header is saved as `null` and
    answer OK, and DROP would answer that the column does not exist.
  - Both leaves are always present in a parsed ALTER, because the ALTER
    sequence ends with the alteration kind and the attribute. So this case
    is unreachable from the dispatcher.
- ArrListTables.ArrListTable.UpdateTable: the Java code dereferences a null
  column when a named attribute does not exist and a row is marked. The
  method therefore requires every name to exist, or no row to be marked.
  The dispatcher always meets this because of its attribute check.
- DatabaseHandlers.JoinFull: the joined table is a table built from the
  joined header row with the attribute constructor. When two joined headers
  are equal ignoring case, as in a self-join with the same column names, the
  constructor skips the duplicate. The joined data rows then have the wrong
  width, and `addRow` refuses them.
  - The model follows this: `JoinFullCollides` states that no row is added.
  - The reply is the header only, as in Java.
- TableHandlers.TableHandler.LoadTable: an `IOException` while reading is
  not modelled.
  - A missing table file reports failure.
  - A counter file that is missing reports failure.
  - A counter file that is not a decimal `int` is modelled as an escaping
    exception (`Threw`).
