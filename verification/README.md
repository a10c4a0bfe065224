# Lexer and grammar toolkit, modelled in Dafny

This project models the core of a small compiler front end:

- the two string helpers every loader is built on: `tokenize`, a `getline`-style split, and `removeFromString`;
- the finite-automaton engine `FA`:
  - the `label:value` rule-file loader;
  - the character-range expander;
  - `checkIfConsistent`, which decides whether the automaton accepts a string;
- the separate-chaining hash table used as a positional symbol table;
- the scanner that turns program text into a Program Internal Form (PIF) and a symbol table;
- the grammar loader `readFromFile` and the validator `checkCFG`.

Everything is immutable data and pure functions. A few methods mirror the source's loops and are proved equal to the functional definitions.

Inputs that the source reads from files are parameters:

- a rule file is a `seq<string>` of lines;
- a program is a `string`;
- the grammar file is a `seq<string>` of lines.

`StringUtils.TokenizeTerminated` shows that splitting a newline-terminated text with `Tokenize` gives exactly those lines back.

Modules, one per file:

| file | module | source |
|---|---|---|
| wrappers.dfy | `Wrappers` | `Option` and `Result`, used for the error paths |
| tokenize.dfy | `StringUtils` | lab4/Tokenize.cpp |
| decimal.dfy | `Decimal` | `std::to_string` of an `int`, used by `insert(int)`, `display` and the error message |
| finite_automata.dfy | `FiniteAutomata` | lab4/FiniteAutomata.cpp |
| hashtable.dfy | `HashTable` | lab4/HashTable.cpp |
| scanner.dfy | `Scanner` | lab4/Scanner.cpp |
| grammar.dfy | `Grammar` | lab4/Grammar.cpp |

Modelling choices:

- **Characters.** A `char` stands for one byte of a `std::string`.
  - The automaton loader requires byte text, meaning every code is below 256.
  - `char` is signed, so in the hash a byte of 128 or above counts as its code minus 256. The code sum of such a key can be negative, and then the source indexes the table with a negative number.
- **Reversed ranges in `expand`.** `curr++` on a `char` wraps from 255 to 0, so a reversed range `z.a` runs to the top of the byte range and on from 0. `ByteRange` computes this explicitly, modulo 256.
- **Empty range part.** An empty part, as in `.a`, reads the terminating NUL of the empty string, so it is character 0.
- **Error messages.** The two format errors keep the source's two texts, including its `incorrent` spelling.
- **The alphabet.** It is an `unordered_map` from expanded strings to aliases.
  - It is modelled as a sequence in declaration order, where the first match wins.
  - `ClassOfDisjoint` shows that the order is irrelevant when the classes are disjoint.
  - `insert` does not overwrite, so an expanded string bound twice keeps its first alias.
- **Transitions.** They form a map from `(state, alias)` to a target. A missing entry and the empty target both mean "no move", which is what `transitions[s][a] != ""` tests.
- **Token codes.** `getTokenCode` falls off its end when no category applies. Here it returns `None`, and `processToken` raises the lexical error before that can happen.
- **Lookahead at end of text.** A failed `get` leaves the character unchanged, so a `<` or `>` that ends the text is read as `<<` or `>>`. A `<` followed by a newline swallows the newline, so the line counter does not move.
- **Grammar load result.** `readFromFile` returns the grammar together with the success flag. On failure the grammar holds what was read before the failing line, as the object does in the source.

## Model

| member | source | states |
|---|---|---|
| StringUtils.Tokenize | lab4/Tokenize.cpp:6-16 | no piece contains the delimiter; pieces hold only characters of the input; byte and 7-bit text stay so; no pieces exactly when the input is empty |
| StringUtils.JoinTokenize | lab4/Tokenize.cpp:6-16 | joining the pieces with the delimiter gives the input back, minus one trailing delimiter |
| StringUtils.TokenizeRoundTrip | lab4/Tokenize.cpp:6-16 | a non-empty input not ending in the delimiter is reproduced exactly by joining its pieces |
| StringUtils.TokenizeJoin | lab4/Tokenize.cpp:11-13 | delimiter-free pieces whose last one is non-empty are recovered by splitting their join, so consecutive delimiters give empty pieces |
| StringUtils.TokenizeTerminated | lab4/Tokenize.cpp:11-13 | lines each followed by the delimiter split back into exactly those lines, empty ones included, with no trailing empty piece |
| StringUtils.TokenizeCount | lab4/Tokenize.cpp:11-13 | the number of pieces is the number of delimiters, plus one when the text after the last delimiter is non-empty |
| StringUtils.RemoveFromString | lab4/Tokenize.cpp:18-22 | the removed character is absent; the length drops by its number of occurrences; every other character keeps its multiplicity |
| StringUtils.RemoveIsSubsequence | lab4/Tokenize.cpp:18-22 | the remaining characters keep their relative order |
| StringUtils.RemoveAbsent | lab4/Tokenize.cpp:18-22 | removing a character that does not occur changes nothing |
| StringUtils.RemoveIdempotent | lab4/Tokenize.cpp:18-22 | removing the same character twice equals removing it once |
| Decimal.NatToString | lab4/HashTable.cpp:36-39 | the decimal text is non-empty, all digits, 7-bit, with no leading zero |
| Decimal.IntToString | lab4/HashTable.cpp:36-39 | the decimal text of an integer is non-empty and 7-bit |
| Decimal.IntToStringRoundTrip | lab4/HashTable.cpp:36-39 | the decimal text of an integer reads back as that integer, so distinct integers give distinct keys |
| FiniteAutomata.ByteRange | lab4/FiniteAutomata.cpp:93-99 | the run from `a` to `b` has `(b - a) mod 256 + 1` characters and the k-th is `(a + k) mod 256` |
| FiniteAutomata.Expand | lab4/FiniteAutomata.cpp:82-108 | a non-empty atom without a dot is returned unchanged; a success is never empty; a failure carries one of the two format messages |
| FiniteAutomata.ExpandRange | lab4/FiniteAutomata.cpp:88-100 | `a.b` with `a <= b` expands to the consecutive characters `a` to `b`, `b - a + 1` of them |
| FiniteAutomata.ExpandDegenerate | lab4/FiniteAutomata.cpp:88-100 | `a.a` expands to `a` |
| FiniteAutomata.ExpandLongPart | lab4/FiniteAutomata.cpp:91-92 | a two-part atom with a part longer than one character is a format error |
| FiniteAutomata.ExpandTooManyParts | lab4/FiniteAutomata.cpp:102-107 | the empty atom and atoms with three or more parts are format errors |
| FiniteAutomata.InsertClass | lab4/FiniteAutomata.cpp:39-41 | an expanded string already bound keeps its first alias, a new one gets the alias, every other lookup is unchanged |
| FiniteAutomata.AddAtoms | lab4/FiniteAutomata.cpp:38-41 | the atoms fail exactly when some atom fails to expand; otherwise each expanded string is bound to its earlier alias if it had one, else to the entry's alias if some atom expands to it, else to nothing |
| FiniteAutomata.ClassAtoms | lab4/FiniteAutomata.cpp:36-38 | the atoms of a class hold no `[`, `]` or `\|`, and byte text stays byte text |
| FiniteAutomata.AddAlphabetEntry | lab4/FiniteAutomata.cpp:27-42 | an entry with no `=` changes nothing; otherwise it fails exactly when some atom of its bracket-stripped class fails, and binds exactly as `AddAtoms` does to the alias after `=`; it never rebinds a string already bound |
| FiniteAutomata.AddAlphabetEntries | lab4/FiniteAutomata.cpp:26-42 | the entries of an `alphabet` line fail exactly when some entry with an `=` holds a malformed atom; otherwise each expanded string keeps an earlier alias or gets the alias of the first entry producing it |
| FiniteAutomata.FirstEntryAliasSome | lab4/FiniteAutomata.cpp:27-42 | an expanded string gets an alias from the entries exactly when some entry produces it, and the alias is that of the first such entry |
| FiniteAutomata.TransitionSymbols | lab4/FiniteAutomata.cpp:70-72 | one symbol per `.` piece; `[` stripped from the first, `]` from the last, the middle ones unchanged; no symbol holds a dot |
| FiniteAutomata.AddTransition | lab4/FiniteAutomata.cpp:55-77 | an entry with no `=` or no `\|` changes nothing; otherwise every symbol leads from the first state to the second and every other entry is unchanged |
| FiniteAutomata.SetTargets | lab4/FiniteAutomata.cpp:74-76 | every listed symbol from the source state leads to the target, and every other entry is untouched |
| FiniteAutomata.AddTransitionsSnoc | lab4/FiniteAutomata.cpp:53-78 | entries apply in order, so a later entry overwrites an earlier one for the same state and symbol |
| FiniteAutomata.LoadLine | lab4/FiniteAutomata.cpp:10-78 | `states` and `final` lines are unioned in, an `initial` line replaces the initial state, a `transitions` line adds its entries in order; only an `alphabet` line changes the alphabet, keeping earlier bindings and binding each new expanded string to the alias of the first entry producing it; the line fails exactly when it is an `alphabet` line with a malformed entry; a line with no `:` changes nothing |
| FiniteAutomata.LoadLinesStates | lab4/FiniteAutomata.cpp:19-24 | a state or final state is in the result exactly when it was there before or some line declares it |
| FiniteAutomata.LoadLinesInitial | lab4/FiniteAutomata.cpp:44-46 | the initial state is the one the last `initial` line names, or the previous one when no line names one |
| FiniteAutomata.LoadLinesTransitions | lab4/FiniteAutomata.cpp:53-78 | the transitions are those of all `transitions` lines applied in file order, so the last entry for a state and symbol wins |
| FiniteAutomata.LoadLinesAlphabet | lab4/FiniteAutomata.cpp:25-43 | a load fails exactly when some `alphabet` line holds a malformed entry; otherwise each expanded string keeps its earlier alias or gets the alias of the first entry in the file that produces it |
| FiniteAutomata.Load | lab4/FiniteAutomata.cpp:5-80 | from the empty automaton: states and final states are exactly those some line declares, the transitions are all lines' entries in order, the load fails exactly when some `alphabet` line holds a malformed entry, and each class is bound to the alias of the first entry in the file producing it |
| FiniteAutomata.LoadLinesError | lab4/FiniteAutomata.cpp:25-43 | a load fails only because of some `alphabet` line |
| FiniteAutomata.ClassOfFirstMatch | lab4/FiniteAutomata.cpp:125-137 | a character has no class exactly when no class contains it; otherwise it gets the alias of the first class that contains it |
| FiniteAutomata.ClassOfDisjoint | lab4/FiniteAutomata.cpp:125-137 | for pairwise disjoint classes a character's alias is that of any class containing it, so the order of the table does not matter |
| FiniteAutomata.Step | lab4/FiniteAutomata.cpp:122-140 | a character in no class has no move; a move goes to a non-empty target that the first class containing the character maps to from the state |
| FiniteAutomata.Run | lab4/FiniteAutomata.cpp:121-143 | a completed run ends in the start state or a transition target, and every character read belongs to a class |
| FiniteAutomata.Accepts | lab4/FiniteAutomata.cpp:118-150 | acceptance needs a final state that is the initial one or a transition target, and every character of the input in some class |
| FiniteAutomata.RunAppend | lab4/FiniteAutomata.cpp:121-143 | running over `u + v` is running over `u` and then over `v` from where it stopped |
| FiniteAutomata.AcceptsEmpty | lab4/FiniteAutomata.cpp:146-149 | the empty input is accepted exactly when the initial state is final |
| FiniteAutomata.RejectUnclassified | lab4/FiniteAutomata.cpp:141-142 | an input with a character that belongs to no class is rejected |
| FiniteAutomata.BlockedRejects | lab4/FiniteAutomata.cpp:130-142 | an input is rejected when the first class of some character has no move from the state reached, whatever later classes allow |
| FiniteAutomata.AcceptsPath | lab4/FiniteAutomata.cpp:118-150 | a run to some state followed by a run from it to a final state makes the concatenation accepted |
| FiniteAutomata.CheckIfConsistent | lab4/FiniteAutomata.cpp:118-150 | the loop's answer is true exactly when the run from the initial state over the input ends in a final state |
| HashTable.New | lab4/HashTable.cpp:5-8 | a new table has the requested number of buckets, all empty |
| HashTable.Hash | lab4/HashTable.cpp:10-16 | the bucket is below the capacity, and equals the C++ remainder of the signed code sum whenever that sum is not negative |
| HashTable.HashFunction | lab4/HashTable.cpp:10-16 | the index is the truncating remainder of the sum of signed `char` codes; it equals `Hash` when the sum is not negative, is in `[0, capacity)` for 7-bit keys, and is negative only for keys with bytes of 128 or above |
| HashTable.CodeSumPermutation | lab4/HashTable.cpp:10-16 | keys that are rearrangements of one another have the same code sum and so share a bucket at every capacity |
| HashTable.Insert | lab4/HashTable.cpp:18-34 | the key is appended at the end of its bucket's chain, the bucket count is kept, and every other bucket is unchanged |
| HashTable.InsertAbsentThenSearch | lab4/HashTable.cpp:18-34 | after inserting an absent key it exists, at its bucket and the old chain length |
| HashTable.InsertPresentKeepsPosition | lab4/HashTable.cpp:18-34 | inserting a present key adds a duplicate and its position stays that of the first copy |
| HashTable.InsertKeepsOtherPositions | lab4/HashTable.cpp:26-32 | inserting never moves another stored key |
| HashTable.ConsecutiveOffsets | lab4/HashTable.cpp:26-32 | two distinct absent keys inserted into one bucket get consecutive offsets |
| HashTable.SearchElem | lab4/HashTable.cpp:67-81 | `(-1, -1)` exactly when the key is absent; otherwise its bucket and the offset of its first occurrence |
| HashTable.SearchChain | lab4/HashTable.cpp:67-81 | the chain walk returns the position `SearchElem` defines |
| HashTable.Exists | lab4/HashTable.cpp:84-98 | a key exists exactly when its search does not miss |
| HashTable.Remove | lab4/HashTable.cpp:41-65 | other buckets are untouched, an absent key leaves the table unchanged, and a present key loses only its first occurrence, the rest keeping their order |
| HashTable.RemoveUndoesInsert | lab4/HashTable.cpp:41-65 | removing a key just inserted while absent restores the table |
| HashTable.InsertInt | lab4/HashTable.cpp:36-39 | inserting a 32-bit integer stores its decimal text |
| HashTable.InsertIntRoundTrip | lab4/HashTable.cpp:36-39 | the stored text reads back as the integer and is found where insertion put it |
| HashTable.InsertAbsentWellFormed | lab4/Scanner.cpp:65-67 | insert-if-absent keeps every chain free of duplicates and every key in its own bucket |
| HashTable.WellFormedOnce | lab4/Scanner.cpp:64-70 | in a table built by insert-if-absent a key occurs at most once, and only in its own bucket |
| HashTable.Display | lab4/HashTable.cpp:100-115 | with keys free of line breaks, the dump splits into one line per bucket in index order, `Bucket i: ` then each key followed by ` <-> `, then `NULL` |
| Scanner.InitTokens | lab4/Scanner.cpp:14-32 | every code is a line number of the file, and every category is the one that line number selects |
| Scanner.InitTokensCovers | lab4/Scanner.cpp:14-32 | every line of the vocabulary file names a token, the text `\n` naming the newline |
| Scanner.InitTokensFirstLine | lab4/Scanner.cpp:14-32 | a token's code is the 1-based line of its first occurrence, and its category is the one of that line |
| Scanner.ClassifyByLine | lab4/Scanner.cpp:22-30 | a token first on line n is an operator iff n <= 11, a separator iff 12 <= n <= 22, a reserved word iff n >= 23, with code n |
| Scanner.IdentifierCharsClassified | lab4/Scanner.cpp:150-154 | every character of an identifier is in a class of the identifier automaton; the empty token is an identifier exactly when its initial state is final |
| Scanner.ConstantShape | lab4/Scanner.cpp:127-147 | a constant the integer automaton rejects starts with a sign, a digit, a quote, `t` or `f`; a quoted token without line breaks is a constant |
| Scanner.GetTokenCode | lab4/Scanner.cpp:39-50 | no code exactly when the token is not in the vocabulary, not an identifier and not a constant; a vocabulary token gets its own code; otherwise 37 exactly for identifiers and 38 exactly for non-identifier constants |
| Scanner.DisplayTextInjective | lab4/Scanner.cpp:90-102 | distinct tokens other than `TAB`, `SPACE` and `NEW_LINE` get distinct record texts, while `TAB`, `SPACE` and `NEW_LINE` collide with the whitespace they name |
| Scanner.Message | lab4/Scanner.cpp:82 | the message starts with `Line ` |
| Scanner.MessageNamesLine | lab4/Scanner.cpp:82 | the text up to the first `:` after `Line ` is the decimal line number and reads back as it, and the token follows `: ` before ` is lexically incorrect` |
| Scanner.NewLexer | lab4/Scanner.cpp:5-11 | construction succeeds exactly when both automaton files load, and the lexer holds what they load to |
| Scanner.ProcessToken | lab4/Scanner.cpp:53-88 | see below |
| Scanner.SymbolInsertion | lab4/Scanner.cpp:64-70 | insert-if-absent keeps the table well formed, stores the token and moves no stored key |
| Scanner.RepeatedSymbolSamePosition | lab4/Scanner.cpp:64-70 | a second occurrence of an identifier or constant gets the first one's position, leaves the table as it was, and the token is held once |
| Scanner.FirstIdentifierPosition | lab4/Scanner.cpp:64-70 | the first identifier goes to offset 0 of its bucket in an empty table, with code 37 |
| Scanner.Flush | lab4/Scanner.cpp:226-230 | an empty buffer flushes to the same state; otherwise the buffer is processed and emptied, the PIF only grows and no key moves; a failure reports the buffer, which no category accepts, on the current line |
| Scanner.FlushAndEmit | lab4/Scanner.cpp:200-205 | the buffer is flushed before the delimiting token, the PIF strictly grows and no key moves; a failure reports the buffer or the token, whichever no category accepts, on the current line |
| Scanner.ScanFrom | lab4/Scanner.cpp:191-237 | a successful scan keeps the table well formed, only appends to the PIF, never decreases the line and never moves a stored key; a failed scan reports a token no category accepts, on a line between the starting one and the starting one plus the newlines in the text |
| Scanner.Scan | lab4/Scanner.cpp:182-238 | the resulting symbol table has 100 buckets and holds each identifier and constant at most once; a lexical error names a token no category accepts and a 1-based line no greater than one plus the number of newlines |
| Scanner.ScanPositionsResolve | lab4/Scanner.cpp:64-79 | in the final table every PIF position is `(-1, -1)` or a valid slot whose key is the token the record names |
| Scanner.PendingBufferNotProcessed | lab4/Scanner.cpp:191-237 | text with no separator, `<` or `>` only fills the buffer, tabs dropped, so a final token still pending is never processed |
| Scanner.TabDropped | lab4/Scanner.cpp:192-194 | a tab is dropped without flushing anything |
| Scanner.BufferOne | lab4/Scanner.cpp:233-235 | any other non-delimiting character is appended to the buffer |
| Scanner.ShiftOperator | lab4/Scanner.cpp:197-206 | `<<` or `>>` flushes the buffer and is emitted as one token |
| Scanner.LoneAngleSwallowed | lab4/Scanner.cpp:197-219 | a `<` or `>` followed by any other character discards both |
| Scanner.TrailingAngleDoubled | lab4/Scanner.cpp:197-199 | a `<` or `>` that ends the text is emitted as `<<` or `>>` |
| Scanner.NewlineCountsBeforeFlush | lab4/Scanner.cpp:221-231 | the line counter advances before the flush, so a bad last token of line n is reported on line n + 1 |
| Scanner.SeparatorStep | lab4/Scanner.cpp:221-232 | a separator anywhere in the text advances the line counter if it is the newline, flushes the buffer, is emitted itself, and the scan continues with the rest; an error there ends the scan |
| Scanner.ScanIdentifierThenSeparator | lab4/Scanner.cpp:221-235 | `x;` scans to the identifier at offset 0 of its bucket with code 37, then `;` at `(-1, -1)` |
| Scanner.ScanShiftSingleRecord | lab4/Scanner.cpp:197-206 | `<<` registered as an operator scans to a single PIF record, not two `<` records |
| Grammar.SplitProduction | lab4/Grammar.cpp:16-26 | every word is non-empty and free of whitespace |
| Grammar.SplitKeepsContent | lab4/Grammar.cpp:16-26 | the words glued together are the text with its whitespace removed |
| Grammar.SplitJoin | lab4/Grammar.cpp:16-26 | non-empty, whitespace-free words joined with spaces split back into the same words, in order |
| Grammar.SplitNormalizes | lab4/Grammar.cpp:16-26 | whitespace before, between or after the words does not change the split |
| Grammar.FindArrow | lab4/Grammar.cpp:72 | the position of the first `->`, or the length of the line when there is none |
| Grammar.AddProduction | lab4/Grammar.cpp:87 | the alternative is appended after the existing ones of its left-hand side, starting from none, and other entries are unchanged |
| Grammar.StripTrailingSpace | lab4/Grammar.cpp:78-79 | a left-hand side written with its trailing space strips back to the symbol |
| Grammar.LoadFrom | lab4/Grammar.cpp:43-91 | productions exist only for declared non-terminals and hold non-empty space-free symbols; earlier alternatives stay in place; non-terminals are fixed after section 0 and terminals after section 1; the start symbol is kept or a non-terminal |
| Grammar.ReadFromFile | lab4/Grammar.cpp:28-95 | after any load every production belongs to a declared non-terminal, and the start symbol is the old one or a declared non-terminal |
| Grammar.CommentsIgnored | lab4/Grammar.cpp:44 | blank lines and `#` lines change nothing |
| Grammar.DeclarationSection | lab4/Grammar.cpp:44-58 | the non-terminal or terminal section declares exactly its non-comment lines in that section's set only; the closing `$` is not declared and moves reading to the next section |
| Grammar.LaterSectionsIgnored | lab4/Grammar.cpp:51-90 | past the productions section nothing is read and nothing fails |
| Grammar.UndeclaredStartFails | lab4/Grammar.cpp:60-67 | a start-symbol line naming no declared non-terminal stops the load with false |
| Grammar.MissingArrowFails | lab4/Grammar.cpp:72-76 | a production line without `->` stops the load with false |
| Grammar.UndeclaredLhsFails | lab4/Grammar.cpp:72-84 | a production whose left-hand side, spaces removed, is no declared non-terminal stops the load with false and the grammar read so far |
| Grammar.LoadStep | lab4/Grammar.cpp:43-90 | a line its section does not reject is read and the load continues in the section it leads to |
| Grammar.LoadFailureCause | lab4/Grammar.cpp:60-84 | a load returns false only at a line its section rejects: a start symbol that is not a non-terminal, or a production with no arrow or an undeclared left-hand side |
| Grammar.ProductionAppended | lab4/Grammar.cpp:70-88 | a line `A -> x y` for a declared `A` appends the alternative `[x, y]` to `A` and reading goes on |
| Grammar.FreshWithoutStartFails | lab4/Grammar.cpp:35-38 | the start symbol is not cleared: a fresh grammar read without any `$` keeps `""`, which no line can declare, and fails the check |
| Grammar.CheckCFG | lab4/Grammar.cpp:152-191 | true exactly when the start symbol is a non-terminal, every left-hand side is a non-terminal, every right-hand symbol is declared, and every non-terminal has an alternative |
| Grammar.LoadedCheck | lab4/Grammar.cpp:158-164 | after any load the left-hand-side check of `checkCFG` cannot fail, so a loaded grammar passes exactly when the start, right-hand-side and non-empty-alternatives checks hold |
| Grammar.UnusedNonTerminalFails | lab4/Grammar.cpp:181-188 | a non-terminal without productions makes the check fail |

`Scanner.ProcessToken` states the following.

- It fails exactly when `getTokenCode` finds no category. The error carries the current line and the token.
- On success it appends one record: the display text (tab, space and newline renamed `TAB`, `SPACE`, `NEW_LINE`), the position and the token's code.
  - A vocabulary token gets position `(-1, -1)` and leaves the table untouched.
  - An identifier or constant is inserted only if absent, and gets its position in the table.
- The line and the buffer do not change, the table stays well formed, and no stored key moves.

## Left out

- File and console I/O:
  - opening the rule, vocabulary, program and grammar files;
  - failure to open a file, including the `false` that `readFromFile` returns for a missing file;
  - `generatePIFFile` and `generateSTFile`;
  - the `display*` and `print*` members;
  - the message `remove` prints for a missing key;
  - the debug listing at the end of `initTokens`.

  Inputs are given as lines or text instead.
- The command-line drivers lab4/lab3.cpp, lab4/lab4.cpp and lab4/lab6.cpp. They only wire the pieces together.
- The `LexicalException` class. It is an error value, and `Scanner.Message` builds its text.
- `std::regex` matching in `isConstant`. It is replaced by predicates of the same meaning. In the string-literal pattern, `.` is taken to match any character but a line terminator (`\n`, `\r`).
- The unreachable regex code after the `return` in `isIdentifier`.
- Node pointers, `prev`/`next` links and leaked nodes. Each bucket is a sequence.
- The hash order of `unordered_map` for the alphabet. It is replaced by declaration order, with first match winning.
- The default-inserting side effect of `operator[]` on `transitions`, which `checkIfConsistent` performs. Lookups here are pure.
- Members declared without a body in the source: `computeFirst`, `computeFollow`, `printFirstSets`, `printFollowSets`, `addToSet`, `getTokenType`, `Scanner(std::ifstream)` and `FA::isInside`.
- The unused `isCFG` field of `Grammar`, and the `currentCharNumPerLine` column counter, which nothing reads.
- The empty transition symbol list, as in the entry `p|q==x`. The source indexes an empty vector, which is undefined behaviour; the model registers no transition for it.
- HashTable.Hash: a key whose signed code sum is negative makes the source index the table with a negative number, which is undefined behaviour. The model puts such a key in the bucket of the non-negative residue instead, and `Insert`, `SearchElem`, `Exists` and `Remove` follow it. `HashFunction` keeps the source's negative index.
- HashTable.Insert, HashTable.SearchElem: for a key whose signed code sum is negative they use the bucket `HashTable.Hash` picks, where the source is undefined.
- HashTable.HashFunction: does not model `int` overflow of the code sum, which needs keys of about 16 million characters.
- Scanner.Scan: requires 7-bit program text, because a token with bytes of 128 or above can have a negative code sum, where the source's table access is undefined.
- FiniteAutomata.Load: requires byte text. A `std::string` holds bytes only.
- HashTable.InsertInt: the argument is limited to the 32-bit `int` range.
