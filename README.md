# Panda: a verified model of the clox-style front end

Panda is a small C implementation of a bytecode interpreter in the style of
clox, plus a Python helper script. This project models its core in Dafny and
proves properties of that model:

- **Body stripper** (`main.py`, module `BodyStripper`): `remove_function_bodies`
  rewrites C text with one regular-expression substitution, replacing every
  `type name(params) { body }` by `type name(params) ;`. The pattern is defined
  declaratively (`PatternAt`) and by a deterministic matcher (`MatchAt`). The
  two are proved to agree. The rewriting scan (`Strip`) is proved to replace
  exactly the leftmost non-overlapping matches.
- **Lexer** (`scanner.c`, module `Lexer`): `ScanAt` specifies what one
  `scanToken` returns from a cursor position. The `Scanner` class does the
  same work step by step, like the C code, and each of its methods is proved
  against that specification. Lemmas cover the token classes, keywords, line
  counting and the end of input.
- **Values and chunks** (`value.c`, `chunk.c`, `memory.h`; modules `Values`,
  `Chunks`, `Memory`):
  - the tagged value and `valuesEqual`, with IEEE equality on doubles;
  - the growable value array and the bytecode chunk;
  - the growth policy of `GROW_CAPACITY`.
- **Hash table** (`table.c`, module `Tables`): an open-addressing table with
  linear probing and tombstones. The probe is a function on the slot
  sequence; `findEntry` and `tableFindString` are loops proved equal to it.
  The `Table` class keeps an abstract map. Every operation is proved to do the
  expected map update and to keep the probing invariant: keys unique, every
  key reachable from its home slot, at least one empty slot, and
  `count` = slots that are not empty.
- **Objects** (`object.c`, `object.h`; modules `ObjectTypes`, `Objects`):
  - 32-bit FNV-1a, with the C loop proved to compute it;
  - string interning: `copyString`/`takeString` return the only table string
    with the given bytes, and allocate one only when none exists;
  - the allocators.
- **Compiler** (`compiler.c`, module `Compiler`): the single-pass Pratt
  parser.
  - The rule table is a function, with lemmas on its shape.
  - The parser is a class whose methods update its fields and append to the
    chunk.
  - Error reporting is specified by `Report`: only the first error is
    printed, and panic mode silences the rest.
  - The `advance` loop is specified by `Scan`.
  - Every parsing method is proved, by the relation `Emitted`, to append
    well-formed bytecode with a known stack effect. `compile` therefore either
    fails with exactly one diagnostic, or emits code that runs from an empty
    stack back to an empty stack and ends in `OP_RETURN`.
  - `!=` has an infix rule but precedence none (`compiler.c:278`), so the
    loop of `parsePrecedence` (`compiler.c:328`) always stops before it
    (`BangEqualNeverInfix`). Every `!=` in the input therefore makes `compile`
    fail, as the next `consume` or prefix lookup reports at that token. For
    example, `1 != 2` reports `Expect end of expression.`, `(1 != 2)` reports
    `Expect ')' after expression.` and `!= 1` reports `Expect expression.`.

Notes where the sources disagree with each other:
- `value.h:9` declares `Value` as `double`, but `value.c` uses a tagged value
  (`value.type`, `AS_BOOL`, `AS_OBJ`). The model follows `value.c`.
- `chunk.h:40` declares `writeChunk` with a `line` argument. `chunk.c:21`, the
  definition, has none, so no line table is kept.
- `chunk.h:13-18` lists only `OP_CONSTANT` and `OP_RETURN`. The model adds the
  twelve opcodes that `compiler.c` emits, numbered after those two.
- `object.c` uses `OBJ_CLOSURE` and `isMarked`, which `object.h` lacks. The
  model has both.

## Model

| member | source | states |
|---|---|---|
| BodyStripper.MatchAt | main.py:10 | a match found at `i` starts at `i`, and its `{` comes before its end, which is inside the text |
| BodyStripper.MatchAtSound | main.py:10 | whatever the matcher returns is a match of the pattern |
| BodyStripper.MatchAtComplete | main.py:10 | every match of the pattern at `i` is the one the matcher returns, so the pattern matches in at most one way |
| BodyStripper.MatchAtNoneIff | main.py:10 | the matcher finds nothing exactly when the pattern has no match at `i` |
| BodyStripper.MatchShape | main.py:10 | a match begins with a word character at a word boundary, has no `)` inside its parentheses and no `}` inside its braces |
| BodyStripper.Span | main.py:10 | the greedy run of a character class from `i` ends inside the text |
| BodyStripper.SpanRun | main.py:10 | every character of the run is in the class, and the next character is not |
| BodyStripper.SpanIs | main.py:10 | a run of class characters followed by a non-class character is the greedy run |
| BodyStripper.HeaderSpans | main.py:10 | the type, the spaces, the name and the spaces before `(` of a match are greedy runs |
| BodyStripper.TailSpans | main.py:10 | the parameters, the spaces before `{` and the body of a match are greedy runs |
| BodyStripper.NoMatchCopies | main.py:13 | where the pattern matches nowhere from `i` on, the rewrite copies the rest of the text |
| BodyStripper.ScanMatchesSpans | main.py:13 | the matches the scan takes are in order and do not overlap |
| BodyStripper.StripFromSplicesScan | main.py:13 | the rewrite keeps each match's header, writes `;` for its body, and copies the text between matches |
| BodyStripper.SpliceTake | main.py:13 | splicing a match keeps the text up to its `{`, adds `;`, then continues after the match |
| BodyStripper.SpliceCopy | main.py:13 | splicing a position that is not a match copies that character |
| BodyStripper.SpliceCopyBefore | main.py:13 | a character copied before a match joins the text kept in front of that match |
| BodyStripper.ScanMatchesLeftmost | main.py:13 | the matches the scan takes are the leftmost, non-overlapping ones, as `re.sub` finds them |
| BodyStripper.LeftmostCons | main.py:13 | a match at `i` followed by the leftmost matches after it are the leftmost matches from `i` |
| BodyStripper.FirstStartsAgree | main.py:13 | two leftmost match lists from the same position agree on their first match |
| BodyStripper.LeftmostMatchesUnique | main.py:13 | the leftmost non-overlapping matches are unique |
| BodyStripper.StripIsSplice | main.py:13 | `re.sub` rewrites exactly the leftmost non-overlapping matches of the pattern |
| BodyStripper.SpliceLength | main.py:13 | each replaced match shortens the text by a positive amount |
| BodyStripper.LeftmostWide | main.py:13 | every match has at least one character between `{` and its end |
| BodyStripper.StripLength | main.py:13 | the result is never longer than the input; it is strictly shorter exactly when the pattern matches somewhere, and equal to the input when it matches nowhere |
| BodyStripper.MatchHasBraces | main.py:10 | every match contains a `{` and ends in `}` |
| BodyStripper.NoBraceUnchanged | main.py:13 | a text without `{` or without `}` is left unchanged |
| BodyStripper.NoOpenBraceCopies | main.py:13 | from a position with no `{` after it, the rest of the text is copied |
| BodyStripper.StripDefinition | main.py:3-13 | a single definition `type name(params) {body}` becomes `type name(params) ;` |
| BodyStripper.DefinitionMatch | main.py:10 | such a definition, after text ending in a non-word character and before any text, is a match of the pattern; the match keeps the text up to its `{` and resumes right after its `}` |
| BodyStripper.StripFromMatch | main.py:13 | where the pattern matches, the scan writes the header and `;` and resumes after the match |
| BodyStripper.StripFromCopy | main.py:13 | a character that is not a word character cannot start a match and is copied |
| BodyStripper.ExampleAdd | main.py:13 | `int add(int a, int b) { return a + b; }` becomes `int add(int a, int b) ;` |
| BodyStripper.SecondDefinitionStrip | main.py:13 | in the two-definition text, the scan from the second definition gives `int g(int y) ;` |
| BodyStripper.ExampleTwoFunctions | main.py:13 | `int f(int x) { return x; } int g(int y) { return y; }` becomes `int f(int x) ; int g(int y) ;` |
| BodyStripper.ExampleNestedBody | main.py:10-13 | with a nested block the body ends at its first `}`: `int f(int x) { if (x) { return 1; } return 0; }` becomes `int f(int x) ; return 0; }` |
| BodyStripper.StripIdempotentFlat | main.py:13 | when the output has no `{` left, stripping it again changes nothing |
| BodyStripper.StripFrom | main.py:13 | the scan of `re.sub` from a position never writes more than the rest of the text |
| BodyStripper.Strip | main.py:13 | `remove_function_bodies` on the text never makes it longer |
| Memory.GrowCapacity | memory.h:21 | the new capacity is larger than the old one, at least 8, and at most double the old one once that is past 8 |
| Memory.GrowFromEmpty | memory.h:21 | capacities grown from empty are 8 times a power of two |
| Memory.GrowArray | memory.h:26 | the reallocated buffer has the new capacity and starts with the old contents |
| Values.ValuesEqual | value.c:55-70 | values of different types are unequal; numbers compare as IEEE doubles; other values compare by tag and payload, objects by identity |
| Values.ValuesEqualSymmetric | value.c:55-70 | `valuesEqual` is symmetric |
| Values.ValuesEqualReflexive | value.c:55-70 | every value equals itself except a NaN |
| Values.ZerosEqual | value.c:63 | `+0.0` and `-0.0` are equal though their bits differ |
| Values.ValueArray.constructor | value.c:12-16 | a new array is empty, with capacity 0 |
| Values.ValueArray.Init | value.c:12-16 | `initValueArray` empties the array and drops the buffer |
| Values.ValueArray.Write | value.c:19-30 | the value is appended and earlier values are kept; a full buffer grows to `GROW_CAPACITY`, otherwise the buffer stays the same |
| Values.ValueArray.Free | value.c:32-35 | the array ends empty, with capacity 0 |
| Chunks.Decode | chunk.h:13-18 | decoding a byte gives an opcode that encodes back to that byte |
| Chunks.DecodeEncode | chunk.h:13-18 | every opcode decodes back from its byte |
| Chunks.Chunk.constructor | chunk.c:13-19 | a new chunk has no code, no capacity and an empty pool |
| Chunks.Chunk.Init | chunk.c:13-19 | `initChunk` leaves no code, no capacity and an empty pool |
| Chunks.Chunk.Write | chunk.c:21-31 | the byte is appended and earlier bytes and the pool are kept; a full buffer grows to `GROW_CAPACITY` |
| Chunks.Chunk.Free | chunk.c:33-38 | the chunk ends with no code and an empty pool |
| Chunks.Chunk.AddConstant | chunk.c:40-43 | the value is appended to the pool, its index is returned, and the code is unchanged |
| ObjectTypes.ObjString.Length | object.h:60-66 | the length of a string is the number of its bytes |
| ObjectTypes.ObjString.constructor | object.c:29-34 | a string holds the given bytes and hash and is not marked |
| ObjectTypes.ObjFunction.constructor | object.c:57-66 | a new function has arity 0, no upvalues, no name and an empty chunk |
| ObjectTypes.ObjNative.constructor | object.c:68-72 | a native wraps the given host function |
| Objects.FnvSnoc | object.c:77-80 | hashing one more byte xors it into the hash and multiplies by the FNV prime, modulo 2^32 |
| Objects.FnvFoldFrom | object.c:75-82 | folding the rest of a string onto the hash of its prefix gives the hash of the whole |
| Objects.FnvFoldIsFnv1a | object.c:75-82 | the left-to-right loop from the offset basis is FNV-1a |
| Objects.FnvVectors | object.c:76 | the empty string hashes to `0x811c9dc5` and "a" to `0xe40c292c` |
| Objects.HashString | object.c:75-82 | the loop returns the FNV-1a hash of the bytes |
| Objects.Vm.constructor | object.c:17-27 | a new VM has no objects and an empty, interning string table |
| Objects.Vm.AllocateObject | object.c:17-27 | the new object is put at the head of the object list; the string table is unchanged and the VM stays consistent |
| Objects.Vm.AllocateString | object.c:29-40 | a fresh string with the bytes and hash is put at the head of the list and entered in the table with value nil; the table keeps interning |
| Objects.Vm.CopyString | object.c:84-93 | the result is the only table string with these bytes, hashed by FNV-1a; an interned one is returned unchanged, otherwise exactly one new string is allocated and interned |
| Objects.Vm.TakeString | object.c:133-142 | the same as `copyString`, for the first `length` bytes of a caller's buffer |
| Objects.Vm.NewFunction | object.c:57-66 | a fresh function with arity 0, no name and an empty chunk, linked into the object list; the string table is unchanged and the VM stays consistent |
| Objects.Vm.NewNative | object.c:68-72 | a fresh native wrapping the host function, linked into the object list; the string table is unchanged and the VM stays consistent |
| Tables.Start | table.c:32 | the home slot `hash % capacity` is a slot of the table |
| Tables.Next | table.c:53 | the probe moves to the next slot and wraps to 0 after the last |
| Tables.Dist | table.c:53 | the number of probe steps from the home slot to a slot, inverse to stepping |
| Tables.DistStep | table.c:53 | stepping `t` times from `s` and measuring the distance back gives `t` |
| Tables.CountUsed | table.c:95 | the number of non-empty slots is at most the capacity |
| Tables.CountLive | table.c:68-76 | the number of slots holding a key is at most the number of non-empty slots |
| Tables.FullPath | table.c:36-54 | a probe that has visited every slot without meeting an empty one means the table has no empty slot |
| Tables.ProbeEntry | table.c:29-55 | the probe ends on a slot of the table |
| Tables.FindSlot | table.c:29-55 | `findEntry` returns a slot of the table |
| Tables.ProbeEntryStops | table.c:36-54 | the probe returns the key's slot if the key is on the probe path; otherwise the first keyless slot on the path: the first tombstone passed, or the empty slot that ends the path when it passed none |
| Tables.FindSlotSpec | table.c:29-55 | in a valid table, `findEntry` returns the key's slot when the key is present; otherwise the first tombstone on the key's probe path, or the empty slot ending it when there is no tombstone before it |
| Tables.ProbeStringStops | table.c:118-131 | the string probe returns a key with matching bytes and hash, or null when no such key is on the path |
| Tables.FindStringSpec | table.c:113-132 | a non-null result is a key with these bytes and hash; null means no key has them |
| Tables.CountUpdate | table.c:95 | overwriting one slot changes the non-empty count by that slot alone |
| Tables.CountedEmpty | table.c:86 | a table with fewer non-empty slots than slots has an empty slot |
| Tables.CountZero | table.c:115 | a table with no non-empty slots has only empty slots |
| Tables.AllEmpty | table.c:62-66 | a table of empty slots counts no used and no live slots |
| Tables.EmptyTable | table.c:62-66 | a table of empty slots satisfies the invariant with count 0 and holds no key |
| Tables.Room | table.c:86-88 | a valid table with a slot has an empty slot |
| Tables.InContents | table.c:117-131 | every key stored in a slot is in the table's map with that slot's value |
| Tables.ZeroCount | table.c:115 | a table whose count is 0 holds no key |
| Tables.PathMono | table.c:97-98 | filling slots keeps every probe path used |
| Tables.WriteUnique | table.c:97-98 | writing a key into its own slot or into a keyless slot, when it is absent, keeps keys unique |
| Tables.WriteContents | table.c:97-98 | such a write updates the map at the key |
| Tables.WriteKeptKey | table.c:97-98 | such a write keeps every key that was present |
| Tables.WriteNewKey | table.c:97-98 | after such a write every key is the written one or was present, with the updated value |
| Tables.WriteReachable | table.c:97-98 | writing into a slot on the key's probe path keeps every key reachable |
| Tables.SetSlot | table.c:91-99 | below the load factor, writing at `findEntry`'s slot keeps the invariant, updates the map, counts a new slot only when it was empty, and finds the key new exactly when the slot is keyless |
| Tables.DeleteReachable | table.c:176-177 | a tombstone keeps every remaining key reachable |
| Tables.DeleteContents | table.c:176-177 | a tombstone removes exactly that slot's key from the map |
| Tables.DeleteSlot | table.c:167-179 | deleting a present key tombstones its slot, keeps the invariant and the count, and removes the key |
| Tables.ContentsSnoc | table.c:68-76 | the map of a prefix of the old slots grows one slot at a time |
| Tables.KeylessAtEnd | table.c:71 | a keyless slot adds nothing to the map |
| Tables.WriteAtEnd | table.c:72-74 | a slot with a new key adds that key to the map |
| Tables.CountLiveSnoc | table.c:75 | the live count grows by one for each slot with a key |
| Tables.CountLivePrefix | table.c:68-76 | a prefix holds no more keys than the whole |
| Tables.NoTombstones | table.c:71 | a table without tombstones has no slot with a value but no key |
| Tables.GrowthRoom | table.c:86-88 | after growth the table has room for one more entry below the load factor |
| Tables.Rehash | table.c:68-76 | moving the next old key into the new slots keeps the invariant and gives the map of the prefix moved so far |
| Tables.FindEntry | table.c:29-55 | the probing loop returns the slot the probe function names |
| Tables.ProbeStrings | table.c:117-131 | the string-probing loop returns the key the probe function names |
| Tables.Table.constructor | table.c:16-20 | a new table is empty |
| Tables.Table.Init | table.c:16-20 | `initTable` empties the table |
| Tables.Table.Free | table.c:23-26 | `freeTable` leaves an empty table |
| Tables.Table.AdjustCapacity | table.c:58-81 | the new buffer has the new capacity and no tombstones; the count becomes the number of keys; the map is unchanged |
| Tables.Table.Set | table.c:84-100 | the map is updated at the key; the result is true exactly when the key was absent; the table grows to `GROW_CAPACITY` when the load factor would pass 3/4 |
| Tables.Table.Insert | table.c:91-99 | without growing, writes the key at `findEntry`'s slot and counts that slot only when it was empty |
| Tables.Table.Get | table.c:154-165 | found exactly when the key is in the map; the value is the key's value, or the caller's value untouched |
| Tables.Table.Delete | table.c:167-179 | deleted exactly when the key was present; the key leaves the map, its slot becomes a tombstone, and the count stays |
| Tables.Table.FindString | table.c:113-132 | returns a key with these bytes and hash, or null when none is in the table |
| Tables.Table.RemoveWhite | table.c:136-143 | exactly the marked keys stay, with their values, and the count stays |
| Tables.Table.RemoveIfWhite | table.c:138-141 | one slot is tombstoned when its key is unmarked, and left alone otherwise |
| Tables.Whiten | table.c:136-143 | whitening keeps the number of slots |
| Tables.WhitenStep | table.c:137-142 | whitening one more slot tombstones it when its key is unmarked |
| Tables.WhitenContents | table.c:136-143 | after whitening, the map holds exactly the marked keys, with their values |
| Tables.AddAll | table.c:103-110 | the target map becomes its old map overwritten by the source map; the source is unchanged |
| Lexer.CheckKeyword | scanner.c:118-125 | the result is the keyword exactly when the text has the keyword's length and its tail is the keyword's rest; otherwise `IDENTIFIER` |
| Lexer.IdentifierType | scanner.c:128-183 | the trie gives `IDENTIFIER` or one of the sixteen keyword types, and a keyword only to a text of 2 to 6 characters |
| Lexer.IsAlpha | scanner.c:24-28 | a letter or `_` is not a digit, an operator or a quote, so it starts only an identifier |
| Lexer.IsDigit | scanner.c:31-33 | a digit is not an operator or a quote, so it starts only a number |
| Lexer.TextFrom | compiler.c:223 | the text from a token's start pointer begins with the token's text and runs to the end of the input |
| Lexer.IdentifierTypeIsKeyword | scanner.c:128-183 | the keyword trie gives exactly the sixteen reserved words their token types and every other identifier `IDENTIFIER` |
| Lexer.KeywordOther | scanner.c:179-182 | words starting with any other letter are identifiers |
| Lexer.NotKeywords | scanner.c:118-125 | `andy`, `fo`, `f` and `classes` are identifiers |
| Lexer.RunToStops | scanner.c:106 | a comment, and likewise a string body (scanner.c:203-206), holds no stop character (newline, quote) and ends at one or at the end |
| Lexer.CommentStopsAtNewline | scanner.c:106 | a comment holds no newline and stops at one or at the end |
| Lexer.DigitsRun | scanner.c:193 | a digit run holds only digits and is followed by a non-digit |
| Lexer.IdentRun | scanner.c:187 | an identifier run holds letters, digits and `_` and is followed by none of them |
| Lexer.NewlinesAppend | scanner.c:99-101 | newlines are counted additively over concatenation |
| Lexer.NoNewlines | scanner.c:99-101 | text without a newline counts none |
| Lexer.NewlinesSplit | scanner.c:99-101 | the count over a range is the sum over its two parts |
| Lexer.SkipWs | scanner.c:88-115 | skipping blanks only moves the cursor forward |
| Lexer.SkipWsCountsLines | scanner.c:88-115 | the line advances by the number of newlines skipped |
| Lexer.SkipWsStops | scanner.c:88-115 | skipping stops at the end or at a character that is no blank, newline or `//` |
| Lexer.ScanAt | scanner.c:213-270 | a scan starts at or after the cursor and stays inside the source |
| Lexer.TokenAt | scanner.c:217-269 | the token starts where blank-skipping stopped |
| Lexer.ScanEof | scanner.c:219 | the token is `EOF` exactly when it starts at the end, and then scanning again gives `EOF` again; any other token consumes a character |
| Lexer.ScanLexeme | scanner.c:66-75 | a non-error token's text is the source between `start` and `current` |
| Lexer.ScanErrors | scanner.c:202-269 | an error token is either an unterminated string running to the end or one unexpected character; and every character that starts no token gives `Unexpected character.` and is consumed alone |
| Lexer.ScanTwoChar | scanner.c:253-264 | `!`, `=`, `<` and `>` take a following `=` exactly when there is one |
| Lexer.TwoCharKindsDiffer | scanner.c:253-264 | the two-character forms are different tokens from the one-character forms |
| Lexer.ScanIdentifier | scanner.c:186-189 | an identifier runs over letters, digits and `_`, and its type is the keyword lookup of its text |
| Lexer.ScanNumber | scanner.c:192-199 | a number is digits, then a fraction only when a digit follows the `.` |
| Lexer.StringScan | scanner.c:202-210 | the closing quote is the first quote after the opening one |
| Lexer.ScanString | scanner.c:202-210 | a string token runs from quote to quote with none between, and its newlines advance the line |
| Lexer.ScanUnterminatedString | scanner.c:207 | a string without a closing quote is the error token `Unterminated string.`, running to the end |
| Lexer.OtherTokenLines | scanner.c:217-269 | tokens other than strings contain no newline and keep the line |
| Lexer.ScanLine | scanner.c:213-270 | the token's line is the starting line plus the newlines consumed |
| Lexer.Scanner.constructor | scanner.c:16-20 | `initScanner` puts both cursors at the start, on line 1 |
| Lexer.Scanner.IsAtEnd | scanner.c:36-38 | at end exactly when the cursor is at the end of the source |
| Lexer.Scanner.Peek | scanner.c:47-49 | the character under the cursor, which is `'\0'` exactly at the end of the input |
| Lexer.Scanner.PeekNext | scanner.c:52-55 | the character after the cursor, or `'\0'` past the end |
| Lexer.Scanner.Advance | scanner.c:41-44 | returns the character at the cursor and moves the cursor by one |
| Lexer.Scanner.Match | scanner.c:58-63 | consumes the expected character exactly when it is next |
| Lexer.Scanner.MakeToken | scanner.c:66-75 | the token's text is the source from `start` to `current`, on the current line |
| Lexer.Scanner.ErrorToken | scanner.c:78-85 | an error token carries the message as its text, on the current line |
| Lexer.Scanner.SkipWhitespace | scanner.c:88-115 | the loop leaves the cursor and the line where `SkipWs` says |
| Lexer.Scanner.Identifier | scanner.c:186-189 | the loop stops at the end of the identifier run and returns its keyword type |
| Lexer.Scanner.Number | scanner.c:192-199 | the loop stops where `NumberEnd` says and returns a `NUMBER` token |
| Lexer.Scanner.String | scanner.c:202-210 | the loop counts the newlines of the body; at the end it returns the unterminated-string error, otherwise it consumes the closing quote and returns a `STRING` |
| Lexer.Scanner.ScanToken | scanner.c:213-270 | `scanToken` returns the token and leaves the cursor `ScanAt` specifies |
| Compiler.PrefixRules | compiler.c:253-315 | the prefix rules: `(` groups, `-` and `!` are unary, numbers and `false`/`nil`/`true` are literals, and nothing else has one |
| Compiler.InfixRules | compiler.c:253-315 | a token with a precedence has `binary` as its infix rule; the infix rules are exactly those of the ten binary operators |
| Compiler.GetRule | compiler.c:253-338 | no precedence in the table reaches `PREC_UNARY`, so `binary` can always go one level up; every entry with an infix function or a precedence has `binary` as its infix function |
| Compiler.EofRule | compiler.c:314 | `EOF` has no rule and no precedence |
| Compiler.BangEqualNeverInfix | compiler.c:278 | `!=` has an infix rule but precedence none, so the Pratt loop never takes it, whereas `==` is taken |
| Compiler.StackAfterAppend | compiler.c:113-121 | running appended code continues from the stack depth the first part leaves |
| Compiler.StackAfterShift | compiler.c:113-121 | code that runs from one depth runs from a deeper one, shifted |
| Compiler.StackAfterPool | compiler.c:129-136 | code valid for a smaller pool is valid for a larger one |
| Compiler.Extend | compiler.c:113-121 | two appended runs of code compose their stack effects |
| Compiler.OneByte | compiler.c:123-126 | a one-byte instruction pops and pushes its effect |
| Compiler.BinaryCodeStack | compiler.c:160-194 | each operator's bytes, including the two-byte forms of `!=`, `>=` and `<=`, pop two operands and push one |
| Compiler.Where | compiler.c:68-75 | the location is " at end" exactly for `EOF` and empty exactly for an error token |
| Compiler.ReportConsistent | compiler.c:63-79 | a report keeps the parser state consistent and sets `hadError`; the first report writes its one diagnostic |
| Compiler.ReportOnce | compiler.c:65 | a second report changes nothing: panic mode suppresses it |
| Compiler.ScanStops | compiler.c:96-100 | the `advance` loop stops at a token that is not an error; it keeps `previous` and moves the cursor forward |
| Compiler.ScanQuiet | compiler.c:96-100 | in panic mode the loop writes nothing |
| Compiler.ScanReports | compiler.c:96-100 | the loop reports only when the first token is an error token and the parser is not panicking, with that token's line and message |
| Compiler.Measure | compiler.c:92-101 | what is left to read |
| Compiler.ScanProgress | compiler.c:92-101 | `advance` keeps the state consistent, never keeps an error token, and consumes input unless at `EOF` |
| Compiler.Emitted | compiler.c:113-141 | (relation) bytes and constants only appended, error flag kept, and without an error the new bytes are well formed with the given stack effect |
| Compiler.EmittedChain | compiler.c:327-331 | two steps compose into one |
| Compiler.EmittedShift | compiler.c:158 | a step that pushes one value onto an empty stack pushes one onto any stack |
| Compiler.EmittedBytes | compiler.c:113-121 | appending bytes is a step with their stack effect |
| Compiler.EmittedKeep | compiler.c:214-218 | a step that appends no byte and no constant, such as the `consume` of `)`, keeps the one-value stack effect of the steps before it |
| Compiler.OperandThen | compiler.c:158-160 | an operand followed by bytes is a step with their combined stack effect |
| Compiler.Parser.constructor | compiler.c:354-358 | `compile` starts the parser with no error and not in panic mode |
| Compiler.Parser.ErrorAt | compiler.c:63-79 | the state becomes `Report` of the old one: nothing in panic mode, otherwise panic mode, one diagnostic with the token's line and location, and `hadError` |
| Compiler.Parser.Error | compiler.c:82-84 | reports at the previous token |
| Compiler.Parser.ErrorAtCurrent | compiler.c:87-89 | reports at the current token |
| Compiler.Parser.Advance | compiler.c:92-101 | `previous` takes the old current, and the state is what the scan-and-report loop `Scan` gives; the new current is never an error token, and the input left shrinks unless at `EOF` |
| Compiler.Parser.Consume | compiler.c:104-110 | on the expected token it advances; otherwise it reports the message at the current token |
| Compiler.Parser.EmitByte | compiler.c:113-115 | the byte is appended to the chunk and the pool is unchanged |
| Compiler.Parser.EmitBytes | compiler.c:118-121 | the two bytes are appended in order |
| Compiler.Parser.EmitReturn | compiler.c:123-126 | `OP_RETURN` is appended |
| Compiler.Parser.MakeConstant | compiler.c:129-136 | the value joins the pool; up to index 255 that index is returned, past it `Too many constants in one chunk.` is reported and 0 is returned; either way the index is in the pool |
| Compiler.Parser.EmitConstant | compiler.c:138-141 | `OP_CONSTANT` and the index are appended, the value joins the pool, and the step pushes one value |
| Compiler.Parser.Expression | compiler.c:149-151 | an expression pushes exactly one value, or an error is flagged |
| Compiler.Parser.CallRule | compiler.c:327-331 | calling a prefix rule pushes one value; calling an infix rule turns the left operand into one value |
| Compiler.Parser.ParsePrecedence | compiler.c:318-333 | parsing at a precedence pushes exactly one value, or an error is flagged; a first token without a prefix rule emits nothing and stops before the operator loop; without an error the look-ahead binds less tightly than `precedence` |
| Compiler.Parser.Prefix | compiler.c:320-327 | the result says whether the token has a prefix rule; without one, `Expect expression.` is reported at that token and nothing is emitted; otherwise its rule pushes one value |
| Compiler.Parser.Infix | compiler.c:329-331 | each turn of the loop consumes input and combines the operand on the stack into one value |
| Compiler.BinaryStep | compiler.c:155-195 | after the left operand, the right operand and the operator's bytes leave one value on the stack, and the code ends with those bytes |
| Compiler.Parser.Binary | compiler.c:155-195 | the right operand then the operator's bytes: two operands become one value, and the code ends with that operator's bytes; without an error the look-ahead binds no tighter than the operator, so an operator of the same level is left to the caller's loop and `a - b - c` groups to the left |
| Compiler.Parser.EmitOperator | compiler.c:160-194 | the operator switch appends `BinaryCode` of the operator |
| Compiler.Parser.Literal | compiler.c:198-212 | `false`, `nil` and `true` append `OP_FALSE`, `OP_NIL` and `OP_TRUE`, pushing one value |
| Compiler.Parser.Grouping | compiler.c:215-218 | a parenthesised expression pushes one value, or an error is flagged |
| Compiler.Parser.Number | compiler.c:221-226 | the number's value, as `strtod` reads from the token's start to the end of the input, joins the pool behind an `OP_CONSTANT` |
| Compiler.Parser.Unary | compiler.c:229-249 | the operand then `OP_NOT` for `!` or `OP_NEGATE` for `-`: one value in, one value out |
| Compiler.Parser.EndCompiler | compiler.c:341-348 | `OP_RETURN` is appended |
| Compiler.Parser.Finish | compiler.c:364-365 | after the expression, `consume` of the end and `OP_RETURN`: exactly that byte is appended, taking the one value off the stack |
| Compiler.Parser.CompileExpression | compiler.c:360-366 | the emitted code ends in `OP_RETURN` and, without an error, takes an empty stack back to empty |
| Compiler.Compile | compiler.c:352-367 | the result is true exactly when no diagnostic was written, and at most one is; code and pool are only appended to; the code ends in `OP_RETURN`; on success the new code is well formed and balanced on the stack |

## Left out

- `main.py` reads the file and writes it back, prints a message, and is called on `Complier.c` (main.py:5-6, 16-25). This I/O is not modelled. `Strip` is the transformation of the text.
- Python's `\w` and `\s` are Unicode-aware. The model uses their ASCII meaning: letters, digits and `_`; space, tab, newline, carriage return, vertical tab and form feed.
- `strtod` is C library code. It is a parameter of the parser, applied to the input from the number token's start to the end (`TextFrom`), as the C call receives only the start pointer. It may read past the token: `1e5` gives 100000, `0x1A` gives 26 and `1.e5` gives 100000, though the scanner ends the token before the `e`, `x` or `.`. Such inputs then fail to compile on the identifier or `.` that follows the token.
- The compiler's `fprintf(stderr, …)` lines become `Diagnostic` values appended to a list. Printing (`printValue`, `printObject`, `printFunction`) is not modelled.
- `DEBUG_PRINT_CODE` and `DEBUG_LOG_GC`, `debug.c`, `vm.c` and `main.c` are not part of this model. Neither is `Complier.c`, which is only the input of the script.
- `memory.c`'s `reallocate` is taken to succeed: the `exit(1)` on failed allocation is not modelled, and freed buffers are dropped rather than released.
- `markTable`, `markObject`, `markValue` and `collectGarbage` are not modelled. `isMarked` is a field that `tableRemoveWhite` reads.
- The `push`/`pop` around `tableSet` in `allocateString` only protect the string from the collector. They are left out.
- `newClosure` and `newUpvalue` are not modelled: `object.h` declares neither `ObjClosure` nor `ObjUpvalue`.
- Objects.Vm.TakeString: the buffer is a value, so freeing the caller's buffer when the string is already interned (object.c:138) is not modelled.
- Objects.Vm: the intrusive `next` links of object headers are modelled as a sequence `objects`, newest first.
- Objects.Vm: `vm.h` does not declare the `strings` table that `object.c` uses. The model gives the VM one.
- C `int` fields (counts, capacities, lengths, indices) are unbounded integers. Overflow past 2^31 is not modelled. Hashes and the FNV arithmetic are exact 32-bit values.
- The table's load-factor test `count + 1 > capacity * 0.75` is modelled as `4 * (count + 1) > 3 * capacity`. This is exact for every capacity a C `int` can hold.
- Tables.AddAll: requires the two tables to be different objects. Copying a table into itself is not covered.
- Tables.Table.Get: `tableGet` leaves `*value` untouched when the key is missing. The model takes that prior content as the parameter `prior`.
- Chunks.Chunk.Free: the model ends with an empty chunk. In C, `freeChunk` calls `initChunk` before `freeValueArray`, so the pool's buffer pointer is already cleared and that buffer leaks. The leak is not modelled.
- The parser's tokens start as a zero-initialised global, i.e. `TOKEN_LEFT_PAREN` at offset 0 on line 0. `compile` never reads them before the first `advance`.
- `Compiler.Parser.CallRule`, `Prefix`, `Infix`, `Operand`, `EmitOperator`, `Finish` and `CompileExpression` are not separate functions in `compiler.c`. They are the call through a rule's function pointer, the two halves of `parsePrecedence`, the `parsePrecedence` call of `binary` and `unary`, the `switch` of `binary`, the last two calls of `compile`, and the body of `compile` after set-up.
- Compiler.Compile: creates the scanner, which `initScanner` sets up in C as a global.
