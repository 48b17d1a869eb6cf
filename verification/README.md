# Verified models of the NuoDB driver algorithms

The NuoDB drivers mostly wrap a C++ client library.  This project models the places where a driver
computes something itself, and proves what they compute, in Dafny 4.11.

- **PDO (PHP).**  Preparing a statement rewrites each `:name` to `?` in one pass with two flags, and
  stores the position of each name.  The quoter doubles quotes.  `SqlScanner.dfy` defines what the
  rewriter means (split into tokens, then substitute), `SqlRewriter.dfy` the one-pass machine and the
  method over C buffers, `SqlQuoter.dfy` the quoter, `SqlTheorems.dfy` what holds of both together and
  of rewriting twice.
- **Perl portability header.**  `GrokNumber.dfy` (number texts, against a grammar), `GrokTexts.dfy` (what
  it says about a text, told by the characters alone), `GrokRadix.dfy`
  (binary, octal and hexadecimal), `PvEscape.dfy` (the escaping printer with its limit),
  `BoundedCopy.dfy` (`my_strlcpy`, `my_strlcat`), `Dependencies.dfy` (`rec_depend`).
- **ActiveRecord adapter (Ruby).**  `StatementPool.dfy` (the bounded pool that owns statements) and
  `IdentifierQuoting.dfy` (backtick quoting and its memo tables).
- **Node result.**  `ResultCursor.dfy`: a cursor that reads one row ahead and owns two row buffers.
- **.NET connection.**  `ConnectionString.dfy` (parser and printer) and `Connection.dfy` (transactions
  and what a command does to its connection).
- **Drupal insert.**  `InsertPlaceholders.dfy`: the two placeholder counters, read back with the PDO
  driver's own scanner.

`CStrings.dfy`, `Sequences.dfy`, `Splitting.dfy` and `Options.dfy` hold shared definitions.  Code that works in place is a
class or a method over arrays, proved against a function of its inputs; what the code is for is proved
of that function.  Beside the laws about whole texts and whole runs, each of these functions is pinned down
in terms of characters, printed numbers, addresses or operations alone, so that the laws cannot hold of a
different function.

Some properties one would expect are not met by the code for every input.  Each of these is stated with
the exact condition, in both directions, and with an input for which it fails:

- Rewriting a rewritten statement changes nothing exactly when no name is ended by a colon (`a::b` is
  the usual case that fails).
- The index stored for a name is the number the server gives its placeholder exactly when no earlier
  name is ended by a question mark, which is then copied but not counted.
- The quoter loses nothing exactly when only NULs follow the first NUL of the value.
- The 64-byte name buffer is never overrun exactly when every name has at most 62 characters, or 63
  where nothing but an open literal, or nothing at all, follows it.
- `grok_oct` reads the longest legal prefix exactly when no underscore in it is followed by a zero.
- `pv_pretty` with the first-character flag shows its ellipsis wrongly exactly for a one-byte input that
  fits.
- Assigning to a key of the statement pool loses a statement exactly when the key stays cached.
- Every row buffer of the Node result is freed exactly once exactly when no row was ever returned or
  `next` was never called behind the end.
- A .NET command runs its statement once exactly when it has parameters; without any it runs it twice.

`dafny verify dfyconfig.toml` checks the whole project.

## Model

| member | source | states |
|---|---|---|
| SqlTokens.TokensPartitionText | php_pdo/pdo_nuodb/nuodb_driver.c:405-449 | The tokens of a statement are a lossless cut of its text: put together they are the text. |
| SqlTokens.OutputLength | php_pdo/pdo_nuodb/nuodb_driver.c:407-449 | Conservation: output length plus the name characters removed is the input length. |
| SqlTokens.BindingsAreLastPositions | php_pdo/pdo_nuodb/nuodb_driver.c:437-445 | The table holds exactly the recorded names, each at the zero-based position of its last recorded occurrence. |
| SqlTokens.TokensConcat | php_pdo/pdo_nuodb/nuodb_driver.c:409-449 | Text behind a point outside literals and names is read as if it stood alone. |
| SqlRewriter.FlagMachineRefinesTokens | php_pdo/pdo_nuodb/nuodb_driver.c:405-449 | For every text the one-pass machine's output, name table and counter are those of the two-phase definition; its flags are down exactly when the tokens are settled; the name buffer is never overrun exactly when the names fit it. |
| SqlRewriter.WritesAtMostOnePerCharacter | php_pdo/pdo_nuodb/nuodb_driver.c:407-449 | After l characters at most l have been written, and what is written is never taken back. |
| SqlRewriter.TerminatorIsCopied | php_pdo/pdo_nuodb/nuodb_driver.c:409-449 | The NUL at the end is always copied and is no placeholder. |
| SqlRewriter.BufferSuffices | php_pdo/pdo_nuodb/nuodb_driver.c:376-376 | From any state outside names, no write goes behind the 64 bytes exactly when every name has at most 62 characters, or 63 where its terminator is never written. |
| SqlRewriter.LongNameOverruns | php_pdo/pdo_nuodb/nuodb_driver.c:427-437 | A name of 63 characters overruns the buffer when it ends, and not before. |
| SqlRewriter.RewriterState.Feed | php_pdo/pdo_nuodb/nuodb_driver.c:411-448 | One turn of the loop over the two buffers, the two flags, the counter and the table is one step of the machine and writes at most one character; it reports exactly the characters at which the name buffer would be overrun. |
| SqlRewriter.RewriterState.EndName | php_pdo/pdo_nuodb/nuodb_driver.c:437-445 | Ending a name stores the current index under the buffered name. |
| SqlRewriter.RewriteText | php_pdo/pdo_nuodb/nuodb_driver.c:405-449 | For every text: unless a name overruns its buffer, which is reported exactly then, a buffer of length plus one is filled with the substituted tokens and the table is updated as the tokens say. |
| SqlRewriter.PdoHandle.PrepareText | php_pdo/pdo_nuodb/nuodb_driver.c:372-449 | Statements over one MiB are refused with 01004 and change nothing else; otherwise a transaction is opened under auto-commit and, unless a name overruns its buffer, the terminated rewritten text and the new name table result. |
| SqlQuoter.HandleQuoter | php_pdo/pdo_nuodb/nuodb_driver.c:288-328 | For every value the counting and the copying loop agree: the buffer of the counted length plus one is filled exactly with the quoted value and a terminator. |
| SqlQuoter.CountQuotes | php_pdo/pdo_nuodb/nuodb_driver.c:305-307 | The counting loop counts the quotes in front of the terminator. |
| SqlQuoter.CopyChunks | php_pdo/pdo_nuodb/nuodb_driver.c:313-320 | The copying loop writes the doubled text up to the last quote and stays inside the buffer. |
| SqlQuoter.QuotedIsLossless | php_pdo/pdo_nuodb/nuodb_driver.c:288-328 | Taking off the outer quotes and undoubling gives the value back exactly when only NULs follow its first NUL. |
| SqlQuoter.TextBehindNulIsLost | php_pdo/pdo_nuodb/nuodb_driver.c:322-325 | A value for which it does not come back. |
| SqlTheorems.QuotedValueIsOpaque | php_pdo/pdo_nuodb/nuodb_driver.c:287-328 | For every value, and every prefix that leaves the machine outside literals and names: the rewritten whole is rewritten prefix, quoted value, rewritten suffix; the value adds no parameter; the suffix's indexes move by the prefix's placeholders. |
| SqlTheorems.QuotedIsLiterals | php_pdo/pdo_nuodb/nuodb_driver.c:409-449 | The scanner reads a quoted value as closed literals and copies it unchanged. |
| SqlTheorems.RewritingIsIdempotentExactly | php_pdo/pdo_nuodb/nuodb_driver.c:409-449 | A second pass leaves the text unchanged if and only if no name, empty ones included, is ended by a colon; then it records no names. |
| SqlTheorems.FixedPoints | php_pdo/pdo_nuodb/nuodb_driver.c:409-449 | A text is its own rewriting if and only if it has no named parameter. |
| SqlTheorems.CastIsRewrittenTwice | php_pdo/pdo_nuodb/nuodb_driver.c:409-449 | A statement whose second rewriting differs from the first. |
| SqlTheorems.StoredIndexIsServerPositionExactly | php_pdo/pdo_nuodb/nuodb_driver.c:419-444 | A stored index is the number of question marks outside literals in front of the name's own one if and only if no earlier name is ended by a question mark. |
| SqlTheorems.StoredIndexCanBeWrong | php_pdo/pdo_nuodb/nuodb_driver.c:419-444 | A statement where the stored index and the server's number differ. |
| SqlTheorems.SuffixIsRewrittenAlone | php_pdo/pdo_nuodb/nuodb_driver.c:409-449 | Behind a point outside literals and names any text is rewritten as if it stood alone, its parameters moved by the placeholders in front. |
| SqlTheorems.EmptyStatement | php_pdo/pdo_nuodb/nuodb_driver.c:405-409 | The empty statement stays empty and has no parameter. |
| SqlTheorems.PlainCharacterIsCopied | php_pdo/pdo_nuodb/nuodb_driver.c:448-448 | A character other than quote, colon and question mark is copied. |
| SqlTheorems.QuestionMarkIsCounted | php_pdo/pdo_nuodb/nuodb_driver.c:420-424 | A question mark is copied and takes one position. |
| SqlTheorems.LiteralIsCopied | php_pdo/pdo_nuodb/nuodb_driver.c:411-411 | A closed literal is copied, whatever stands in it. |
| SqlTheorems.OpenLiteralIsCopied | php_pdo/pdo_nuodb/nuodb_driver.c:411-411 | A literal that never closes is copied to the end and hides every parameter in it. |
| SqlTheorems.ParameterIsReplaced | php_pdo/pdo_nuodb/nuodb_driver.c:414-446 | A colon and letters, digits, `_` and `-` behind it, of any number, become one `?`; the name is stored at its position; the character that ends it is copied. |
| SqlTheorems.LastParameterIsReplaced | php_pdo/pdo_nuodb/nuodb_driver.c:409-446 | The same for a parameter at the end of the statement. |
| SqlTheorems.ParameterBeforeLiteral | php_pdo/pdo_nuodb/nuodb_driver.c:411-446 | A parameter directly in front of a closed literal is replaced and stored. |
| SqlTheorems.ParameterBeforeOpenLiteral | php_pdo/pdo_nuodb/nuodb_driver.c:411-446 | In front of a literal that never closes it is replaced but not stored. |
| Dependencies.RecDependIsReachability | perl_dbi/ppport.h:2992-3000 | On every finite graph, cycles included, the result is without repetition exactly the names reachable by one or more edges. |
| Dependencies.RecDepend | perl_dbi/ppport.h:2992-3000 | The recursion ends on every graph and returns no name twice. |
| Dependencies.FindsPathEnd | perl_dbi/ppport.h:2995-2999 | The end of every path that avoids the names already seen is found, also when the path comes back to its start. |
| GrokNumber.ParserDecidesTheGrammar | perl_dbi/ppport.h:6178-6366 | The texts the parser accepts are exactly the numerals of the grammar, and each text is at most one numeral. |
| GrokNumber.ParseReadsEveryNumeral | perl_dbi/ppport.h:6188-6359 | Printing any numeral and parsing gives it back. |
| GrokNumber.ParseAcceptsOnlyNumerals | perl_dbi/ppport.h:6188-6359 | What is accepted is a numeral that prints as the text. |
| GrokNumber.NumeralIsClassified | perl_dbi/ppport.h:6178-6366 | Whatever the scanner returns for a numeral of the grammar is that numeral's flags and stored value. |
| GrokNumber.RejectedExactly | perl_dbi/ppport.h:6178-6366 | No flags are returned exactly for texts that are neither a numeral of the grammar nor `0 but true`. |
| GrokTexts.FiniteTextIsRead | perl_dbi/ppport.h:6188-6359 | For blanks, sign, digits with or without radix and exponent, blanks: negative exactly with a minus sign, not an integer exactly with radix or exponent, in range or too large exactly without exponent and as the number printed in front of the radix says, which is stored when it is in range. |
| GrokTexts.WordTextIsRead | perl_dbi/ppport.h:6312-6337 | `inf`, `infinity` and `nan` in any case between blanks: infinity or not-a-number as the word says, the sign kept, never an integer, nothing stored. |
| GrokTexts.NothingElseIsRead | perl_dbi/ppport.h:6178-6366 | Flags are returned exactly for texts of these two shapes and for `0 but true`. |
| GrokTexts.ButTrueIsZero | perl_dbi/ppport.h:6360-6364 | `0 but true` is the integer zero. |
| GrokTexts.DigitsArePrinted | perl_dbi/ppport.h:6203-6245 | Every run of digits is zeros and the decimal printing of one number, so the statements above speak about every text. |
| GrokNumber.Grok | perl_dbi/ppport.h:6178-6366 | For every text: the flags of the numeral it is, the integer part stored if and only if it is at most the maximum, the text `0 but true` as zero, and no flags for anything else. |
| GrokNumber.TakeNine | perl_dbi/ppport.h:6204-6245 | Up to nine digits are taken without a test, and their value is exact and below 10^9. |
| GrokNumber.TakeWhole | perl_dbi/ppport.h:6203-6289 | All digits are consumed; too large is reported exactly when their value exceeds the maximum, otherwise the value is exact; the accumulator never exceeds the maximum. |
| GrokNumber.TakeLetters | perl_dbi/ppport.h:6312-6337 | Infinity and not-a-number in any case, with the sign kept. |
| GrokNumber.TakeExponent | perl_dbi/ppport.h:6338-6355 | An exponent letter needs digits behind it, otherwise the text is no number. |
| GrokNumber.ButTrueStartsWithZero | perl_dbi/ppport.h:6360-6364 | `0 but true` is no numeral, so only the last test accepts it. |
| GrokRadix.LongestLegalPrefix | perl_dbi/ppport.h:6419-6456 | The length computed is that of the longest legal prefix. |
| GrokRadix.OctalAgreesExactly | perl_dbi/ppport.h:6636-6642 | grok_oct agrees with the common underscore rule if and only if no underscore of the longest legal prefix is followed by a zero. |
| GrokRadix.OctalStopsAtUnderscoreZero | perl_dbi/ppport.h:6636-6642 | `1_0` is read as 1 by grok_oct. |
| GrokRadix.DigitsAreTheirPlaces | perl_dbi/ppport.h:6421-6422 | The digits of a base are the first ones of `0123456789abcdef`, in either case, with their places as values. |
| GrokRadix.NothingElseIsADigit | perl_dbi/ppport.h:6421-6422 | No other character is a digit. |
| GrokRadix.LegalExactly | perl_dbi/ppport.h:6419-6456 | A text is legal exactly when each character is a digit or an underscore, where allowed, in front of one. |
| GrokRadix.UnderscoreIsWorthNothing | perl_dbi/ppport.h:6446-6452 | Leaving out an underscore does not change the value. |
| GrokRadix.PrintedIsReadBack | perl_dbi/ppport.h:6391-6474 | Every number printed in its base, in either case, is consumed whole and returned, or the maximum with the exact value beside it. |
| GrokRadix.PrefixIsSkipped | perl_dbi/ppport.h:6403-6417 | In front of digits exactly the letter of the base, or a zero and the letter, is skipped, unless prefixes are disallowed. |
| GrokRadix.GuardIsExact | perl_dbi/ppport.h:6426-6430 | The guard admits a digit exactly when the new value fits, which is exactly when the machine shift loses no bit; then shift and bitwise or give the new value. |
| GrokRadix.OrAddsBelow | perl_dbi/ppport.h:6427-6427 | Bitwise or with a digit below the shifted bits is addition, for every shift and digit. |
| GrokRadix.ShiftLosesNothingExactly | perl_dbi/ppport.h:6426-6427 | A left shift inside a word of any size is undone by the right shift if and only if the exact product fits the word. |
| GrokRadix.AddDigit | perl_dbi/ppport.h:6425-6444 | The block behind `redo` keeps value, overflow flag and large value in step with the positional value of the digits. |
| GrokRadix.GrokBin | perl_dbi/ppport.h:6391-6474 | Length consumed, value or maximum, and too large exactly when the positional value of the legal prefix exceeds the maximum. |
| GrokRadix.GrokHex | perl_dbi/ppport.h:6493-6576 | The same in base 16, digits in either case. |
| GrokRadix.GrokOct | perl_dbi/ppport.h:6595-6669 | The same in base 8, without a prefix, under its own underscore rule. |
| PvEscape.EscapingIsLossless | perl_dbi/ppport.h:6885-6973 | Reading the escapes of the output for any n bytes (octal by longest match) gives exactly these bytes. |
| PvEscape.LimitCutsBetweenEscapes | perl_dbi/ppport.h:6911-6971 | Under a limit the output is a prefix of the full output cut between escapes, within the limit, reads back as the bytes written, and input is dropped exactly when the unlimited output (of one byte under the first-character flag) is too long. |
| PvEscape.WrittenIsUnique | perl_dbi/ppport.h:6911-6971 | Flags, input and limit determine how many bytes are written. |
| PvEscape.Escape | perl_dbi/ppport.h:6885-6973 | The loop appends exactly the escapes of the bytes the limit admits; `escaped` counts them, except that the first-character flag leaves it at zero. |
| PvEscape.Pretty | perl_dbi/ppport.h:6994-7027 | Quotes or angle brackets, colours and the escaped text in order, then the ellipsis. |
| PvEscape.EllipsisMeansDroppedExactly | perl_dbi/ppport.h:7023-7024 | The ellipsis appears when input was dropped and only then, if and only if it is not the case that the first-character flag is set and the single input byte was written. |
| PvEscape.EllipsisCanBeWrong | perl_dbi/ppport.h:7023-7024 | A one-byte input that is written whole and still gets the ellipsis. |
| PvEscape.OutputIsPrintable | perl_dbi/ppport.h:6929-6954 | Only printable characters are written. |
| PvEscape.LetteredEscapes | perl_dbi/ppport.h:6937-6941 | Tab, newline, vertical tab, form feed and return are written with their letters. |
| PvEscape.PrintableEscapes | perl_dbi/ppport.h:6929-6952 | The escape character is doubled, a delimiting double quote escaped, other printable characters are copied. |
| PvEscape.OctalEscapes | perl_dbi/ppport.h:6947-6950 | What is left is written in octal without leading zeros, or with three digits in front of a digit. |
| PvEscape.AllInHexadecimal | perl_dbi/ppport.h:6919-6925 | With the all flag every byte is written in hexadecimal, in braces unless it is alone. |
| PvEscape.NoBackslashCopies | perl_dbi/ppport.h:6926-6927 | Without escapes the bytes are copied. |
| PvEscape.HowMuchIsWritten | perl_dbi/ppport.h:6907-6971 | Without limit all bytes are written; with the first-character flag at most one. |
| PvEscape.DelimitersMatch | perl_dbi/ppport.h:7005-7021 | Quotes on both sides, or else angle brackets, or nothing. |
| PvEscape.QuotedOutputIsDelimited | perl_dbi/ppport.h:7005-7021 | With double quotes around it, the closing quote is the first that is not escaped. |
| BoundedCopy.Strlcpy | perl_dbi/ppport.h:6792-6804 | For size above zero the terminated text is what fits of the source; nothing at or behind size is written; the source length is returned. |
| BoundedCopy.Strlcat | perl_dbi/ppport.h:6762-6775 | What fits of old text and source, or the old text when it fills the size; the sum of both lengths is returned. |
| BoundedCopy.CopyThenAppend | perl_dbi/ppport.h:6762-6804 | Copy then append is one bounded copy of the concatenation; both results are below size exactly when nothing was lost. |
| BoundedCopy.CopyThenAppendIsOneCopy | perl_dbi/ppport.h:6762-6804 | Appending what fits to what fitted gives what fits of the whole. |
| PoolSpec.EveryRunOwnsItsStatements | ruby/activerecord-nuodb-adapter/lib/active_record/connection_adapters/nuodb_adapter.rb:168-221 | After every run of fetches, deletes and clears: the limit holds, every cached statement was prepared for its own key, and each statement the operations inserted is cached once or was passed to dealloc exactly once. |
| PoolSpec.ClearReleasesEverything | ruby/activerecord-nuodb-adapter/lib/active_record/connection_adapters/nuodb_adapter.rb:205-210 | After every run that ends in a clear the pool is empty and every statement ever inserted, and no other, has been released exactly once. |
| PoolSpec.PoolHoldsNewestKeys | ruby/activerecord-nuodb-adapter/lib/active_record/connection_adapters/nuodb_adapter.rb:189-194 | Without deletes the pool holds exactly the newest keys the operations inserted since the last clear, oldest first. |
| PoolSpec.PutConservesExactly | ruby/activerecord-nuodb-adapter/lib/active_record/connection_adapters/nuodb_adapter.rb:189-194 | An assignment loses no statement if and only if the key is not among the entries that stay. |
| PoolSpec.AssigningAgainLosesAStatement | ruby/activerecord-nuodb-adapter/lib/active_record/connection_adapters/nuodb_adapter.rb:189-194 | A pool with one entry that loses its statement when the same key is assigned again. |
| PoolSpec.FetchFindsItsKey | ruby/activerecord-nuodb-adapter/lib/active_record/connection_adapters/nuodb_adapter.rb:557-594 | After a fetch its key is cached, with the statement it had or the one just prepared. |
| PoolSpec.DeleteTakesItsKey | ruby/activerecord-nuodb-adapter/lib/active_record/connection_adapters/nuodb_adapter.rb:200-203 | Deleting takes its own key out. |
| PoolSpec.DeleteLeavesOthers | ruby/activerecord-nuodb-adapter/lib/active_record/connection_adapters/nuodb_adapter.rb:200-203 | Every other key keeps its statement. |
| StatementPool.Pool.MakeRoom | ruby/activerecord-nuodb-adapter/lib/active_record/connection_adapters/nuodb_adapter.rb:190-192 | The eviction loop releases exactly the oldest entries until one more fits; with a limit below one it releases all and fails. |
| StatementPool.Pool.Put | ruby/activerecord-nuodb-adapter/lib/active_record/connection_adapters/nuodb_adapter.rb:189-194 | The new state is eviction followed by the hash assignment. |
| StatementPool.Pool.Dealloc | ruby/activerecord-nuodb-adapter/lib/active_record/connection_adapters/nuodb_adapter.rb:218-220 | The statement is recorded as released and closed if the connection answers. |
| StatementPool.Pool.Remove | ruby/activerecord-nuodb-adapter/lib/active_record/connection_adapters/nuodb_adapter.rb:200-203 | Deletes a cached key and releases its statement; an unknown key is an error. |
| StatementPool.Pool.ReleaseAll | ruby/activerecord-nuodb-adapter/lib/active_record/connection_adapters/nuodb_adapter.rb:205-210 | The pool is empty, every statement it held has been released, in order, and is closed if the connection answers. |
| StatementPool.Pool.StatementFor | ruby/activerecord-nuodb-adapter/lib/active_record/connection_adapters/nuodb_adapter.rb:395-415 | The statement returned is for the key and not closed, cached or freshly prepared. |
| IdentifierQuoting.TableQuotesItsParts | ruby/activerecord-nuodb-adapter/lib/active_record/connection_adapters/nuodb_adapter.rb:505-511 | Quoting a table name is quoting the parts of its full dot-split and joining them with dots. |
| IdentifierQuoting.QuotedTableReadsBack | ruby/activerecord-nuodb-adapter/lib/active_record/connection_adapters/nuodb_adapter.rb:505-511 | Reading the backtick form gives the parts, and joining them gives the name, for every name. |
| IdentifierQuoting.QuotedColumnReadsBack | ruby/activerecord-nuodb-adapter/lib/active_record/connection_adapters/nuodb_adapter.rb:505-507 | A quoted column name reads back as one part. |
| IdentifierQuoting.QuotingIsInjective | ruby/activerecord-nuodb-adapter/lib/active_record/connection_adapters/nuodb_adapter.rb:509-511 | Different table names are quoted differently. |
| IdentifierQuoting.QuoteCache.QuoteColumnName | ruby/activerecord-nuodb-adapter/lib/active_record/connection_adapters/nuodb_adapter.rb:505-507 | The memo agrees with direct computation before and after. |
| IdentifierQuoting.QuoteCache.QuoteTableName | ruby/activerecord-nuodb-adapter/lib/active_record/connection_adapters/nuodb_adapter.rb:509-511 | The same for table names, whose computation may fill the other memo. |
| ResultCursor.ReadAll | nodejs/src/node_db_nuodb_result.cc:126-193 | A client that asks before it reads gets the result set's rows in order, each with its own lengths and number as it is read; one address was taken for each row and each value, and destruction has deleted every address taken, and no other, exactly once. |
| ResultCursor.FreedExactlyOnce | nodejs/src/node_db_nuodb_result.cc:130-193 | All buffers are freed exactly once if and only if no row was ever returned or next was never called behind the end. |
| ResultCursor.OwnedIds | nodejs/src/node_db_nuodb_result.cc:202-258 | In every state the buffers' addresses are distinct and are all the addresses taken so far. |
| ResultCursor.AskingBehindTheEndFreesTwice | nodejs/src/node_db_nuodb_result.cc:173-178 | One row and one call behind the end: what is freed at destruction is not each buffer once. |
| ResultCursor.RowsInUseAreAlive | nodejs/src/node_db_nuodb_result.cc:173-189 | In every state the row ahead has not been deleted, and the row last returned has not been deleted if and only if next was never called behind the end. |
| ResultCursor.AdvanceKeepsBalance | nodejs/src/node_db_nuodb_result.cc:173-189 | One advance keeps the account of buffers: the row before the previous one is freed, the row ahead becomes the previous one. |
| ResultCursor.Result.Query | nodejs/src/node_db_nuodb_result.cc:72-118 | The constructor reads the first row ahead. |
| ResultCursor.Result.Next | nodejs/src/node_db_nuodb_result.cc:173-189 | Returns the next row and reads one ahead, or counts one more call behind the end; the row returned is the one kept as previous row, and no part of it has been deleted. |
| ResultCursor.Result.ReadRow | nodejs/src/node_db_nuodb_result.cc:202-258 | A new buffer holds the row, its own address and those of its columns being all the addresses taken meanwhile, and the lengths array its lengths. |
| ResultCursor.Result.FreeRow | nodejs/src/node_db_nuodb_result.cc:159-167 | Deletes the buffer of every column, in order, each once, and then the row. |
| ResultCursor.Result.ColumnLengths | nodejs/src/node_db_nuodb_result.cc:191-193 | The lengths are those of the row last returned. |
| ResultCursor.Result.Index | nodejs/src/node_db_nuodb_result.cc:260-265 | The number returned is the place in the result set of the row last returned, whose bytes are those of that place; none before the first row. |
| ResultCursor.Result.Free | nodejs/src/node_db_nuodb_result.cc:130-150 | Destruction frees the previous row and the row ahead; then every address taken was deleted once if and only if no row was returned or next was never called behind the end. |
| ConnectionString.SettingsRoundTrip | dotnet/nuodb/connection.cpp:131-165 | Printing clean settings in any order that names every key, and parsing, gives them back without error. |
| ConnectionString.GoodItems | dotnet/nuodb/connection.cpp:143-163 | A segment is accepted if and only if it is one known key, one equals sign and one value that is not blank, after trimming. |
| ConnectionString.NoErrorMeansAllGood | dotnet/nuodb/connection.cpp:141-164 | Parsing succeeds exactly when every segment is accepted. |
| ConnectionString.LastOccurrenceWins | dotnet/nuodb/connection.cpp:154-161 | The last segment of a key decides its setting. |
| ConnectionString.FirstBadDecides | dotnet/nuodb/connection.cpp:141-164 | The first bad segment gives the error, and only the segments before it are assigned. |
| ConnectionString.ErrorsExactly | dotnet/nuodb/connection.cpp:145-163 | The key is named in the error exactly when both sides are there but the key is none of the four; every other bad segment is malformed. |
| ConnectionString.SpacesAroundAreIgnored | dotnet/nuodb/connection.cpp:148-149 | White space of any kind around key and value does not matter: `Database = x` reads like `Database=x`. |
| Connection.NuoDbConnection.SetConnectionString | dotnet/nuodb/connection.cpp:249-257 | The text is kept and parsed; an empty text changes nothing. |
| Connection.NuoDbConnection.ParseConnectionString | dotnet/nuodb/connection.cpp:131-165 | The first bad segment gives the error, and the segments before it have been assigned. |
| Connection.NuoDbConnection.OpenConnection | dotnet/nuodb/connection.cpp:167-244 | Opens once and only with all four settings; the new driver connection is in auto-commit. |
| Connection.NuoDbConnection.BeginTransaction | dotnet/nuodb/connection.cpp:281-310 | The three errors in order, otherwise the flag is set and auto-commit is off. |
| Connection.NuoDbConnection.CommitTransaction | dotnet/nuodb/connection.cpp:105-116 | Pending work becomes durable once, the transaction ends and auto-commit comes back; the heap takes the step of which CommitEndsTransaction speaks. |
| Connection.NuoDbConnection.RollbackTransaction | dotnet/nuodb/connection.cpp:118-129 | Pending work is dropped, the transaction ends and auto-commit comes back; the heap takes the step of which RollbackEndsTransaction speaks. |
| Connection.NuoDbConnection.Close | dotnet/nuodb/connection.cpp:329-337 | Rolls back and closes; closing a closed connection is an error. |
| Connection.NuoDbConnection.ChangeDatabase | dotnet/nuodb/connection.cpp:317-327 | Closes, changes the schema and opens again. |
| Connection.NuoDbConnection.ExecuteNonQuery | dotnet/nuodb/command.cpp:112-186 | The errors in order; otherwise the work runs on the connection, durable in auto-commit and pending inside a transaction. |
| ConnectionSpec.CommandRunsOnceExactly | dotnet/nuodb/command.cpp:141-173 | In every open state a command runs its statement once if and only if it has parameters. |
| ConnectionSpec.PlainCommandRunsTwice | dotnet/nuodb/command.cpp:141-148 | A command without parameters whose statement becomes durable twice. |
| ConnectionSpec.EveryRunStaysInStep | dotnet/nuodb/connection.cpp:105-129 | From every state in step, after every run, assignments of the connection string included: a transaction implies open, holds exactly when auto-commit is off, work is pending only inside one, and each begin is ended exactly once before the next. |
| ConnectionSpec.NewConnectionIsInStep | dotnet/nuodb/connection.cpp:37-47 | A new connection is in step exactly when no transaction is running in the server's record. |
| ConnectionSpec.DurableWorkGrows | dotnet/nuodb/connection.cpp:281-337 | In every state of a run only a statement outside a transaction and a commit add durable work, the commit exactly the pending work; closing, changing the database and assigning the connection string add none. |
| ConnectionSpec.CloseDropsPending | dotnet/nuodb/connection.cpp:329-337 | Closing an open connection succeeds, ends a transaction by one rollback and keeps durable work. |
| ConnectionSpec.TransactionIsAtomic | dotnet/nuodb/connection.cpp:105-129 | Whatever commands a transaction runs, a commit makes their whole work durable in order and a rollback none of it; nothing else remains. |
| ConnectionSpec.CommitEndsTransaction | dotnet/nuodb/connection.cpp:110-115 | In every state of a run with a transaction a commit ends it: pending work durable once, auto-commit back; a second commit changes nothing and a begin succeeds. |
| ConnectionSpec.RollbackEndsTransaction | dotnet/nuodb/connection.cpp:123-128 | The same for a rollback, which drops the pending work. |
| ConnectionSpec.NothingToEnd | dotnet/nuodb/connection.cpp:105-129 | Without a transaction both change nothing; on a closed connection they and closing fail. |
| ConnectionSpec.BeginsExactly | dotnet/nuodb/connection.cpp:293-310 | A transaction begins exactly on an open connection without one at the read-committed level; the errors in order. |
| ConnectionSpec.OpensExactly | dotnet/nuodb/connection.cpp:167-185 | Opening succeeds exactly on a closed connection with a text and all four settings, and changes nothing else. |
| ConnectionSpec.AssignThenOpen | dotnet/nuodb/connection.cpp:249-257 | Assigning a printed connection string and opening gives an open connection with exactly these settings. |
| ConnectionSpec.ChangesDatabaseExactly | dotnet/nuodb/connection.cpp:317-327 | Changing the database ends a transaction by a rollback, sets the schema to the given name and opens again exactly when the other settings are there; the errors in order. |
| ConnectionSpec.ExecutesExactly | dotnet/nuodb/command.cpp:112-186 | A command runs exactly on an open connection with a text; its work is durable outside and pending inside a transaction. |
| InsertPlaceholders.PrintedAreBound | drupal/nuodb/Insert.php:21-29 | For all rows and default fields the placeholders printed, read by the PDO scanner from left to right, are exactly the keys bound, in order, from zero without gap or repeat. |
| InsertPlaceholders.DriverIndexesAgree | drupal/nuodb/Insert.php:57-73 | The PDO driver stores for the i-th bound key exactly the position i behind the placeholders of the text in front of VALUES. |
| InsertPlaceholders.NamesAreDistinct | drupal/nuodb/Insert.php:26-26 | Placeholder names with different numbers differ. |
| InsertPlaceholders.Insert.BindValues | drupal/nuodb/Insert.php:21-29 | The binding loops bind the values of all rows, in order, under consecutive numbers. |
| InsertPlaceholders.Insert.ToString | drupal/nuodb/Insert.php:42-84 | The printing loops print one tuple for each row, or one of defaults when there are no rows. |
| InsertPlaceholders.Insert.Tuple | drupal/nuodb/Insert.php:61-72 | The loop prints the tuple of the default fields and the numbered placeholders. |
| InsertPlaceholders.TupleReadsBack | drupal/nuodb/Insert.php:61-72 | Split at its separators, a printed tuple has one `default` for each default field and then one consecutively numbered placeholder for each value. |
| InsertPlaceholders.ValuesReadBack | drupal/nuodb/Insert.php:57-81 | Read back, the text behind VALUES is one tuple for each row, its defaults and then its placeholders, the numbers going on from the rows before. |
| InsertPlaceholders.NoRowsAreDefaults | drupal/nuodb/Insert.php:75-79 | Without rows it is one tuple of defaults. |
| InsertPlaceholders.ValueMeetsItsSlot | drupal/nuodb/Insert.php:21-29 | For every row and value, the name printed in its slot is the one to which that value, and no other, is bound. |
| InsertPlaceholders.PlaceholderIsSpelled | drupal/nuodb/Insert.php:26-26 | A placeholder is spelled with the digits of its number. |
| InsertPlaceholders.Insert.Execute | drupal/nuodb/Insert.php:14-40 | The text and the values sent belong together, and the rows are forgotten afterwards. |

## Left out

- The NuoDB client library, the network, authentication and logging: foreign code.  A result set is a
  finite sequence of rows; a driver connection is an auto-commit flag with pending and durable work, and
  switching auto-commit on is taken to commit what is pending.
- SqlRewriter.RewriterState.Feed: where the C code writes behind the name buffer the model stops and
  says so; what the C code does from there on is undefined.
- SqlRewriter.PdoHandle.PrepareText: stops where the rewritten text is handed to the server; the handle
  that comes back, and its failure, are not part of this model.
- SqlQuoter.HandleQuoter: lengths are unbounded here, the C code computes them in `int`.
- GrokNumber.Grok: the radix is the point; a locale's radix is not modelled.  Blanks are the ASCII ones
  without the vertical tab.
- GrokRadix.AddDigit: the value of a number that is too large is kept as an exact real; rounding of the
  floating-point type is not modelled, nor are the warnings.
- PvEscape.Escape: byte input only; the Unicode branch and `pv_display` are not modelled.  Losslessness
  is claimed where escapes are written at all (not with the no-backslash flag) and delimited (not with
  the all and first-character flags together).
- ConnectionString.GoodItems: keys compare by their characters; culture-sensitive comparison also
  ignores some invisible characters.
- ResultCursor.ReadAll: no driver call throws; the buffers for lengths and column descriptions, which
  the constructor allocates and the destructor frees, are arrays of the language here.
- StatementPool.Pool.Put: one process; the outer hash by process id is not modelled.
- Connection.NuoDbConnection.OpenConnection: a driver that fails to connect is not modelled, nor are
  disposing and the transaction object, which never stores its connection.
- Connection.NuoDbConnection.ExecuteNonQuery: the statements a command runs do not fail, and its result
  is dropped; parameter types are not part of this model.
- InsertPlaceholders.Insert.ToString: comment, table name and field list are one given text.
- Fetching rows, type dispatch, parameter collections, schema statements, the other adapters, the demo
  applications and the build scripts: tables, templates and plumbing that would only add easy members.
