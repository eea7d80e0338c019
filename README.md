# Neo matrix parser, modelled in Dafny

Neo reads a system of linear equations from recognised text. The text is
cleaned up first (`GetDigits`), then turned into a coefficient matrix
(`Parser.ParseToMatrix`) and a right-hand-side vector
(`Parser.ParseToVector`). Both parsers split the text at spaces and at `;`,
the row separator. They work out the dimensions by counting delimiters.
They re-group the tokens with the list extensions `RemoveEvery` and
`AddEvery`, and fill an array by walking a cursor over the token list
(`AddToMatrix`, `AddToVector` and `Validate`). The static fields `Every`
and `Input` carry state from one call to the next.

The model follows the code as written, including behaviour that looks
unintended:

- The `Where(x => x != " " || x != "")` filter is always true, so it keeps
  every token (`Tokens.WhereKeepsAll`).
- Round i of `RemoveEvery` removes index `(every - 1) * i - 1` of the list
  as already shrunk. It succeeds only when `every >= 2` and the list reaches
  original index `every * rows - 2`. The tokens it drops are the ones at
  original indices `every * i - 2` (`ListExtension.RemoveEveryClosedForm`).
- `AddToVector` never advances its write index. Every token is parsed into
  entry 0, so the vector holds the last picked token's value followed by
  zeros (`Parsing.AddToVector`, `Parsing.Parser.ParseToVector`).
- With the inferred dimensions, `ParseToMatrix` throws unless there are at
  least two columns (`Parsing.MatrixTokensDefined`).

Modules:

- `Outcomes`: the .NET exceptions, `Result` and `Option`.
- `Seqs`: LINQ `Where` and `Count`.
- `EquationParser`: `GetDigits`.
- `Tokens`: `string.Split(' ', ';')`, the two `Where` predicates and the
  whitespace test.
- `ListExtension`: `RemoveEvery`, `AddEvery`, and a `TokenList` class
  standing for the `List<string>` that `RemoveAt` changes in place.
- `Parsing`: `Validate`, `AddToMatrix`, `AddToVector`, the dimension
  inference, and the class `Parser` with the fields `every` and `input`.

Modelling choices:

- Exceptions are `Err` values. `DivideByZero` is a text with no `;`.
  `Overflow` is a negative array dimension. `ArgumentOutOfRange` comes from
  the `List` indexer or `RemoveAt`. `IndexOutOfRange` is an array store.
  `Format` is a failed `double.Parse`.
- `double.Parse` is a parameter `parse: string -> Option<real>`, where
  `None` stands for a `FormatException`.
- C# evaluates `double.Parse` before it bounds-checks the array store, so a
  `Format` error takes precedence over `IndexOutOfRange`.
- `char.IsDigit` is taken as the ASCII digits. `char.IsWhiteSpace` is taken
  as the space and the controls tab to carriage return.
- `MatrixParser.SplitSymbol`, which `GetDigits` uses, is not part of this
  model. It is taken to be `;`, like `Parser.SplitSymbol`.

## Model

| member | source | states |
|---|---|---|
| EquationParser.Sanitized | Neo/Neo/Services/EquationParser.cs:25-44 | The text the loop builds: at most two characters per input character, and always of the canonical shape (only digits, `;` and spaces, each space right after a kept character). |
| EquationParser.IsDigit | Neo/Neo/Services/EquationParser.cs:29 | `char.IsDigit` over ASCII: a digit is never the row separator or a space. |
| EquationParser.GetDigits | Neo/Neo/Services/EquationParser.cs:22-47 | The output is `Sanitized(input)`: for each kept character (a digit or `;`) that character, plus one space when the next character exists and is not kept. |
| EquationParser.SanitizedShape | Neo/Neo/Services/EquationParser.cs:29-43 | Every output character is a digit, `;` or a space. Every space directly follows a kept character. The output never starts with a space and never holds two spaces in a row. |
| EquationParser.SanitizedDropSpaces | Neo/Neo/Services/EquationParser.cs:29-34 | Deleting the spaces from the output gives exactly the input's digits and `;`, in order. The number of `;` is unchanged. |
| EquationParser.SanitizedLength | Neo/Neo/Services/EquationParser.cs:33-43 | The output length is the number of kept characters plus the number of kept characters whose successor exists and is dropped. |
| EquationParser.SanitizedEmpty | Neo/Neo/Services/EquationParser.cs:29-34 | The output is empty exactly when the input holds no digit and no `;`. |
| EquationParser.SanitizedIdempotent | Neo/Neo/Services/EquationParser.cs:22-47 | Sanitising an output again returns it unchanged. |
| EquationParser.SanitizedDecimalExample | Neo/Neo/Services/EquationParser.cs:29-43 | A decimal point is dropped like any other character: "11.5z" gives "11 5 ". |
| Seqs.Filter | Neo/Neo/Services/Parser.cs:147 | LINQ `Where` (also at lines 36, 52 and 170): keeps only elements satisfying the predicate and never lengthens the list. |
| Seqs.Count | Neo/Neo/Services/Parser.cs:29-31 | LINQ `Count(x => x == c)`: the number of occurrences of c, at most the length of the text. |
| Tokens.Split | Neo/Neo/Services/Parser.cs:36 | Splitting gives one token more than there are spaces and `;`, and no token holds a separator. |
| Tokens.SplitRejoin | Neo/Neo/Services/Parser.cs:36 | Putting the separators back between the tokens restores the text, so splitting loses nothing but the choice of separator. |
| Tokens.SplitOfRejoin | Neo/Neo/Services/Parser.cs:36 | The other direction of the round trip: separator-free pieces joined by separators split back into exactly those pieces. |
| Tokens.CountRejoin | Neo/Neo/Services/Parser.cs:29-31 | In such a join, each separator occurs as often as it does among the separators, which is what the dimension counts read. |
| Tokens.SplitNoSeparator | Neo/Neo/Services/Parser.cs:36 | A text without separators splits into itself alone. |
| Tokens.SplitAtSeparator | Neo/Neo/Services/Parser.cs:36 | A separator-free first token is split off at the first separator, and splitting goes on after it. |
| Tokens.WhereKeepsAll | Neo/Neo/Services/Parser.cs:36 | The `Where(x => x != " " \|\| x != "")` filter (also at line 49) keeps every token, so the list has count(' ') + count(';') + 1 tokens. |
| Tokens.WhereAsWritten | Neo/Neo/Services/Parser.cs:36 | The lambda `x => x != " " \|\| x != ""` holds for every string. |
| Tokens.IsWhiteSpace | Neo/Neo/Services/Parser.cs:147 | `char.IsWhiteSpace` over ASCII: the space is whitespace; no whitespace character is `;` or a digit. |
| Tokens.IsBlank | Neo/Neo/Services/Parser.cs:147 | `string.IsNullOrWhiteSpace` of a non-null string: true of the empty string. |
| Tokens.NotBlank | Neo/Neo/Services/Parser.cs:147 | `!string.IsNullOrWhiteSpace`: a string that passes it is not empty. |
| Tokens.NotBlankNonEmpty | Neo/Neo/Services/Parser.cs:147 | A token that passes `!string.IsNullOrWhiteSpace` is never the empty string. |
| ListExtension.TokenList.constructor | Neo/Neo/Services/Parser.cs:36 | `.ToList()`: the new list holds exactly the given tokens. |
| ListExtension.TokenList.RemoveAt | Neo/Neo/Services/Parser.cs:144 | `RemoveAt` succeeds exactly when the index is in range. It then removes that one element and keeps the rest in order; otherwise the list is unchanged. |
| ListExtension.RemoveRounds | Neo/Neo/Services/Parser.cs:142-146 | The removal loop: it never lengthens the list, and when every round finds its index, the list is shorter by exactly the number of rounds. |
| ListExtension.Survivors | Neo/Neo/Services/Parser.cs:147 | What `RemoveEvery` returns: only `ArgumentOutOfRange` as error; on success non-blank tokens only, at least `rows` fewer than the input had. |
| ListExtension.RemoveEvery | Neo/Neo/Services/Parser.cs:140-148 | The list is left as the removal rounds leave it: round i removes index (every-1)*i-1, and the first failing round stops the rounds. The result is the non-blank survivors, or `ArgumentOutOfRange` when a round failed. |
| ListExtension.RoundsFrom | Neo/Neo/Services/Parser.cs:142-146 | From round 2 on, each round removes the element every-1 places past the previous removal. The remaining rounds all succeed exactly when the list reaches that far. |
| ListExtension.RemoveEveryClosedForm | Neo/Neo/Services/Parser.cs:140-148 | The rounds succeed exactly when rows < 1, or every >= 2 and index every*rows-2 exists. They then remove exactly `rows` tokens: the one at every-2 and each every-th one after it. |
| ListExtension.Picked | Neo/Neo/Services/Parser.cs:164-168 | Lists the tokens at indices every*i-1 for i = 1..n, exactly n of them, in order. |
| ListExtension.AddEvery | Neo/Neo/Services/Parser.cs:157-171 | Succeeds exactly when rows < 1, or every >= 1 and index every*rows-1 exists; otherwise `ArgumentOutOfRange`. The result is the non-blank picked tokens, and the i == 1 branch reads the same index as the general case. |
| Parsing.Validate | Neo/Neo/Services/Parser.cs:116-127 | At the end of the list: false, cursor unchanged. On an empty token: false, cursor one step ahead. Otherwise: true, cursor unchanged. |
| Parsing.RowScanCells | Neo/Neo/Services/Parser.cs:75-81 | A row fills cells only from tokens that passed `Validate`, so none of them is empty. |
| Parsing.RowStart | Neo/Neo/Services/Parser.cs:71-83 | The cursor at the start of row i, after the earlier rows: always within the list. |
| Parsing.Filled | Neo/Neo/Services/Parser.cs:75-81 | The cells row i writes: at most `cols` of them, and all from tokens that exist. |
| Parsing.CellToken | Neo/Neo/Services/Parser.cs:79 | The token cell (i, j) is parsed from: never the empty string. |
| Parsing.RowScan | Neo/Neo/Services/Parser.cs:75-81 | A row fills at most `cols` cells and moves the cursor at least one step per filled cell, staying within the list. |
| Parsing.AddToMatrix | Neo/Neo/Services/Parser.cs:65-85 | Succeeds exactly when every token the cursor walk reads parses; otherwise `Format`. Cell (i, j) then holds the parse of its token when the row got that far, and keeps its old value otherwise. |
| Parsing.RowScanNoEmpty | Neo/Neo/Services/Parser.cs:75-81 | Without empty tokens a row takes min(cols, tokens left) tokens. |
| Parsing.RowStartNoEmpty | Neo/Neo/Services/Parser.cs:71-83 | Without empty tokens row i starts at token min(i*cols, length). |
| Parsing.RowMajorCells | Neo/Neo/Services/Parser.cs:65-85 | Without empty tokens cell (i, j) is filled exactly when token i*cols+j exists, and then from that token. |
| Parsing.AddToVector | Neo/Neo/Services/Parser.cs:92-108 | Fails exactly when the first token is non-empty and either some token does not parse or the array is empty. The error is `IndexOutOfRange` only for an empty array whose first token parses. On success entry 0 holds the last token's value and nothing else changes. An empty list, or an empty first token, changes nothing. |
| Parsing.Dimensions | Neo/Neo/Services/Parser.cs:27-31 | The array has count(';')+1 rows, and a column count satisfying cols*semis <= spaces-semis < (cols+1)*semis. No `;` is `DivideByZero`; fewer spaces than `;` is `Overflow`. |
| Parsing.MatrixTokens | Neo/Neo/Services/Parser.cs:36-37 | The tokens `ParseToMatrix` hands to `AddToMatrix`: only `ArgumentOutOfRange` as error; on success none is empty and there are at least `rows` fewer than the split produced. |
| Parsing.VectorTokens | Neo/Neo/Services/Parser.cs:49-53 | The tokens `ParseToVector` hands to `AddToVector`: only `ArgumentOutOfRange` as error; on success none is empty and there are exactly count(';') + 1 of them, one per row, because the list `AddEvery` picks from is already free of blank tokens. |
| Parsing.MatrixOf | Neo/Neo/Services/Parser.cs:25-40 | A successful matrix has the inferred dimensions. |
| Parsing.Grid | Neo/Neo/Services/Parser.cs:79 | A successful grid has `rows` rows of `cols` cells each. |
| Parsing.GridCells | Neo/Neo/Services/Parser.cs:65-85 | For tokens that are never empty, the row-major grid is exactly what `AddToMatrix` produces from a zeroed array, including whether it fails. |
| Parsing.PickedNotBlank | Neo/Neo/Services/Parser.cs:170 | Picking from a list without blank tokens leaves the final whitespace filter nothing to remove. |
| Parsing.MatrixTokensDefined | Neo/Neo/Services/Parser.cs:27-37 | With the inferred dimensions, `RemoveEvery` succeeds exactly when cols >= 2 and cols*rows-2 is below the token count. |
| Parsing.SmallSystemSplit | Neo/Neo/Services/Parser.cs:29-36 | "a b c;d e f" splits into its six one-character entries and holds four spaces and one `;`. |
| Parsing.EntriesNotBlank | Neo/Neo/Services/Parser.cs:147 | The whitespace filter keeps one-character entries. |
| Parsing.SmallSystemMatrix | Neo/Neo/Services/Parser.cs:25-40 | "a b c;d e f" gets 2 x 3 dimensions, and `RemoveEvery` leaves a, c, d, f (b and e are dropped). |
| Parsing.SmallSystemVector | Neo/Neo/Services/Parser.cs:46-58 | With Every = 3, `AddEvery` picks c and f from "a b c;d e f". |
| Parsing.Parser.constructor | Neo/Neo/Services/Parser.cs:14-19 | The static state starts with Every = 1 and an empty Input. |
| Parsing.Parser.SetInput | Neo/Neo/Services/Parser.cs:19 | Sets Input. |
| Parsing.Parser.ParseToMatrix | Neo/Neo/Services/Parser.cs:25-40 | Fails exactly when `MatrixOf` does, with the same exception. Every becomes the column count once the array exists, and is left unchanged when the dimensions fail. On success it returns a fresh array equal to `MatrixOf` cell by cell. |
| Parsing.Parser.ParseToVector | Neo/Neo/Services/Parser.cs:46-58 | Fails with the `AddEvery` error, or with `Format` exactly when a picked token does not parse. On success it returns a fresh vector with one entry per picked token, count(';') + 1 in all: entry 0 holds the last one's value and the rest are 0. |

## Left out

- Solver.cs, the `EquationParser` wrapper class, `MatrixParser`, the user interface (MainPage, MainActivityButton) and the tests are not modelled. Only the parsing core is.
- Tesseract OCR and the camera are not modelled. The recognised text is the `input` field.
- `double.Parse` is not modelled. Its culture-dependent number format and floating point are replaced by the `parse` parameter.
- The math library's `Matrix<double>.Build.DenseOfArray` and `Vector<double>.Build.DenseOfArray` are left out. The model returns the array itself.
- `char.IsDigit` and `char.IsWhiteSpace` are restricted to ASCII. The other Unicode digits and whitespace are not modelled.
- Null strings are not modelled. With a null `Input`, `ParseToMatrix` would throw `ArgumentNullException` from `Enumerable.Count` at Parser.cs:29, and `ParseToVector` would throw `NullReferenceException` from `Input.Split` at Parser.cs:49.
- Parsing.AddToMatrix: on a `Format` error the contract does not say which cells were already written, because `ParseToMatrix` discards the array when that happens.
- Parsing.AddToVector: on an error the contract does not say what entry 0 holds, because `ParseToVector` discards the array when that happens.
- Static fields are shared by the whole process. The model holds them in one `Parser` object, and concurrent callers are not modelled.
- C#'s 32-bit `int` is modelled as an unbounded `int`. This covers the counts at Parser.cs:29-31 and :53, and the indices `(--every * i) - 1` and `every * i - 1`. No wrap-around can change a result while the text is shorter than 2^30 characters. Counts are bounded by the text's length, and `every` is such a count. A later round runs only after the previous round's index was in range, so each index stays below the list length plus `every`.
