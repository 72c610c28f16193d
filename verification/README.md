# CSV header de-duplication of the Vega data loader

Before marimo's Vega loader hands fetched text to the `vega-loader`
parser, it rewrites the header line so that every column name is unique.
The parser turns each row into an object keyed by column name. Without
this step, a repeated name would silently drop a column.

`uniquifyColumnNames` returns empty text and text without a comma
unchanged. For any other text it does the following:

- it splits the text on `"\n"` and takes line 0 as the header;
- it splits the header on `","`;
- it scans the names left to right, keeping a set of the names already
  emitted;
- it replaces each name with the first candidate not yet in that set.
  The candidates are the name itself, then the name followed by one
  zero-width space (U+200B), then by two, and so on (`getUniqueKey`);
- it joins everything back together, so only line 0 can change.

The model is three Dafny modules:

- `Text` (`text.dfy`): literal one-character `Split` and `Join`, which
  behave like JavaScript's `String.prototype.split` and
  `Array.prototype.join`. It proves both round trips.
- `Loader` (`loader.dfy`): the marker search, the header scan and the
  whole transform, each written as a pure function. It also has two
  methods that follow the source's `while` and `for` loops. Each method
  is proved equal to its function.
- `LoaderExamples` (`loader_examples.dfy`): the worked inputs.

The search in `getUniqueKey` has no syntactic bound. `Probe` ends
because the candidates for one key are pairwise distinct (they have
different lengths). Every candidate the search rejects is in the finite
set of taken names, so the marker count never exceeds the size of that
set (`decreases |existing| - k`).

The code comment in `vegaLoadData` says duplicates get "a number"
appended. The code appends zero-width spaces, and the model follows the
code.

## Model

| member | source | states |
|---|---|---|
| Text.Split | frontend/src/plugins/impl/vega/loader.ts:40-42 | Splitting on a literal separator always yields at least one part, and no part contains the separator |
| Text.Join | frontend/src/plugins/impl/vega/loader.ts:52-54 | Has no contract of its own; JoinSplit and SplitJoin characterise it as the inverse of Split on separator-free parts |
| Text.JoinSplit | frontend/src/plugins/impl/vega/loader.ts:53-54 | Joining the parts of a split with the same separator gives back the original text exactly |
| Text.SplitJoin | frontend/src/plugins/impl/vega/loader.ts:40-42 | Splitting a join of one or more separator-free parts gives back exactly those parts |
| Loader.CandidatesCount | frontend/src/plugins/impl/vega/loader.ts:62-65 | The first n candidates for a key (the key plus 0..n-1 zero-width spaces) are n different names |
| Loader.Probe | frontend/src/plugins/impl/vega/loader.ts:60-65 | The marker search ends with a count no larger than the number of taken names; that candidate is free and every candidate with fewer markers is taken |
| Loader.UniqueKey | frontend/src/plugins/impl/vega/loader.ts:59-67 | The returned key is not among the existing keys, is the key itself when the key is free, and is the key followed only by zero-width spaces |
| Loader.UniqueKeyIsLeastFree | frontend/src/plugins/impl/vega/loader.ts:60-64 | The returned key is the candidate with k markers if and only if k is the least marker count whose candidate is free |
| Loader.GetUniqueKey | frontend/src/plugins/impl/vega/loader.ts:59-68 | The while loop as written terminates and returns a key outside the set, namely the least free candidate |
| Loader.UniquifyFrom | frontend/src/plugins/impl/vega/loader.ts:44-50 | The scan emits one name per input name; emitted names are pairwise distinct and were not taken beforehand; each is its input name plus zero or more zero-width spaces |
| Loader.UniquifyNames | frontend/src/plugins/impl/vega/loader.ts:44-50 | The scan of one header starting from an empty set emits one name per input name, pairwise distinct, each its input name plus zero or more zero-width spaces |
| Loader.UniquifyFromIsScan | frontend/src/plugins/impl/vega/loader.ts:44-50 | A sequence is the scan's output if and only if each entry is the unique key of its name given the entries before it |
| Loader.UniquifyFromFixesDistinct | frontend/src/plugins/impl/vega/loader.ts:44-50 | When none of the names is already taken, the scan returns its input unchanged if and only if the input names are pairwise distinct |
| Loader.UniquifyHeaderNames | frontend/src/plugins/impl/vega/loader.ts:44-50 | The for loop with its growing set of names produces exactly the scan's output |
| Loader.UniquifyColumnNames | frontend/src/plugins/impl/vega/loader.ts:35-55 | Has no contract of its own; HeaderIsUniquified, DataLinesUnchanged, NoCommaUnchanged, UnchangedIffDistinct and Idempotent state its behaviour for all inputs |
| Loader.RewrittenLines | frontend/src/plugins/impl/vega/loader.ts:40-54 | When the text contains a comma, the output's lines are the rewritten header followed by the original lines 1..n, and the header splits back into the unique names |
| Loader.HeaderIsUniquified | frontend/src/plugins/impl/vega/loader.ts:35-55 | For every input, the output header has as many names as the input header, in the same positions. The names are pairwise distinct, each is its input name plus the fewest markers that make it new, and the whole header is the left-to-right scan |
| Loader.DataLinesUnchanged | frontend/src/plugins/impl/vega/loader.ts:40-54 | The output has the same number of lines as the input, and every line after line 0 is identical |
| Loader.NoCommaUnchanged | frontend/src/plugins/impl/vega/loader.ts:36-38 | Text without a comma, including empty text, has a one-name header and comes back unchanged |
| Loader.UnchangedIffDistinct | frontend/src/plugins/impl/vega/loader.ts:35-55 | The output equals the input if and only if the input's header names are already pairwise distinct |
| Loader.Idempotent | frontend/src/plugins/impl/vega/loader.ts:35-55 | Applying the rewrite twice gives the same text as applying it once |
| LoaderExamples.ExampleRepeatedName | frontend/src/plugins/impl/vega/loader.ts:46-49 | "a,b,a\n1,2,3\n4,5,6" becomes "a,b,a" plus one zero-width space, with both data lines unchanged |
| LoaderExamples.ExampleTripleName | frontend/src/plugins/impl/vega/loader.ts:46-49 | Header "x,x,x" becomes "x", then "x" plus one marker, then "x" plus two markers, with the data line unchanged |
| LoaderExamples.ExampleSingleColumn | frontend/src/plugins/impl/vega/loader.ts:36-38 | "singlecolumn\nval1\nval2" and the empty text come back unchanged |

## Left out

- `vegaLoadData` (loader.ts:16-33) is not modelled beyond the fact that it passes `uniquifyColumnNames(csvData)` to the parser. The rest is orchestration over `vegaLoader.load` (a network fetch) and `read` (the CSV parser), both from `vega-loader`, whose code is not part of this model. Fetch and parse errors propagate unchanged. The rewrite runs on whatever text the fetch returns, whatever the `format`, so it also touches a first line that is not a CSV header (one-line JSON `[0,1,1,2]` becomes `[0,1,1` plus a zero-width space `,2]`); the model covers the text transform only and does not judge the format.
- Loader.UniquifyColumnNames: does not model JavaScript's string length limit. n copies of one name gain n(n-1)/2 zero-width spaces, so a header of a few tens of thousands of repeats, or an input already near the limit with a single repeat, makes `newNames.join(",")` or `lines.join("\n")` (loader.ts:52-54) throw a RangeError once the result exceeds the engine's maximum string length. Dafny strings are unbounded, so the model always returns.
- The property that each parsed record has one field per header name depends on the external parser, so it is not stated. What is proved is the premise it rests on: the header names are pairwise distinct.
- `typeParsers.date` (loader.ts:7) relies on the JavaScript `Date` object and ISO string formatting, which belong to a foreign runtime.
- `vegaLoader` (loader.ts:9) is construction of an external loader object.
- JavaScript strings are sequences of UTF-16 code units, while Dafny strings are sequences of Unicode scalar values. The difference does not affect splitting on `","` and `"\n"`, or appending U+200B: all three are single code units, and no surrogate equals them. A JavaScript string holding an unpaired surrogate has no counterpart as a Dafny `string`, so the model covers well-formed text only; text decoded from a fetched response never holds an unpaired surrogate.
- `!csvData` also short-circuits `null` and `undefined` at run time. The parameter's type is `string`, so only the empty string is modelled.
- CSV quoting, `\r\n` line endings and rows with the wrong number of cells are not handled by the code, and the model adds no handling for them.
- Nothing outside `loader.ts` is modelled. That includes `./types`, from which `loader.ts` imports only the `DataFormat` type that it passes through to the parser.
