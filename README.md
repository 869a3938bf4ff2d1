# LeafLink chat core in Dafny

LeafLink is a small web shop for indoor plants and aromatherapy products
with a chat assistant. A customer's question is answered in three steps.
This project models those steps and proves what each of them guarantees.

1. **Relevance filter** (`filter_relevant_products`, module `Filter`).
   - The question is lower-cased and matched against a fixed list of plant
     keywords and a fixed list of aromatherapy keywords.
   - If it names exactly one category, the filter keeps the rows of that
     category. If it names both, it keeps the rows of either.
   - If it names neither, it keeps every row whose lower-cased
     `nombre atributo_1 descripcion` contains one of the question's
     whitespace-separated words.
   - An empty result falls back to the whole catalog.
   - The answer is cut to ten rows, in catalog order.
   - `FilterRelevantProducts` follows the source step by step. Its scan over
     the catalog is the loop `MatchByWords`. It is proved equal to the
     function `RelevantProducts`, and the lemmas state the properties of
     that function.
2. **Context formatter** (`format_products_for_ai`, module `Formatter`).
   - An empty selection becomes a fixed sentence.
   - Otherwise the text is a title followed by one block per product. A block
     has six labelled lines in a fixed order, then the "Caracteristicas" and
     "Uso recomendado" lines when those fields are present, then a divider of
     fifty `=`.
   - `FormatProductsForAi` builds the text by appending, as the source does.
     It is proved equal to the function `Format`.
   - The lemmas state the layout. When no field holds a line break, reading
     the text line by line gives back exactly the lines of the blocks. The
     optional lines are there if and only if their fields are. Every
     product's name and price appear in the text.
3. **Response post-processing** (the part of `generate_ai_response` after
   the model call, module `Generator`).
   - If the call succeeds, the model's text is returned without its
     surrounding whitespace.
   - If it fails, one of two fixed apologies is returned. The quota apology
     is chosen exactly when the lower-cased error text contains "quota".
   - The error text itself never reaches the customer.

The module `Text` models the Python string operations these steps use:
- `str.lower`, `str.isspace` and the substring test `in`;
- `str.split()`, `str.strip()` and `str(n)`;
- the split of a text into lines.

`Catalog` holds the catalog row and `Wrappers` the `Option` type. A
catalog that failed to load (`load_catalog` returning `None`) is `None`.
`Scenario` follows one request from question to answer.

## Model

| member | source | states |
|---|---|---|
| Filter.RelevantProducts | app.py:24-76 | at most ten rows; no catalog gives no rows; a non-empty catalog never gives an empty answer |
| Filter.FilterRelevantProducts | app.py:24-76 | the imperative filter (flags, word scan, category selects, fallback, truncation) returns exactly `RelevantProducts(catalog, question)` |
| Filter.MatchByWords | app.py:53-60 | the loop over `df.iterrows()` keeps exactly the rows whose combined text contains one of the words, in catalog order |
| Filter.MentionsAnyIff | app.py:49-50 | `any(keyword in q for keyword in keywords)` holds if and only if some keyword of the list occurs in the text |
| Filter.RelevantBounds | app.py:26-27 | never more than ten rows; no catalog gives no rows; a non-empty catalog never gives an empty answer; the answer is a prefix of the candidates |
| Filter.RelevantKeepsCatalogOrder | app.py:56-76 | the rows returned are a subsequence of the catalog: same order, nothing added or repeated |
| Filter.RelevantFallback | app.py:72-76 | when the branch keeps no row, the answer is the first ten rows of the catalog |
| Filter.RelevantPlantsOnly | app.py:66-67 | a question about plants only, over a catalog holding a plant, gives the first ten plants in catalog order, and only plants |
| Filter.RelevantAromaOnly | app.py:68-69 | a question about aromatherapy only, over a catalog holding such a product, gives the first ten of them, and only those |
| Filter.RelevantBoth | app.py:63-65 | a question about both keeps exactly the rows of either category; a catalog of only those two categories is kept whole |
| Filter.RelevantNeither | app.py:53-60 | a question about neither keeps a row exactly when its combined text contains one of the question's words |
| Filter.RelevantBlankQuestion | app.py:49-60 | an empty or all-whitespace question matches no keyword and no row, so the first ten catalog rows are returned |
| Filter.RelevantSinglePlant | app.py:33-67 | "¿tienen plantas de interior?" over a one-plant catalog returns that plant |
| Filter.RelevantOfKinds | app.py:63-65 | a branch selecting by a set of categories keeps exactly the catalog rows of those categories, or the whole catalog when it keeps none; with no other category present, the first ten catalog rows |
| Filter.RelevantOfOneKind | app.py:66-69 | a branch selecting one category present in the catalog gives the first ten rows of it, and only rows of it |
| Filter.SelectKinds | app.py:65-69 | selecting by a set of categories keeps exactly the catalog rows of those categories, and keeps a catalog made only of them whole |
| Filter.SelectOneKind | app.py:67-69 | selecting one category from a catalog that has it keeps some rows, all of that category |
| Filter.SelectByWords | app.py:58-60 | a row is kept by the word scan exactly when it is in the catalog and its combined text contains one of the words |
| Filter.SelectMembership | app.py:56-69 | a row is selected if and only if it is in the catalog and meets the criterion |
| Filter.SelectIsSubsequence | app.py:56-69 | every selection keeps the catalog's order |
| Filter.SelectEmptyIff | app.py:72 | a selection is empty exactly when no row meets the criterion |
| Filter.SelectEverything | app.py:65 | a criterion every row meets drops nothing |
| Filter.SelectAppend | app.py:56-60 | selecting from two catalog parts is selecting from each part and joining the results |
| Filter.KeywordsStartWithLetters | app.py:33-46 | no keyword is empty or starts with whitespace |
| Formatter.Format | app.py:78-98 | the result is the fixed "no products" sentence exactly when there are no products; otherwise it starts with the header |
| Formatter.FormatProductsForAi | app.py:78-98 | the text built by appending, product by product, is exactly `Format(products)` |
| Formatter.AppendBlock | app.py:86-96 | one pass of the loop appends exactly the product's block |
| Formatter.AppendLine | app.py:86-91 | appending a line and its newline extends the text by exactly one line |
| Formatter.AppendOptional | app.py:92-95 | an optional field adds its labelled line when non-empty and nothing otherwise |
| Formatter.FormatLayout | app.py:83-96 | block `i` stands in the text right after the header and the blocks of the products before it |
| Formatter.FormatReadsAsLines | app.py:83-96 | with single-line fields, the text read line by line is the title, a blank line, and the lines of every block in order |
| Formatter.BlocksReadAsLines | app.py:85-96 | when no field holds a line break, the blocks read line by line are exactly their lines, in order |
| Formatter.BlockReadsAsLines | app.py:86-96 | when no field holds a line break, a block read line by line is its own lines, whatever text follows it |
| Formatter.BlockLinesAreLines | app.py:86-95 | with single-line fields, no line of a block holds a newline |
| Formatter.HeaderReadsAsLines | app.py:83 | the header reads as the title line and a blank line, whatever follows |
| Formatter.HeaderIsLines | app.py:83 | the header is the title line followed by a blank line |
| Formatter.DividerIsLines | app.py:96 | the divider is a blank line, fifty `=`, and a blank line |
| Formatter.BlockEndsWithDivider | app.py:96 | every block ends with the divider |
| Formatter.FixedLinesInOrder | app.py:86-91 | a block begins with the Tipo, Nombre, attribute, Descripcion, Precio and Stock lines in that order; the price line is `Precio: $<price> MXN`; the stock line reads back as the stock count |
| Formatter.FeaturesLineIff | app.py:92-93 | a block has a "Caracteristicas" line if and only if `atributo_2` is present |
| Formatter.UseLineIff | app.py:94-95 | a block has a "Uso recomendado" line if and only if `atributo_3` is present |
| Formatter.OptionalLineLabel | app.py:92-95 | an optional line starts with its own label exactly when the field is present, and never with another label |
| Formatter.OtherLinesHaveOtherLabels | app.py:86-96 | no fixed line and no divider line starts with the label of an optional line |
| Formatter.HasLineAppend | app.py:86-96 | a line with a given label is in two joined line lists exactly when it is in one of them |
| Formatter.BlockMentions | app.py:87-90 | a block holds its product's name and price |
| Formatter.FormatMentionsEveryProduct | app.py:85-90 | the formatted text holds the name and price of every product given |
| Generator.GenerateAiResponse | app.py:135-143 | on success the answer is no longer than the reply and has no whitespace at either end; on failure it is one of the two apologies, the quota one exactly when the lower-cased error contains "quota" |
| Generator.FailureMessage | app.py:137-143 | a failure always gives one of the two apologies, and the quota apology exactly when the lower-cased error contains "quota" |
| Generator.FailureIgnoresCase | app.py:140 | an error and its lower-cased form get the same apology |
| Generator.QuotaInAnyCase | app.py:140-142 | "quota" in any casing anywhere in the error gives the quota apology |
| Generator.QuotaNeedsTheWord | app.py:140-142 | the quota apology is given only when the error holds "quota" in some casing, at the position returned |
| Generator.FailureHidesError | app.py:137-143 | two errors alike on the quota test get the same apology, and an error longer than the apologies is never shown |
| Generator.ExhaustedQuotaScenario | app.py:140-142 | the provider's error "You exceeded your current Quota" gives the quota apology |
| Generator.SuccessIsTrimmed | app.py:135 | the answer is a slice of the model's text with only whitespace before and after it, and it neither starts nor ends with whitespace |
| Generator.SuccessEmptyIff | app.py:135 | the answer is empty exactly when the model's text is all whitespace |
| Generator.SuccessIsStable | app.py:135 | trimming the answer again changes nothing |
| Generator.MonsteraScenario | app.py:135 | a reply padded with newlines and spaces reaches the customer as the sentence alone |
| Generator.StripAround | app.py:135 | whitespace around a text with no whitespace at its ends is exactly what is removed |
| Scenario.MonsteraEndToEnd | app.py:24-135 | the one-Monstera catalog and the indoor-plant question: the filter keeps the Monstera, the context shows "Monstera" and "350", and the reply is trimmed |
| Text.Lower | app.py:30 | the lower-cased text has the same length, no modelled capital left, and every other character unchanged |
| Text.LowerIdempotent | app.py:30 | lower-casing twice is lower-casing once |
| Text.LowerHasNoUpper | app.py:30 | lower-casing keeps the length and leaves no modelled capital |
| Text.LowerKeepsSpaces | app.py:30 | lower-casing neither creates nor removes whitespace |
| Text.LowerAppend | app.py:58 | lower-casing a concatenation lower-cases each part |
| Text.LowerContains | app.py:140 | lower-casing keeps a substring a substring, lower-cased |
| Text.SpacesContainNoWord | app.py:49-50 | an all-whitespace text contains no pattern that starts with a non-space |
| Text.Words | app.py:59 | every word of `split()` is non-empty and holds no whitespace |
| Text.WordsKeepAllLetters | app.py:59 | the words of `split()`, glued together, are exactly the non-whitespace characters of the text |
| Text.WordsEmptyIff | app.py:59 | `split()` is empty exactly when the text is empty or all whitespace |
| Text.WordsOfWord | app.py:59 | a run of non-whitespace characters is a single word: `split()` never cuts inside a word |
| Text.WordsAtSpace | app.py:59 | a whitespace character always separates: the words of `a + [c] + b` are the words of `a` followed by those of `b` |
| Text.WordsOccur | app.py:59 | every word of `split()` is a substring of the text |
| Text.Strip | app.py:135 | `strip()` is no longer than the text and has no whitespace at either end |
| Text.StripIsTrimmedSlice | app.py:135 | `strip()` returns a slice with only whitespace outside it and no whitespace at its ends |
| Text.StripKeepsTrimmed | app.py:135 | a text with no whitespace at its ends is left as it is |
| Text.StripIdempotent | app.py:135 | stripping twice strips nothing more |
| Text.IntToStringRoundTrip | app.py:91 | the stock count as rendered reads back as the same integer |
| Text.NatToStringValue | app.py:91 | the digits rendered for a natural number have its value |
| Text.IntToString | app.py:91 | `str(n)` is non-empty, made of digits after an optional leading minus |
| Text.LinesOfJoin | app.py:86-96 | single-line pieces each followed by a newline read back as those pieces |
| Text.LinesAfterLine | app.py:86-96 | a newline-free piece followed by a newline reads as one line |
| Text.JoinLinesAppend | app.py:86-96 | writing two lists of lines one after the other writes their concatenation |
| Text.JoinedLineAt | app.py:86-96 | each written line occurs in the text at its start position |
| Text.Repeat | app.py:96 | `"=" * 50` is fifty `=` |

## Left out

- The Flask routes and the `/chat` handler (app.py:145-193), including its empty-question and catalog-unavailable answers: this model covers the three steps the handler calls, not the web layer.
- `load_catalog` (app.py:16-22) reads a CSV file with pandas. This is I/O: the model takes its result as an `Option` of rows.
- The call to the language model (app.py:104-133) is left out: the prompt text, the model name, `max_tokens` and `temperature`. `GenerateAiResponse` takes the outcome of that call as a parameter (`Success` with the reply, or `Failure` with the error text). Its `question` and `products` arguments are therefore not modelled.
- Exceptions raised inside the `try` before the model call are not modelled separately; they are covered only as a `Failure` text. An example is a missing column in `format_products_for_ai`.
- The `print` logging of errors (app.py:21, 139) is output only, so it is left out.
- `Text.Lower` models `str.lower()` only for A..Z and the Latin-1 capitals. Other Unicode case mappings are left out, including multi-character ones such as 'İ'.
- An empty `atributo_2` or `atributo_3` stands for a value pandas reads as missing. pandas would print a missing value as `nan`, because `NaN` is truthy. The model treats any empty field as absent.
- Line structure: the lemmas about reading the formatted text line by line (`FormatReadsAsLines`, `BlocksReadAsLines`, `BlockReadsAsLines`) hold only when no field holds a line break. A quoted CSV cell may hold one, and then the text has more lines than the blocks.
- `stock` is an integer rendered with `str`. pandas reads the whole column as floats when any stock cell is empty, and the text would then show `5.0`. That rendering is not modelled.
- `precioMxn` is the price already rendered as text, because pandas' float formatting (`350.0` against `350`) is outside the model.
- Formatting the same products twice gives the same text by construction: `Format` is a function and `FormatProductsForAi` is proved equal to it. No separate lemma states this.
- Generator.FailureHidesError: the claim that the error is not echoed is stated only for errors longer than the apologies. A short error, such as "Lo", does occur inside the apology text.
