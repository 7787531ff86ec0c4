# Recipe ingredient index: cleaning, inverted index, calories

This project models the data-preparation core of a recipe search tool
(`python/prep.py`). Three parts are modelled:

- **`normalize_ingredient`** turns a recipe's list of raw ingredient
  strings into a set of tokens. Each item is:
  1. lower-cased;
  2. stripped of every character that is not `a`-`z` or whitespace;
  3. trimmed of surrounding whitespace;
  4. shortened by one trailing `s`, if it ends in one;
  5. kept only if it is longer than two characters.
- **The index loop of `build_inverted_index`** appends each recipe's id to
  the list of every token in that recipe's set.
- **The calories column** is the first entry of each recipe's nutrition list.

The project has three modules:

- `Normalize` (`normalize.dfy`) holds the per-item cleaning chain as pure
  functions (`Lower`, `KeepLettersAndSpaces`, `Strip`, `DropTrailingS`,
  composed in `Clean`). It specifies the token set `Tokens` as a function.
  The method `NormalizeIngredient` builds the set in a loop, as the source
  does, and is proved equal to `Tokens`.
- `InvertedIndex` (`index.dfy`) holds the index as a
  `map<string, seq<int>>`.
  - `AddRow` is the inner loop. It picks the tokens of a row's set in an
    arbitrary order, because Python's set order is unspecified.
  - `BuildIndex` is the outer loop over the rows.
  - Each list is proved equal to `Posting`, the ids of the rows holding
    that token, in row order. This holds whatever order the sets are
    visited in.
- `Prep` (`prep.dfy`) composes the two into `BuildInvertedIndex` and adds
  the calories column.

Characters are ASCII. Only `A`-`Z` change case. Whitespace is the set of
ASCII characters accepted by Python's `str.isspace`, which is also what
`\s` matches: codes 9-13 and 28-32.

Three behaviours of the code at its edges:

- **"2 cups Flour".** The substitution deletes only the digit, and the
  strip then removes the space after it, so the token is "cups flour".
  `Normalize.CleanDropsQuantity` proves this in general.
- **Empty nutrition list.** pandas' `.str[0]` on an empty list yields a
  missing value (NaN), not an error. `Prep.Calories` returns `None` there.
- **Empty table.** Line 57 reads the first row of the nutrition column, so
  an empty table raises an `IndexError`. `Prep.BuildInvertedIndex`
  returns `None` for it.

## Model

| member | source | states |
|---|---|---|
| Normalize.IsSpace | python/prep.py:29 | whitespace (`\s`, `str.isspace`) on ASCII, by definition: codes 9-13 and 28-32 |
| Normalize.IsKept | python/prep.py:29 | the characters the substitution keeps, by definition: a-z and whitespace |
| Normalize.LowerChar | python/prep.py:27 | `str.lower` on one character: an upper-case letter becomes the lower-case letter 32 code points above it, and every other character is unchanged |
| Normalize.Lower | python/prep.py:27 | the result has the input's length, each character is the ASCII lower-case of the input character at that position, and no upper-case letter is left |
| Normalize.KeepLettersAndSpaces | python/prep.py:29 | the result is no longer than the input and holds only a-z and whitespace |
| Normalize.KeepLettersAndSpacesCounts | python/prep.py:29 | every a-z or whitespace character occurs in the result exactly as often as in the input, and every other character occurs zero times |
| Normalize.KeepLettersAndSpacesAppend | python/prep.py:29 | the substitution distributes over concatenation |
| Normalize.KeepLettersAndSpacesDropsAll | python/prep.py:29 | a string with no a-z or whitespace character becomes empty |
| Normalize.KeepLettersAndSpacesKeepsClean | python/prep.py:29 | a string of only a-z and whitespace is unchanged |
| Normalize.LeadingSpaces | python/prep.py:29 | the length of the longest all-whitespace prefix, with the character after it not whitespace |
| Normalize.TrailingSpaces | python/prep.py:29 | the length of the longest all-whitespace suffix, with the character before it not whitespace |
| Normalize.Strip | python/prep.py:29 | the result is the slice of the input after its leading whitespace; it is followed only by whitespace; it neither starts nor ends with whitespace; it is empty exactly when the input is all whitespace |
| Normalize.DropTrailingS | python/prep.py:30-31 | the result is a prefix of the input; it is shorter exactly when the input ends in 's'; it is at most one character shorter |
| Normalize.Clean | python/prep.py:27-31 | a cleaned item holds only a-z and whitespace, is empty or starts with a letter a-z, and is no longer than the raw item |
| Normalize.Collect | python/prep.py:25-34 | the length filter and `set.add`: the strings longer than two characters, gathered one by one into a set no larger than the list |
| Normalize.Tokens | python/prep.py:23-35 | the result of normalize_ingredient as a function of the list; it has no more elements than the list has items (TokensCharacterised gives its elements) |
| Normalize.MapEachSnoc | python/prep.py:26 | mapping one more item appends that item's image |
| Normalize.CollectSnoc | python/prep.py:33-34 | collecting one more string adds it to the set exactly when it is longer than two characters |
| Normalize.CollectComplete | python/prep.py:33-34 | every string of the list longer than two characters is in the collected set |
| Normalize.CollectSound | python/prep.py:33-34 | every collected string is longer than two characters and occurs in the list |
| Normalize.CollectMapEach | python/prep.py:26-34 | the collected set of the mapped list is exactly the images longer than two characters |
| Normalize.TokensCharacterised | python/prep.py:26-34 | t is a token of the list if and only if some item cleans to t and t is longer than two characters |
| Normalize.TokensAreTokens | python/prep.py:27-34 | every token is longer than two characters, starts with a-z and holds only a-z and whitespace |
| Normalize.NormalizeIngredient | python/prep.py:23-35 | the loop's set equals the token set of the list; it has no more elements than the list has items; every element is a token as above |
| Normalize.NoLetterCleansToEmpty | python/prep.py:27-31 | an item with no letter (digits, punctuation, whitespace) cleans to the empty string |
| Normalize.NoLetterNoTokens | python/prep.py:25-35 | a list whose items hold no letter yields the empty set |
| Normalize.CleanIgnoresCase | python/prep.py:27 | cleaning a lower-cased item gives the same token as cleaning the item |
| Normalize.LowerAppend | python/prep.py:27 | lower-casing distributes over concatenation |
| Normalize.CleanDropsQuantity | python/prep.py:27-31 | a leading quantity of digits or punctuation and the space after it disappear, and every word after it is kept lower-cased, so "2 cups Flour" gives "cups flour" |
| Normalize.LowerQuantityLine | python/prep.py:27 | lower-casing leaves a letterless quantity and the space unchanged |
| Normalize.KeepQuantityLine | python/prep.py:29 | the substitution deletes the quantity and keeps the space and the words |
| Normalize.StripOneSpace | python/prep.py:29-31 | stripping one leading space off a stable word gives the word back, and the trailing-'s' rule leaves it alone |
| Normalize.CleanKeepsLowerWord | python/prep.py:27-31 | an item of a-z and inner whitespace only loses its final 's', if it has one |
| Normalize.CleanKeepsStableToken | python/prep.py:27-31 | a token that ends neither in 's' nor in whitespace cleans to itself |
| Normalize.StableWordsClean | python/prep.py:26-31 | a list of stable words is its own cleaned list |
| Normalize.CleanNotIdempotent | python/prep.py:30-31 | "grass" cleans to "gras", and cleaning again gives "gra" |
| Normalize.CleanGrass | python/prep.py:30-31 | "grass" cleans to "gras" |
| Normalize.CleanGras | python/prep.py:30-31 | "gras" cleans to "gra" |
| Normalize.TokenMayEndInSpace | python/prep.py:29-31 | "salt s" cleans to "salt ", which is a token that ends in whitespace |
| Normalize.ShortItemsDropped | python/prep.py:33-34 | of "a", "ok" and "oil", only "oil" becomes a token |
| Normalize.CollectShortWords | python/prep.py:33-34 | collecting "a", "ok", "oil" gives the set holding only "oil" |
| InvertedIndex.SumLengthsRemove | python/prep.py:45-50 | the total length of the lists can be split at any key |
| InvertedIndex.SumLengthsAgree | python/prep.py:45-50 | two indexes whose lists have the same lengths have the same total |
| InvertedIndex.AppendAddsOneEntry | python/prep.py:50 | one append, to a new or to an existing list, adds exactly one entry to the index |
| InvertedIndex.PostingNonEmpty | python/prep.py:45-50 | a token's list is non-empty exactly when some row holds the token |
| InvertedIndex.PostingMembership | python/prep.py:47-50 | an id is listed under t if and only if a row with that id holds t |
| InvertedIndex.PostingConcat | python/prep.py:47-50 | lists follow row order: the list over two batches of rows is the first batch's list followed by the second's |
| InvertedIndex.PostingOfTwo | python/prep.py:47-50 | two rows that both hold t give the list of their two ids, in row order |
| InvertedIndex.PostingDistinct | python/prep.py:47-50 | when the rows' ids are distinct, no id repeats within a list |
| InvertedIndex.AppendKeepsListsSoFar | python/prep.py:49-50 | appending the row's id under one more token keeps every list equal to the earlier rows' ids plus this id for the tokens already visited |
| InvertedIndex.RowDone | python/prep.py:49-50 | once all of a row's tokens are visited, every list covers that row too |
| InvertedIndex.SnocTotals | python/prep.py:45-50 | one more row adds its tokens to the set of keys and its set size to the total |
| InvertedIndex.StartRow | python/prep.py:49 | before a row's first token, the inner loop's invariant holds |
| InvertedIndex.VisitToken | python/prep.py:49-50 | visiting one token keeps the inner loop's invariant: keys, lists and entry count |
| InvertedIndex.FinishRow | python/prep.py:49-50 | after a row's last token, keys, lists and entry count cover one more row |
| InvertedIndex.AddRow | python/prep.py:48-50 | after a row, in any set order: the keys are the union of all token sets so far, each list is the ids of the rows holding its token, and the entry count grows by the row's set size |
| InvertedIndex.BuildIndex | python/prep.py:45-50 | the keys are exactly the union of all token sets; each list is the ids of the recipes holding the token, in recipe order; every list is non-empty; the number of entries equals the sum of the set sizes |
| Prep.Calories | python/prep.py:60 | there is a value exactly when the nutrition list is non-empty, and it is the list's first entry |
| Prep.CleanRow | python/prep.py:42-49 | the row the index loop reads for one recipe: its id and its cleaned ingredient set, which is no larger than the ingredient list |
| Prep.Augmented | python/prep.py:42-60 | one row of the returned table: the recipe's id, ingredients and nutrition, its cleaned ingredient set (all tokens), and calories present exactly when the nutrition list is non-empty, equal to its first entry |
| Prep.CleanRows | python/prep.py:42 | one row per recipe, with the recipe's id and the token set of its ingredients |
| Prep.RowsOfSnoc | python/prep.py:42 | converting one more recipe appends its row |
| Prep.CleanRecipes | python/prep.py:42 | the cleaning pass yields exactly the rows of all recipes, in table order |
| Prep.BuildInvertedIndex | python/prep.py:37-63 | an empty table fails; otherwise the index has the properties of BuildIndex over the recipes' token sets, and the table has one row per recipe with its ids, ingredients, token set, nutrition and calories |
| Prep.ListedIffRecipeHasToken | python/prep.py:42-50 | an id is listed under t if and only if a recipe with that id has t in its cleaned ingredient set |
| Prep.CleanEggs | python/prep.py:27-31 | "eggs" and "Eggs" both clean to "egg" |
| Prep.LowerEggs | python/prep.py:27 | "Eggs" lower-cases to "eggs" |
| Prep.EggTokens | python/prep.py:23-35 | "egg" is a token of ["eggs"] and of ["Eggs", "milk"] |
| Prep.PostingOfTwoRecipes | python/prep.py:47-50 | two recipes whose token sets both hold t give the list of their ids, in recipe order |
| Prep.EggsInTwoRecipes | python/prep.py:42-50 | a recipe listing "eggs" and one listing "Eggs" both appear under "egg", in recipe order |

## Left out

- CSV loading and the `ast.literal_eval` decoding of the list columns (lines 41, 57-58, 70). These are parsing by foreign libraries. Recipes arrive with their ingredient and nutrition lists already decoded.
- The `isinstance(..., str)` probe on the first nutrition entry (line 57). Once inputs are typed there is nothing to decide. What remains is that reading the first row fails on an empty table.
- Re-keying the table by id with pandas' `set_index` (line 53). The table stays a sequence in row order, with the id in each row. Duplicate ids are kept, as pandas keeps them.
- Other columns of the raw table (name, steps and so on), which are carried through unchanged.
- Pickle and CSV persistence (`save_index`, `run_indexing_pipeline`) and all printing (lines 14-18, 62, 66-85).
- `python/check_data.py`, a script that only loads and prints data. It is not part of this model.
- Full Unicode semantics of `str.lower()` and `\s`. Characters are treated as ASCII. The model accepts any character, but it deletes every non-ASCII one. Python instead keeps non-ASCII whitespace inside a token: "salt\u00a0flakes" gives "salt\u00a0flake" in Python and "saltflake" in the model. Python also lower-cases some non-ASCII letters into a-z, such as U+0130 to "i" followed by a combining dot and U+212A (the Kelvin sign) to "k"; the model deletes them.
- Floating-point nutrition values. They are opaque `real`s, because only the selection of the first entry is modelled.
- The in-place column assignments on the caller's DataFrame (lines 41-42). The model returns the cleaned sets in a new table and leaves its input unchanged.
- The order of the returned dictionary's keys. Python's `dict` (line 63) keeps the order in which tokens were first inserted, and a Dafny `map` has no key order.
- The `defaultdict` and its conversion to `dict` (lines 45, 63). A missing key starts an empty list before the append, and the result is a plain map.
