# Recipe recommender: tag strings and result assembly

This project models the small amount of real logic in the recipe
recommender web app (`app.py`):

- **`to_list`** is the defensive parser that turns a recipe's `ingredients`
  or `tags` cell into a list of tokens. A list is passed through as it is.
  Text is parsed in four steps:
  1. strip surrounding whitespace;
  2. drop one pair of enclosing brackets, if there is one;
  3. split at every comma;
  4. drop each piece that is only whitespace, and trim the rest of spaces
     and quote characters.
- **`build_tag_string`** joins the ingredient tokens and then the tag tokens
  with single spaces. A missing cell reads as the empty text.
- **The result loop of `recommend`** walks the nearest-neighbour search's
  scores and row indices pairwise. It appends one `{title, rating, score}`
  record per pair.
- **`INTERACT_KEY`** chooses the column that the ratings table is grouped
  by.

The project has three modules:

- `PyStr` (`py_str.dfy`) gives Python's `str.strip()`, `str.strip(chars)`,
  `str.split(sep)` and `sep.join(...)` their exact semantics. `split` keeps
  empty pieces, so `"".split(",")` is `[""]`. `strip()` removes the
  characters for which `str.isspace()` holds.
- `TagString` (`tag_string.dfy`) models `to_list` and `build_tag_string`
  as functions, and proves their properties as lemmas.
- `Recommend` (`recommend.dfy`) models the result loop as a method with a
  `while` loop. It is proved against `Results`, a list-comprehension
  reference definition. The same module holds the join-key rule.

A recipe row is a `map<string, Field>`. A `Field` is either
`List(items)` or `Text(text)`. Floating-point values (scores, ratings) are
`real`, and `float(...)` is the identity on them.

### Where the code and its design description differ

The model follows the code in each case below.

- The design says every piece is trimmed of whitespace and quotes. The code
  (`x.strip(" '\"")`) trims only the space and the two quote characters. A
  tab or newline at the edge of a piece stays in the token
  (`TabsSurvivePieceTrim`).
- The design says empty pieces are discarded *after* that trim. The code
  filters on `x.strip()`, which removes whitespace only. A piece made only
  of quotes, as in `"['']"`, therefore passes the filter and yields the
  empty token `""` (`QuotedEmptyGivesEmptyToken`).
- The design does not mention that the whole text is whitespace-stripped
  before the bracket test. The code does this, so `" [a] "` loses its
  brackets (`BracketedText`).

## Model

| member | source | states |
|---|---|---|
| PyStr.StripLeftShape | app.py:17 | `lstrip` keeps a suffix of the text. What it drops consists of characters from the set. What it keeps does not start with one of them. |
| PyStr.StripRightShape | app.py:17 | `rstrip` keeps a prefix of the text. What it drops consists of characters from the set. What it keeps does not end with one of them. |
| PyStr.StripEnds | app.py:17 | `strip` gives the empty string exactly when every character is in the set. Otherwise the result neither begins nor ends with a character of the set. |
| PyStr.StripAround | app.py:17 | Stripping `pre + w + post`, where `pre` and `post` are made of set characters and `w`'s ends are not, gives exactly `w`. |
| PyStr.StripAbsent | app.py:20 | Stripping never introduces a character that was absent. |
| PyStr.StripCount | app.py:17 | Stripping never adds occurrences of a character. |
| PyStr.Split | app.py:20 | `split(sep)` has one more piece than there are separators. No piece contains the separator. Joining the pieces with the separator gives back the text. |
| PyStr.SplitNoSep | app.py:20 | A text without the separator splits to the one-piece list of itself. This includes `""`, which gives `[""]`. |
| PyStr.SplitCons | app.py:20 | Splitting at the first separator peels off the piece before it. |
| PyStr.SplitJoin | app.py:20 | On separator-free pieces, split inverts join. |
| PyStr.JoinAppend | app.py:23 | The join of a concatenation is the two joins. They are put together with one separator when both halves have pieces. |
| TagString.Unbracket | app.py:18-19 | The text changes exactly when it starts with `[` and ends with `]`. When it changes, exactly one character comes off each end. |
| TagString.ToList | app.py:15-16 | A list cell is returned unchanged: same elements, same order, no trimming or filtering. |
| TagString.PiecesShape | app.py:17-20 | The raw pieces joined with `,` reproduce the stripped, unbracketed text. No piece has a comma. There are at most the text's comma count plus one pieces. |
| TagString.TokensLength | app.py:20 | The comprehension yields at most one token per piece. |
| TagString.TokensTrimmed | app.py:20 | No token begins or ends with a space, `'` or `"`. |
| TagString.TokensCommaFree | app.py:20 | Comma-free pieces give comma-free tokens. |
| TagString.TextTokensShape | app.py:17-20 | From text, `to_list` yields at most the comma count plus one tokens. None of them contains a comma, and none begins or ends with a space or a quote. |
| TagString.TokensAppend | app.py:20 | The comprehension works piece by piece and keeps the order. |
| TagString.TokensSingle | app.py:20 | A piece is dropped exactly when it is empty or whitespace-only. Otherwise it yields the piece trimmed of spaces and quotes. |
| TagString.QuotePieceGivesEmptyToken | app.py:20 | A piece of quotes and spaces that is not whitespace-only is kept, as the empty token. |
| TagString.WrappedWordToken | app.py:20 | A word wrapped in spaces and quotes yields the bare word. |
| TagString.WhitespaceTextGivesNothing | app.py:17-20 | Empty or whitespace-only text yields no tokens. |
| TagString.BracketedText | app.py:17-20 | Text whose whitespace-stripped form is `[body]` is parsed as `body`. |
| TagString.UnbracketedText | app.py:17-19 | Stripped text that does not both start with `[` and end with `]` keeps its brackets and is parsed as it stands. |
| TagString.EmptyLiteralGivesNothing | app.py:17-20 | `"[]"` and `""` yield no tokens. |
| TagString.NestedBracketsKeepInner | app.py:18-19 | Only one layer of brackets comes off: `"[[w]]"` yields the single token `"[w]"`. |
| TagString.QuotedEmptyGivesEmptyToken | app.py:20 | `"[" + q + "]"`, where `q` is quotes and spaces and not whitespace-only, yields `[""]`. `"['']"` is an instance. |
| TagString.TabsSurvivePieceTrim | app.py:20 | Tabs are not trimmed from pieces: `"[\tw\t]"` yields `"\tw\t"`. |
| TagString.SplitDoubleComma | app.py:20 | `a + ",," + b` splits into `[a, "", b]`. |
| TagString.EmptyMiddleDropped | app.py:20 | The empty piece between two words is dropped. |
| TagString.EmptyPiecesDropped | app.py:17-20 | `a + ",," + b` yields `[a, b]`. |
| TagString.TwoItemLiteral | app.py:17-20 | The list literal `"['a', 'b']"` yields `[a, b]`. |
| TagString.TwoItemText | app.py:17-20 | The comma-separated text `"a, b"` yields `[a, b]`. |
| TagString.MissingCellGivesNothing | app.py:23 | A missing cell contributes no tokens. |
| TagString.BuildTagStringParts | app.py:22-23 | The tag string is the ingredients' join, then the tags' join, with one space between them when both are non-empty. |
| TagString.TagStringSplitsBack | app.py:22-23 | When the tokens are non-empty and free of spaces, splitting the tag string at spaces gives back the ingredient tokens followed by the tag tokens. |
| TagString.FourWordTagString | app.py:22-23 | Ingredients `"['a', 'b']"` and tags `"c, d"` give `"a b c d"`. |
| TagString.ChickenBasilExample | app.py:22-23 | Ingredients `"['chicken', 'basil']"` and tags `"spicy, easy"` give `"chicken basil spicy easy"`. |
| Recommend.InteractKey | app.py:28 | The key is `'recipe_id'` exactly when that column exists, and `'id'` otherwise. |
| Recommend.AssembleResults | app.py:46-53 | The loop returns the reference results. There is one record per zipped pair, `min(len(scores), len(idxs))` in all. Record `i` is `titles[idxs[i]]`, `ratings[idxs[i]]`, `scores[i]`. |
| Recommend.ResultsLength | app.py:47 | The reference results have one record per pair of `zip(scores, idxs)`. |
| Recommend.ResultsAt | app.py:47-52 | Reference record `i` is built from the `i`-th score and the `i`-th index. |
| Recommend.ResultsKeepOrder | app.py:46-53 | The scores of the records are the search's scores, in the search's order, with no re-sorting. |
| Recommend.ResultsFromTable | app.py:49-50 | Every record's title and rating are those of one row of the recipe table. |

## Left out

- Loading the CSV files, the sentence-embedding model and the vector index
  (app.py:10-11, 35-36): file I/O.
- Rating aggregation with `groupby().mean()`, `merge` and
  `fillna(mean())` (app.py:29-32). These are floating-point means over
  library table operations, whose handling of missing values is not part of
  this model. Only the choice of join key (app.py:28) is modelled.
- `SentenceTransformer.encode` and the index search (app.py:44-45) are
  foreign calls. Their outputs, the scores and row indices, are inputs to
  `AssembleResults`.
- TagString.ToList: cells are modelled as lists of strings or as strings,
  so `str(...)` is the identity. The coercion of other values is not
  modelled. For example, a missing pandas value becomes the text `"nan"`
  and then the token `["nan"]`.
- Recommend.AssembleResults: its precondition requires every zipped index
  to lie in `0 <= idx < len(titles)`. The index pads a short answer with
  `-1`, which Python's negative indexing would silently map to the last
  recipe. That behaviour is not modelled.
- Recommend.AssembleResults: scores and ratings are `real`, and `float()`
  is the identity. Single- and double-precision rounding is not modelled.
- The Flask route and the HTML template (app.py:56-97): the web layer.
- The `apply` over all rows and the `tolist` conversions (app.py:25,
  38-40): table plumbing with no logic of its own.
