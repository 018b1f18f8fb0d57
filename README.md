# Query resolver: match selection

A model of what the Bi-LSTM query resolver does once a query distance is known.
The resolver answers a free-text query from a fixed table of question/answer rows:

1. It loads the table into two parallel lists, one of questions and one of answers.
2. It scores every stored question against the query.
3. It takes the first index of the smallest distance.
4. It sets a confidence flag to 1 when that distance is at most 0.8 and to 0 otherwise.
5. It returns the flag with the question and the answer at that index.

The sentence encoder behind the distance is a parameter of the model, `Distance`.
It is any total function from (stored question, query) to a real number.
Nothing is assumed about it: it need not be symmetric, and the distance from a string to itself need not be zero.

- `database.dfy`, module `Database`: a table row (`Row`), the loop that builds the two lists from the rows (`BuildLists`), and its inverse (`Zip`), which pairs the lists back into rows.
- `match_selection.dfy`, module `MatchSelection`:
  - `Min` and `IndexOf` model the list minimum and the first-index lookup that the selection uses.
  - `GetBestMatch` is the selection itself, with the scoring loop.
  - `ResolveQuery` runs list building and then selection.
  - `RepeatedMatchesAgree` shows that repeated queries give the same result.
  - The declarative specification is made of three predicates: `IsFirstMinimum`, `ConfidenceFor` and `SelectedAt`.

The source's failures are modelled as `Err` results, not as preconditions:

- `NoCandidates`: the minimum of an empty distance list raises an error.
- `AnswerIndexOutOfRange`: the answer list may have no entry at the selected index.

Lists built from the rows can never give `AnswerIndexOutOfRange`. `ResolveQuery` proves this.

The lists are immutable sequence values, so "neither list is modified" holds by construction.

## Model

| member | source | states |
|---|---|---|
| Database.BuildLists | similaritymodel.py:89-93 | both lists have one entry per row; entry i of the question list is row i's Question and entry i of the answer list is row i's Answer, in row order; pairing the lists back gives exactly the rows |
| Database.Zip | similaritymodel.py:89-93 | pairing two equal-length parallel lists gives one row per index, built from the entries at that same index (the alignment the two lists keep) |
| MatchSelection.Min | similaritymodel.py:122 | the minimum of a non-empty distance list is one of its elements and is no larger than any element |
| MatchSelection.IndexOf | similaritymodel.py:122 | the lookup of a value present in the list gives an in-bounds index holding that value, with no earlier index holding it |
| MatchSelection.FirstMinimumUnique | similaritymodel.py:122 | at most one index is both minimal and earlier than every other minimal index, so "first index of the minimum" names one index |
| MatchSelection.GetBestMatch | similaritymodel.py:118-127 | the result is `NoCandidates` exactly when there are no candidates. Otherwise let k be the index whose distance dist(question k, query) is minimal, with every earlier candidate strictly farther. The result is `AnswerIndexOutOfRange` exactly when the answer list is too short for k. Otherwise it is the match at k: question k, answer k, and confidence 1 if that distance is at most 0.8 and 0 if it is above. Lists with at least as many answers as candidates always give a match |
| MatchSelection.ResolveQuery | similaritymodel.py:89-127 | with lists built from the rows, the result is `NoCandidates` exactly when the table is empty and is never `AnswerIndexOutOfRange`. A returned question and answer are one whole row of the table, the first row whose question is nearest, with the flag from the inclusive 0.8 threshold |
| MatchSelection.RepeatedMatchesAgree | similaritymodel.py:118-127 | issuing the same query twice against the same lists and distance gives identical results |

## Left out

- The sentence encoder is not modelled: the recurrent network, the pretrained tokenizer and embedding model, and the pairwise Euclidean distance (similaritymodel.py:32-55, 97-114). They are floating-point tensor numerics in an external library, so the distance is the opaque parameter `Distance`.
- Floating point: distances are exact reals. Two effects of the source's single-precision tensors are not captured: a NaN distance, and rounding in the comparison with 0.8.
- Reading the table from a CSV file, storage mounting, package installation, device selection and weight loading are not modelled (similaritymodel.py:12-15, 59, 66-69, 80-83, 87-88). They are I/O. The table is given as a sequence of rows, and missing cells (which the CSV reader would turn into NaN) are not represented.
- The demonstration call and its printing are not modelled (similaritymodel.py:131-134). They are I/O.
- The source keeps the lists as module-level globals. Here they, and the distance, are passed to the selection as arguments.
- MatchSelection.IndexOf: requires the value to be in the list, where the library lookup would raise an error. The only caller passes the list's own minimum, which is always present.
