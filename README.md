# Joke recommender core, modelled in Dafny

This project models the recommendation core of the joke-recommender web site: the class
`JokeRecommender` in `your-humor-flask/joke_recommender.py`. It covers these parts:

- **Joke catalog.** The identifiers `joke_1` .. `joke_N`, one per row of the joke table. The
  model also covers how an identifier is read back as a row index (`int(id.replace("joke_", "")) - 1`).
- **Dispatch.** `get_joke` counts the user's rows in the table of ratings added since start-up.
  Below 10 rows it takes the cold-start branch; from 10 on it takes the warm branch.
- **Cold start.** The answer is some joke of the catalog for which this user has no row. It is an
  error when there is none.
- **Warm path.** The model retrains the user's factors on exactly the user's rows. It then asks for
  one recommendation, with `items_known` set to the items of those rows.
- **Construction.** The catalog is built, and the loaded model is updated with the start-up ratings
  when that table is not empty.
- **Content pseudo-ratings.** Each common word acts as a virtual user and rates 10 every joke whose
  lower-cased text contains the word.
- **Evaluation filter.** The offline evaluation keeps only users with more than one rating.

The matrix-factorisation library is an external collaborator. `Factorization.FactorizationModel`
holds its state abstractly: the snapshot it was loaded from, plus the log of every
`update_users` call since. Each call in the log also records a random draw, which stands for the
library's own random initialisation. `recommend` is an injected function of that state and the
call's arguments, so the model claims nothing about what the library ranks.
`random.choice` is a nondeterministic pick (`:|`) from the unseen set.

Files:

- `wrappers.dfy`: `Option` and `Result`.
- `joke_ids.dfy`: module `JokeIds`, covering identifiers, decimal formatting and parsing, and the catalog.
- `rating_tables.dfy`: modules `RatingTables` and `Evaluation`, covering rating rows, per-user counting and filtering, and the evaluation filter.
- `content_matrix.dfy`: module `ContentMatrix`, the specification of the pseudo-rating table.
- `factorization.dfy`: module `Factorization`, the abstract model state.
- `recommender.dfy`: module `Recommender`, with the errors, the dispatch and cold-start functions, and the class `JokeRecommender`.

## Model

| member | source | states |
|---|---|---|
| JokeIds.Digits | your-humor-flask/joke_recommender.py:18 | The number in an identifier is written in decimal digits only. Its first digit is `0` only for the number 0. |
| JokeIds.DigitsRoundTrip | your-humor-flask/joke_recommender.py:47 | Reading back the digits written for n gives n. |
| JokeIds.StripDigits | your-humor-flask/joke_recommender.py:47 | `replace("joke_", "")` leaves a string of digits unchanged. |
| JokeIds.JokeIdRoundTrip | your-humor-flask/joke_recommender.py:47 | Parsing `joke_n` with `int(id.replace("joke_", "")) - 1` gives index n - 1. |
| JokeIds.JokeIdInjective | your-humor-flask/joke_recommender.py:18 | Distinct rows get distinct identifiers. |
| JokeIds.CatalogIndex | your-humor-flask/joke_recommender.py:17-18 | A catalog identifier parses to an index in [0, N) and is that row's identifier. |
| JokeIds.CatalogSize | your-humor-flask/joke_recommender.py:17-18 | The catalog of an N-row joke table holds exactly N identifiers. |
| RatingTables.UsersInMembers | your-humor-flask/joke_recommender.py:90 | A user filter keeps a row if and only if the row's user is in the kept set. |
| RatingTables.UsersInIsSubsequence | your-humor-flask/joke_recommender.py:90 | The filtered rows keep their original order: the result is a subsequence of the table. |
| RatingTables.UsersInConcat | your-humor-flask/joke_recommender.py:55 | Filtering a concatenation is the concatenation of the filtered parts. |
| RatingTables.UsersInCount | your-humor-flask/joke_recommender.py:90 | A kept user's row count is unchanged by the filter. A dropped user's count becomes 0. |
| RatingTables.UsersInNone | your-humor-flask/joke_recommender.py:55 | A table with no row of a kept user filters to nothing. |
| RatingTables.RowsOfCount | your-humor-flask/joke_recommender.py:73 | The user's rows (`rows[rows.user_id == user]`) are exactly as many as `(rows.user_id == user).sum()`, and all of them are the user's. |
| RatingTables.UserItems | your-humor-flask/joke_recommender.py:44-45 | An item is among the items of the user's rows if and only if some row of the table pairs that user with that item. As a set, `items_known` holds the same items. |
| Evaluation.RepeatUsersIff | your-humor-flask/joke_recommender.py:89-90 | A user is in `counts.index[counts.gt(1)]` if and only if the user has more than one row. |
| Evaluation.EvaluationDataKeeps | your-humor-flask/joke_recommender.py:88-90 | The evaluation data keeps exactly the rows whose user has more than one rating, in their original order. Every kept user keeps all of their rows. |
| Evaluation.EvaluationUsersRepeat | your-humor-flask/joke_recommender.py:89-90 | Every user left in the evaluation data has at least two rows there. |
| ContentMatrix.WordRowsMembers | your-humor-flask/joke_recommender.py:33-35 | A word's row for joke j exists if and only if the word occurs in joke j's lower-cased text. |
| ContentMatrix.WordRowsAscending | your-humor-flask/joke_recommender.py:33-35 | Within one word, the rows name jokes in strictly increasing row order, and every row names an existing joke. |
| ContentMatrix.WordRowsCount | your-humor-flask/joke_recommender.py:33-35 | A word contributes one row per joke it matches. |
| ContentMatrix.ContentRatingsMembers | your-humor-flask/joke_recommender.py:31-35 | A row is in the table if and only if it is (w, joke_{j+1}, 10) for a listed word w that occurs in the lower-cased text of joke j. |
| ContentMatrix.ContentRatingsAllTen | your-humor-flask/joke_recommender.py:35 | Every pseudo-rating is 10, and its user is one of the listed words. |
| ContentMatrix.ContentRatingsCount | your-humor-flask/joke_recommender.py:32-35 | The table has exactly one row per matching (word, joke) pair. |
| ContentMatrix.ContentRatingsConcat | your-humor-flask/joke_recommender.py:32 | The table is word-major: the rows of earlier words all come before the rows of later words. |
| Factorization.FactorizationModel.Load | your-humor-flask/joke_recommender.py:19 | A freshly loaded model has no update applied. |
| Factorization.FactorizationModel.UpdateUsers | your-humor-flask/joke_recommender.py:21-23 | An update appends exactly one call, with the given rows, learning rate and epochs, to the model's history. Earlier history is unchanged. |
| Recommender.JokeForRow | your-humor-flask/joke_recommender.py:47-48 | Looking up `joke_n` gives row n - 1's text when 1 <= n <= N. Otherwise the lookup fails with an unknown-item error. |
| Recommender.JokeForCatalog | your-humor-flask/joke_recommender.py:46-48 | Every catalog identifier `joke_n` finds the text of row n - 1. |
| Recommender.ColdStartIff | your-humor-flask/joke_recommender.py:69-74 | The cold-start branch is taken if and only if the user has fewer than 10 rows in the added ratings. An empty table counts as 0 rows. So 9 rows means cold start and 10 means warm. |
| Recommender.UnseenMembers | your-humor-flask/joke_recommender.py:42-45 | A joke is a cold-start candidate if and only if it is in the catalog and no row of this user names it. |
| Recommender.OtherUsersDoNotShrink | your-humor-flask/joke_recommender.py:44-45 | Adding rows of other users leaves the user's candidate set unchanged. |
| Recommender.UnseenEmptyIff | your-humor-flask/joke_recommender.py:45-46 | No candidate remains if and only if the user has a row for every catalog joke. |
| Recommender.WarmAnswerMeaning | your-humor-flask/joke_recommender.py:60-63 | The warm answer is the single recommended item with its row's text. It is an error when `recommend` returns no item or several. It succeeds when the single item is a catalog identifier. |
| Recommender.JokeRecommender.constructor | your-humor-flask/joke_recommender.py:14-23 | The catalog is exactly `joke_1` .. `joke_N` for the N joke texts. The loaded model gets one update with all start-up ratings (lr 0.001, 20 epochs) if and only if that table is not empty. |
| Recommender.JokeRecommender.SaveContentMatrix | your-humor-flask/joke_recommender.py:26-36 | The nested loops build exactly the pseudo-rating table specified by `ContentRatings`. |
| Recommender.JokeRecommender.RandomNewJoke | your-humor-flask/joke_recommender.py:38-48 | The result is `NoUnseenJokes` if and only if no catalog joke is unseen by the user. Otherwise it is some unseen `joke_n` with row n - 1's text. Nothing is modified. |
| Recommender.JokeRecommender.RecommendedJoke | your-humor-flask/joke_recommender.py:50-63 | The model is updated once with exactly this user's rows (lr 0.001, 20 epochs). The answer is then the lookup of what `recommend` returns for this user, with `items_known` = those rows' items, `amount` 1 and `include_user` false. |
| Recommender.JokeRecommender.GetJoke | your-humor-flask/joke_recommender.py:65-79 | Below 10 rows for the user, the model is untouched and the answer is a cold-start answer. From 10 on, the answer is the warm path's, with its one update. |

## Left out

- Reading the CSV files and unpickling the model (lines 16, 19, 30, 88). The joke texts, the
  common words, the start-up ratings and the loaded model are parameters.
- `print` logging, and the pandas column renaming and `astype` conversions (lines 15, 24, 71-72,
  75, 78, 104).
- The internals of `KernelMF` (`fit`, `update_users`, `predict`, `recommend`). They belong to an
  external library. `recommend` is an injected function of the abstract model state.
  Nothing is claimed about which items it ranks, or whether it excludes known items.
- The randomness of `random.choice`, modelled only as "some element of the unseen set". It is not
  modelled as uniform.
- Everything in `evaluate_model` after the user filter. That is the split (`train_update_test_split`,
  an external library call), the concatenation of content ratings into the initial training set, the
  fit and update of a fresh model, predictions, RMSE and normalised RMSE (floating point), and the
  plot (lines 92-131).
- JokeIds.ParseInt: Python's `int()` also accepts surrounding whitespace, a sign and underscores
  between digits. The model accepts only non-empty ASCII digit strings and reports anything else as a
  malformed identifier.
- ContentMatrix.Lower: `str.lower()` is modelled for ASCII letters only. Non-ASCII case mapping is
  not modelled.
- ContentMatrix.PseudoRating: `np.array([word, id, 10])` stores the rating as the string `"10"`,
  which later becomes the float 10. The model stores the number 10 directly.
- Factorization.FactorizationModel.UpdateUsers: the library calls `update_users` and `recommend` are
  modelled as never raising. In the code, an exception from `update_users` (lines 21, 56) or from
  `recommend` (line 60) propagates to the caller of `__init__` or `get_joke`; the model has no error
  path for it.
- Factorization.FactorizationModel.UpdateUsers: keeping the pandas frames `X` and `y` apart is not
  modelled. The call receives the rating rows themselves.
