# Movie recommender: the recommendation step, in Dafny

The repository is a movie-recommendation web page. The user picks a title,
the page looks up that movie's row in a precomputed similarity matrix, ranks
the catalog by similarity, keeps up to five movies, and fetches a detail record
(title, poster, plot, cast, director, genre, year, rating) for each one from
the OMDb movie database. This project models that step and proves what it
computes. The step is `recommend` together with the mapping inside
`fetch_movie_details_from_omdb` from the database's answer to a detail record.

- `movie_details.dfy`, module `MovieDetails`, is written as pure functions.
  `Detail` is the eight-field record. `Outcome` is what the HTTP request
  produced: either `TransportError` (any request exception) or
  `Payload(data)`, the decoded JSON object as a `map<string, string>`.
  `FetchDetails` picks the branch: not found when `Response` is absent or
  `"False"`, a record built from the payload otherwise, and the
  connection-error sentinel on a transport failure.
- `recommender.dfy`, module `Recommender`, holds the catalog and the ranking.
  `Catalog` is the loaded snapshot: titles plus a square similarity matrix.
  `FindRow` is the lookup by exact title. `IsRanking` specifies the stable
  descending sort of the row's `(index, score)` pairs. `RankIndices` is an
  insertion-sort method proved against that specification. `Selection` is the
  slice `[1:6]`. `Recommend` is the method that builds the record list with a
  loop, as the source does.

`Recommend` takes the movie database as a parameter, `provider: string ->
Outcome`, which gives the outcome of the request made for a title. When the
title is not in the catalog, the source's `.index[0]` raises. The model shows
this as the result `None`, and `Recommend` proves that `None` happens exactly
when the title is absent.

Some behaviour of `recommend` is easy to misread; the model follows the code:

- Failed lookups are not skipped. Every selected row yields a record: a
  sentinel record on not-found or on a transport failure.
- The queried movie is removed by position: the first ranked entry is
  dropped. It is not removed by identity. `TiedMaximumKeepsQuery` shows
  that the query row is then selected when one earlier row ties with its
  top score.
- An unknown title makes the lookup raise. The result is not an empty list.
- Title matching is exact. It is not case-insensitive and not a substring
  match.
- At most five records are returned (the slice `[1:6]`).

Python's `sorted(..., key=score, reverse=True)` is a stable sort, and its
result depends only on the scores. `RankIndices` produces a sequence
satisfying `IsRanking`, and `RankingUnique` proves there is no other. So the
insertion sort used here gives the same order that Python's sort gives,
although the two algorithms differ.

## Model

| member | source | states |
|---|---|---|
| `Recommender.FindFrom` | app.py:57 | the first row at or after `start` whose title equals the query; no row exactly when none of those rows matches |
| `Recommender.FindRow` | app.py:57 | the query row is the smallest row whose title equals the query exactly, so `titles[FindRow(t)] == t`; no row exactly when the title is absent (never a default row 0) |
| `Recommender.RankIndices` | app.py:59 | returns a permutation of all row numbers `0..N-1`, ordered by non-increasing score, with equal scores in ascending row order |
| `Recommender.RankingsAgreeUpTo` | app.py:59 | two sequences that are both stable descending rankings of one row agree on every prefix |
| `Recommender.RankingUnique` | app.py:59 | the stable descending ranking is unique, so the output of the sort is reproducible |
| `Recommender.Selection` | app.py:59 | the slice `[1:6]`: length `min(5, max(0, N-1))`, and entry k is ranked entry k+1 |
| `Recommender.SelectionOfRanking` | app.py:59 | the selected rows are distinct, lie in `[0, N)`, number `min(5, max(0, N-1))`, and never include the first ranked row |
| `Recommender.StrictMaximumExcludesQuery` | app.py:59 | if the query row scores strictly higher than every other row, it is ranked first and is not selected |
| `Recommender.TiedMaximumKeepsQuery` | app.py:59 | removal is by position: when exactly one earlier row ties the query row at the top score, that row is ranked first and dropped, and the query row is ranked second and selected |
| `Recommender.TiedMaximumSelectsQuery` | app.py:59 | the query is row 1 with similarity row `[7, 7]`: the ranking is `[0, 1]` and the query row 1 is selected |
| `Recommender.StableTieBreakExample` | app.py:59 | for scores `[10, 9, 9, 1]` the ranking is rows 0, 1, 2, 3 (tie kept in row order) and the selection is rows 1, 2, 3 |
| `Recommender.Recommend` | app.py:56-63 | result absent exactly when the title is not in the catalog; otherwise `min(5, max(0, N-1))` records, one per selected row of the query row's ranking, in rank order, each fetched for that row's title |
| `MovieDetails.FromPayload` | app.py:25-37 | for a found movie, each field is its payload value when present, else its default (`Title` defaults to the queried title); the poster is the placeholder when the payload's is absent, empty or "N/A", and the payload's value otherwise |
| `MovieDetails.FetchDetails` | app.py:7-48 | transport failure gives the connection-error sentinel; a `Response` absent or "False" gives the not-found sentinel; any other payload gives the record built from it; the poster is never empty or "N/A" |
| `MovieDetails.NotFoundSentinel` | app.py:14-24 | a not-found answer gives the queried title, the placeholder poster, "No plot available.", "Unknown" cast and director, and "N/A" genre, year and rating |
| `MovieDetails.ConnectionErrorSentinel` | app.py:38-48 | a transport failure gives the same sentinel with the plot "No plot available due to connection error." |
| `MovieDetails.PosterPlaceholderIff` | app.py:25-27 | for a found movie the poster is the placeholder exactly when the payload's poster is absent, empty, "N/A", or the placeholder URL itself |
| `MovieDetails.AllFieldsPopulated` | app.py:14-48 | on every branch all eight fields are non-empty, given a non-empty title and non-empty payload values |
| `MovieDetails.FailureBranchesDifferInPlotOnly` | app.py:14-48 | the not-found and the connection-error records differ, and only in the plot |

## Left out

- The page itself is not modelled: configuration, CSS, headings, the static poster lists and the grid rendering (app.py:65-185). It is presentation only. The title select box (app.py:168-177) always passes a catalog title.
- Loading `movies_dict.pkl` and `similarity.pkl` is not modelled (app.py:50-53). It is file I/O over serialized data. The catalog is an input, and `Catalog.Valid` requires a square matrix aligned with the titles.
- The HTTP request, the API key and the URL are not modelled (app.py:8-13). They are network I/O through a foreign library. Only the outcome is modelled: a payload map or a transport error.
- Payload values are modelled as strings. A JSON value of another type, such as `null` or a number, is not modelled. A null `Poster` would also give the placeholder, like an absent one.
- Similarity scores are integers, not floating-point numbers, because the code only compares them. NaN scores are not modelled.
- Recommend: the provider is a function of the title, so two requests for the same title in one call get the same answer. The real network may answer such requests differently.
- Recommend: `RankIndices` is an insertion sort, while Python uses its own sort (Timsort). Both produce the unique stable descending ranking (`RankingUnique`), so they agree on the result but not on the steps taken.
- Exceptions other than a failed request are not modelled. One example is a JSON body that is not an object.
