# Source-finder ranking core, modelled in Dafny

The application is a keyword search over a curated catalog of information
sources: government portals, research firms, newsletters and so on. Each
catalog row has a `category`, `site_name`, `url`, `short_desc` and `tags`.
A query is scored against every row. Rows of some categories are then boosted
by a multiplicative weight. Those categories are chosen by hand, or detected
from the query through a static synonym table. Finally the rows are ranked
by score descending, then site name ascending, with a stable sort.

This project models that pipeline, one module per component:

- `StrOrder` (`strorder.dfy`): Python's code-point order on strings, the
  order pandas uses for `site_name`. It is proved irreflexive, asymmetric,
  transitive and total.
- `Catalog` (`catalog.dfy`): the catalog entry and the column check and fill
  step of `load_sources`. The table is a class `Frame` whose columns the fill
  loop overwrites in place. A cell is a string or missing (pandas' NaN), and
  so is each field of an entry: an uploaded CSV reaches the ranking without
  passing through `load_sources` (app.py:141-143), so its empty cells stay
  missing.
- `Synonyms` (`synonyms.dfy`): the `CATEGORY_SYNONYMS` table as an ordered
  sequence of (label, synonyms) rows, lower-casing, the substring test, and
  `expand_query_with_synonyms` as a loop proved equal to a specification
  function (`Detect`). Lemmas state exactly when a category is detected,
  that detected categories keep table order, that none repeats, and when
  the result is empty.
- `Ranking` (`ranking.dfy`): the boost set, the multiplier loop, an
  insertion sort on an array of scored rows, and `score_and_rank` once the
  similarities are known. Each scored row carries its catalog position, so
  stability is a proved property: rows equal on both keys keep catalog
  order. A missing site name sorts after every present one among equal
  scores (pandas' `na_position="last"`), and a missing category is never
  boosted. The ranking is proved to be a permutation of the rows and to be
  unique: any two sequences that meet its ordering over the same rows are
  equal.
- `UrlCheck` (`urlcheck.dfy`): the scheme test of `check_url_status`, with the
  HEAD request's outcome passed in as a parameter.

The similarity of the query to each row is an input, a `seq<real>` aligned
with the rows. In the source it comes from scikit-learn's TF-IDF vectoriser
and cosine similarity.

Two facts about the code that the model keeps:

- The detector returns a list of labels in table order, not a set, and
  `Detect` and its lemmas say so.
- No member checks the boost weight, because the code never validates it:
  only the UI slider at app.py:168 bounds it.

## Model

| member | source | states |
|---|---|---|
| `StrOrder.LessTotal` | app.py:117 | two different site names are always ordered one way or the other, so the secondary sort key is total |
| `StrOrder.LessTransitive` | app.py:117 | the string order used for `site_name` is transitive |
| `Ranking.NameLessTotal` | app.py:117 | two different site-name cells (a string or missing) are always ordered one way or the other, with a missing name after every present one |
| `Ranking.NameLessTransitive` | app.py:117 | the site-name order, missing names last, is transitive |
| `Ranking.NameLess` | app.py:117 | the ascending site-name key with `na_position="last"`: only a present name is smaller than another cell, a present name is smaller than a missing one, and two present names compare as strings |
| `Catalog.MissingColumns` | app.py:41-44 | the result holds exactly the required names absent from the columns, in strictly ascending order (`sorted(miss)`); it is empty exactly when all five are present |
| `Catalog.FillNa` | app.py:47 | `fillna("")` keeps the column's length, keeps every string cell and turns every missing cell into the empty string |
| `Catalog.Frame.FillRequired` | app.py:46-47 | the loop over the five columns replaces each required column by its filled version and leaves every other column alone |
| `Catalog.Frame.Entries` | app.py:114 | the rows of the table as entries, field by field from the five columns; once the table is filled, no field of any entry is missing |
| `Catalog.Frame.LoadSources` | app.py:41-48 | with a required column absent, it fails with the sorted missing names and leaves the table unchanged; otherwise each required column is filled and holds only strings, and the other columns are untouched |
| `Synonyms.Lower` | app.py:81 | lower-casing keeps the length and maps each character through the case folding |
| `Synonyms.Contains` | app.py:84 | Python's `in` on strings holds exactly when the needle occurs at some position of the haystack |
| `Synonyms.CategorySynonyms` | app.py:22-30 | the synonym table as an ordered sequence of (label, synonyms) rows: the seven labels and their trigger words, in the dictionary's insertion order |
| `Synonyms.Selected` | app.py:84 | a table row is selected exactly when one of its lower-cased synonyms, or its lower-cased label, occurs at some position of the lower-cased query |
| `Synonyms.ExpandQuery` | app.py:80-86 | returns the query unchanged, plus the labels of the selected table rows in table order |
| `Synonyms.DetectMember` | app.py:83-85 | a label is detected exactly when some table row carries it and either a lower-cased synonym or the lower-cased label is a substring of the lower-cased query |
| `Synonyms.DetectEmpty` | app.py:82-86 | nothing is detected exactly when no row of the table matches |
| `Synonyms.DetectInTableOrder` | app.py:83-85 | any two detected labels come from table rows in the same relative order |
| `Synonyms.DetectNoDuplicates` | app.py:83-85 | with distinct labels in the table, no category is detected twice |
| `Synonyms.CategorySynonymsLabelsDistinct` | app.py:22-30 | the seven labels of the synonym table are distinct |
| `Synonyms.MarketQueryDetectsPublicData` | app.py:23 | the query "상권 분석" is routed to "정부·공공 데이터" through the synonym "상권" |
| `Ranking.BoostSet` | app.py:106 | a category is in the boost set exactly when it is a manual category or a detected one |
| `Ranking.RequestBoostSet` | app.py:100-106 | the boost set of a request holds every manual category; without auto-boost it holds nothing else, and with it exactly the manual and the detected categories |
| `Ranking.RequestBoostSetCases` | app.py:100-106 | without auto-boost the boost set is exactly the set of manual categories; with it, a category is boosted exactly when it is manual or its synonym-table row matches the query |
| `Ranking.HitCountAtMostOne` | app.py:106-111 | the number of boost-set members equal to a row's category is 1 when the category is a string in the boost set and 0 otherwise, so 0 for a missing category |
| `Ranking.Boosted` | app.py:111 | a row's category cell is boosted exactly when it equals some member of the boost set, so a missing category never is |
| `Ranking.BoostedAt` | app.py:107-112 | in the general form `sim[i] * (1+w)^k`, the score of a row whose category is in the boost set is `sim[i] * (1 + w)`; every other row, including one with a missing category, keeps `sim[i]` |
| `Ranking.BoostWithoutEffect` | app.py:107-112 | with weight 0, or with no row carrying a boosted category (which includes an empty boost set), every score is the raw similarity |
| `Ranking.ScaleCategory` | app.py:111 | one step of the loop, over every row: a multiplier is scaled by `1 + w` exactly when the row's category equals the given category, and kept otherwise |
| `Ranking.Boost` | app.py:107-112 | the multiplier loop over the boost set produces, for every row, `sim[i] * (1 + w)` when its category is boosted and `sim[i]` otherwise |
| `Ranking.Scored` | app.py:114-115 | attaching the scores gives one record per row, in catalog order, with the row's position, entry and score |
| `Ranking.Precedes` | app.py:117 | the two-key sort order: a higher score goes first, a lower score never does, and equal scores are ordered by the site-name key |
| `Ranking.Insert` | app.py:117 | one insertion step extends the ranked prefix by the next row, permuting the array and leaving the rest alone |
| `Ranking.SortRanked` | app.py:117 | the array ends up ordered by score descending, then site name ascending, then catalog position, and is a permutation of its initial contents |
| `Ranking.Rank` | app.py:114-117 | the sorted copy is ranked and holds the same rows as the scored frame |
| `Ranking.RankedHasKeyOrder` | app.py:116-117 | in a ranking, scores never increase; equal scores come by ascending site name; rows equal on both keys keep their catalog order |
| `Ranking.MissingNameRankedLast` | app.py:117 | among rows of equal score, a row with a missing site name is followed only by rows whose site name is missing too |
| `Ranking.MissingNameOrderDependsOnLoading` | app.py:141-143 | of two rows with equal scores, one without a site name and one with, the ranking of the unfilled rows puts the named row first; after `fillna("")` the first row is named "" and comes first |
| `Ranking.RankingCoversEachRowOnce` | app.py:114-118 | a ranking of the scored rows has the catalog's length, holds every catalog row (zero-score rows included) with its own entry and score, and holds no row twice |
| `Ranking.RankingIsUnique` | app.py:116-117 | two rankings of the same rows are identical, so the output order is fully determined by the two keys and the catalog order |
| `Ranking.ZeroWeightSameRanking` | app.py:107-117 | with boost weight 0 the ranking is exactly the unboosted ranking |
| `Ranking.ScoreAndRank` | app.py:91-118 | the output is a permutation of all rows that is ranked; each output row keeps its own entry, and its score is `sim * (1 + w)` when its category is a string that is manual or (with auto-boost) detected, `sim` otherwise (a missing category included); scores never increase, equal scores come by ascending site name with missing names last, and full ties keep catalog order |
| `Ranking.RankLoaded` | app.py:38-48 | a table that goes through `load_sources` before ranking either fails with the sorted missing columns, ranking nothing and leaving the table as it was, or fills exactly the table's own required columns (each missing cell becomes `""`) and ranks the rows of that filled table as `ScoreAndRank` ranks them; every ranked row then has a site name and a category, and equal scores come by ascending name as a string |
| `UrlCheck.CheckUrlStatus` | app.py:123-130 | a URL that is empty or lacks an `http://`/`https://` prefix is "N/A"; otherwise the status is the probe's code, or the error marker when the probe failed |

## Left out

- TF-IDF vectorisation and cosine similarity (`build_vectorizer`, app.py:69-78, 102-103) are scikit-learn calls over floating point. The similarity vector is an input to `Ranking.ScoreAndRank`, one value per row.
- CSV reading (app.py:39, 143) and the sample-data fallback `ensure_sources` (app.py:50-63) are file I/O and static data. A `Catalog.Frame` is built from an already-read table.
- The HEAD request of `check_url_status` (app.py:126-130) is network I/O, and so is its exception handling. Its outcome is the `probe` parameter.
- The Streamlit UI (`main`, app.py:135-251) is not modelled. That covers the widgets, the top-K and per-category truncation, the grouped rendering, the percentage formatting, the CSV download and `st.cache_data`.
- The `st.cache_data` decorator on `load_sources` and `build_vectorizer` is caching only. It does not change results.
- The boost weight's range is not modelled. The code never validates it; only the slider at app.py:168 bounds it.
- `manual_boost_cats` may be `None` in the source. `None or []` is the empty list (app.py:100), so the model takes a sequence and callers pass `[]` for `None`.
- `Synonyms.Lower`: folds only the ASCII capitals `A`-`Z`. Python's `str.lower` folds every Unicode cased letter, and a few characters change length when folded. The words of the synonym table are Hangul, ASCII and the uncased middle dot U+00B7, so the model lowers them as Python does. The query is free text, though, and lowered by the same `str.lower` (app.py:81). So a query holding a non-ASCII cased letter can be detected differently. For the query "KDİ", Python lowers U+0130 to "i" plus U+0307, the result contains "kdi", and the source detects "정부·공공 데이터". The model keeps U+0130 and does not match "kdi". U+212A KELVIN SIGN, which Python lowers to "k", is another such letter.
- `Ranking.Boost`: scores are mathematical reals, not IEEE doubles. Rounding in `sim * (1 + w)` is not modelled, and neither is NaN.
- `Ranking.SortRanked`: stability is stated through the row's catalog position, which it requires to equal the array position initially. In the source, the frame's default index after `read_csv` is likewise 0..n-1.
- `Ranking.ScoreAndRank`: it takes rows whose fields are strings or missing, as both the loaded path and the upload path (app.py:141-143) give them. An uploaded table that lacks a column `build_vectorizer` does not read, such as `url`, is not modelled: its entries would need a field for an absent column. A table that lacks one of the four columns `build_vectorizer` reads stops at app.py:153-157, before ranking.
- `Catalog.Frame.LoadSources`: cells are strings or missing. A CSV column that pandas parses as numbers is not modelled: `fillna("")` leaves its numbers as numbers. Duplicate column names are not modelled either.
- `UrlCheck.CheckUrlStatus`: it takes a string. On the upload path (app.py:141-143), an empty `url` cell reaches `check_url_status` (app.py:205) as NaN; `not url` is false for NaN, so `url.startswith` at app.py:124 raises outside the `try`. A URL that is not a string is not modelled.
- The error message text of app.py:44 is not modelled, only the sorted list of missing names it carries.

## Findings

| source | as written | input that shows it | evidently intended | confidence | as-written member | corrected member |
|---|---|---|---|---|---|---|
| app.py:141-143 | an uploaded CSV is read with `pd.read_csv` and passed to `build_vectorizer` and `score_and_rank` without `load_sources`, so there is no column check and no `fillna("")` | a query sharing no term with either row, so both rows score 0 on both paths (a missing name becomes the text "nan" in `build_vectorizer`, app.py:70, so only then are the scores the same), and two rows, the first with an empty `site_name` cell, the second named "b": the upload ranks the second row first, while the same rows through `load_sources` rank the first row (named "") first | every table is checked and filled by `load_sources` before ranking, so every ranked row has string fields | medium, not executed | `Ranking.MissingNameOrderDependsOnLoading` | `Ranking.RankLoaded` |
