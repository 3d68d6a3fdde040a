# VIBE-LENZZ text pipeline in Dafny

VIBE-LENZZ is a one-file Streamlit app (`app.py`). It takes a CSV with a `Text` column, or a PDF
(one text per non-empty page). It normalises every text with `clean_text`, labels it with a
pre-trained sentiment classifier, and lets the user keep only some labels. For the filtered
rows it then shows:

- the label distribution;
- the ten most frequent terms of each selected label, counted over a 50-term vocabulary that
  scikit-learn's `CountVectorizer` fits on the filtered texts;
- the dominant label;
- one fixed recommendation line per selected known label.

This project models that deterministic pipeline and proves its properties.

- `text_clean.dfy` (module `TextClean`): `clean_text` as four string functions. Its output is
  normalised (lower-case word characters and single inner spaces), has no URL match left, and
  `clean_text` is idempotent.
- `collections.dfy` (module `Collections`): order-preserving filtering, first-appearance
  de-duplication (pandas `unique`), arg-max, and a top-k selection. `IsTopSelection`
  characterises every valid top-k choice, ties broken any way. `SelectTop` is one such choice.
- `terms.dfy` (module `Terms`): the vectoriser's analyser. It lowercases, tokenises with
  `\b\w\w+\b`, drops stop words, and fits the vocabulary of the `max_features` most frequent
  terms.
- `dashboard.dfy` (module `Dashboard`): the script body. It has:
  - the page loop and the top-words dictionary loop, as methods with loop invariants;
  - the label filter, the label counts and percentage shares, the dominant label, the per-label
    top words and the recommendations, as functions with lemmas;
  - `RunDashboard`, the whole run from an upload to a report or a failure;
  - the finding about line 84.

The classifier is the parameter `classify: string -> Label`. It receives the cleaned text, as
the TF-IDF vectoriser plus SVM do at lines 59-60. The English stop-word list is the parameter
`stopWords`, and the multiselect's choice is the parameter `selected`. Characters are ASCII:
- `\s` and `str.isspace` are space, 9-13 and 28-31;
- `\w` is letters, digits and `_`;
- `lower` maps only A-Z.

Behaviour as coded, which the model follows:
- The advice lines are emitted in the order of the tests at lines 105-111: Negative,
  Positive, Neutral, Irrelevant.
- An empty selection, a selection whose labels match no row, or a filtered corpus made only of
  stop words and one-character tokens makes `fit_transform` at line 82 raise "empty
  vocabulary". So the guard `len(selected_sentiments) > 0` at line 96 is never false when it
  is reached. The model returns `Halted(EmptyVocabulary)` in these cases.
- A CSV without a `Text` column shows an error. A `KeyError` follows at line 58 when the file
  has rows, and nothing follows when it has none. Both end the run; the model returns
  `Halted(MissingTextColumn)`.
- Each label's top-words list has min(10, |vocabulary|) entries, every one a vocabulary term.
  Terms that never occur in that label's rows can appear with count 0 when the label has
  fewer than ten distinct vocabulary terms.

## Model

| member | source | states |
|---|---|---|
| TextClean.LowerCase | app.py:22 | same length; each upper-case letter becomes the character 32 code points on (its lower-case letter); every other character is kept; no upper-case letter is left |
| TextClean.StripUrls | app.py:23 | the result is never longer than the input |
| TextClean.FirstUrlStart | app.py:23 | the first position of a text where a URL match starts, or its length when none does; no earlier position starts one |
| TextClean.StripUrlsWord | app.py:23 | on a run without whitespace, exactly the part before the first URL match is kept; the match and the rest of the run are deleted |
| TextClean.StripUrlsSplit | app.py:23 | a whitespace character is kept, and the text before it and the text after it are processed independently |
| TextClean.StripUrlsNoUrl | app.py:23 | after the URL substitution no position starts `http`, `www` or `https` followed by a non-space character |
| TextClean.StripUrlsNoUpper | app.py:22-23 | deleting URL runs brings back no upper-case letter |
| TextClean.ReplaceNonWord | app.py:24 | same length; every character is a space or a word character; word characters are kept and no word character is invented |
| TextClean.CollapseShape | app.py:25 | after `\s+` to `' '` every whitespace character is a plain space and no two whitespace characters are adjacent |
| TextClean.CollapseFrom | app.py:25 | collapsing whitespace invents no non-space character |
| TextClean.CollapseWhitespace | app.py:25 | never longer; empty exactly when the input is; starts with whitespace exactly when the input does |
| TextClean.CollapseIsSqueeze | app.py:25 | collapsing runs agrees with a one-pass scan that writes one space for the first whitespace character of each run, drops the others, and copies every other character |
| TextClean.CollapseKeepsNonSpace | app.py:25 | the non-whitespace characters of the result are exactly those of the input, in the same order |
| TextClean.Strip | app.py:25 | the result is the slice between the leading and trailing whitespace; everything cut off is whitespace; the result neither starts nor ends with whitespace |
| TextClean.CleanText | app.py:21-26 | the result is never longer than the input, so `clean_text("")` is `""` |
| TextClean.CleanTextIsClean | app.py:21-26 | the output has only lower-case word characters and spaces, no space at either end, never two spaces in a row |
| TextClean.CleanTextNoUrl | app.py:21-26 | no URL match is left in the output, because each run is deleted before punctuation becomes spaces |
| TextClean.CleanTextFixedPoint | app.py:21-26 | a normalised, URL-free text is returned unchanged |
| TextClean.CleanTextIdempotent | app.py:21-26 | `clean_text(clean_text(x)) == clean_text(x)` for every text |
| Collections.Filter | app.py:70 | never longer; an element is kept exactly when it is in the input and satisfies the predicate |
| Collections.FilterConcat | app.py:70 | filtering keeps the original order |
| Collections.FilterMultiset | app.py:70 | a kept element occurs exactly as often as in the input; a rejected one never occurs |
| Collections.Distinct | app.py:63 | `unique()`: no duplicates, the same elements as the input, no longer than it |
| Collections.ArgMax | app.py:97 | an index whose count is at least every candidate's count |
| Collections.SelectTop | app.py:81-90 | min(k, number of candidates) terms are chosen, for both `max_features` and `head(10)` |
| Collections.SelectTopIsTop | app.py:81-90 | the greedy choice is a valid top-k: min(k, n) distinct candidates, non-increasing counts, no left-out candidate counts more than a kept one |
| Terms.Tokens | app.py:81-82 | every token has at least two characters, all word characters |
| Terms.TokensAreLongWords | app.py:81-82 | on text made of word characters and spaces, the tokens are exactly the pieces of `split(' ')` with at least two characters, in order |
| Terms.TokensOfClean | app.py:81-82 | the tokens of a normalised text are its space-separated words of at least two characters, in order |
| Terms.DocTerms | app.py:81-82 | a term of a document is a token of the lower-cased document that is not a stop word, and every such token is a term; each has at least two characters |
| Terms.DocTermsCount | app.py:81-82 | each term occurs as often as among the lower-cased document's tokens; a stop word never occurs |
| Terms.DocTermsOfClean | app.py:81-82 | for a normalised document, the terms are its space-separated words of at least two characters that are not stop words, in order |
| Terms.CorpusTerms | app.py:82 | the analyser over all filtered texts: no term is a stop word or shorter than two characters, and with no texts there is no term |
| Terms.CorpusTermsConcat | app.py:82 | the terms of a corpus are the terms of its documents, document by document |
| Terms.Vocabulary | app.py:81-83 | the vocabulary has min(50, number of distinct corpus terms) terms |
| Terms.VocabularyIsFitted | app.py:81-83 | the vocabulary is a valid choice of the 50 most frequent distinct corpus terms (ties any way); its terms occur in the corpus, are not stop words and have at least two characters |
| Terms.VocabularyEmpty | app.py:82 | the vocabulary is empty exactly when the corpus has no term, in which case `fit_transform` raises |
| Dashboard.NonEmptyPages | app.py:45-46 | never more texts than pages; a text is kept exactly when it is a non-empty page |
| Dashboard.ExtractPageTexts | app.py:43-46 | the loop appends exactly the non-empty page texts, in page order |
| Dashboard.NonEmptyPagesCount | app.py:43-48 | the number of texts is the number of pages less the number of empty pages; a text is kept exactly when its page is non-empty |
| Dashboard.UploadTexts | app.py:40-55 | a PDF yields exactly its non-empty pages, a CSV its `Text` cells, any other file no text |
| Dashboard.Classify | app.py:58-60 | one record per text, in order, each keeping its original text |
| Dashboard.ClassifyRows | app.py:57-60 | one row per text, in order; each holds its text, its clean form (normalised and URL-free) and the classifier's label for that clean form |
| Dashboard.Available | app.py:63 | each label present in the rows, once, and no other |
| Dashboard.KeepSelected | app.py:70 | never longer; a record is kept exactly when it is an input record whose label is selected |
| Dashboard.KeepSelectedExact | app.py:70 | every row whose label is selected is kept as often as it occurs; no other row is kept |
| Dashboard.KeepSelectedOrder | app.py:70 | the filter keeps the rows' order |
| Dashboard.DefaultSelectionKeepsAll | app.py:63-70 | with the default selection (all labels present) the filter keeps every row |
| Dashboard.LabelCounts | app.py:73 | no more entries than rows; each entry is a present label paired with its number of rows |
| Dashboard.LabelCountsExact | app.py:73 | one entry per present label, with no label twice; each count is that label's number of filtered rows, at least 1; the counts add up to the number of rows |
| Dashboard.LabelCountsTotal | app.py:73 | the label counts add up to the number of filtered rows |
| Dashboard.Shares | app.py:73 | one share per count entry |
| Dashboard.SharesSpec | app.py:73 | each share is its label's count times 100 over the total; the shares add up to 100 (exact reals) |
| Dashboard.MostFrequent | app.py:97 | the dominant label occurs in the filtered rows, and no label occurs more often |
| Dashboard.LabelDocs | app.py:89 | a label's texts are never more than the filtered rows |
| Dashboard.LabelDocsCount | app.py:89 | a label's `temp` frame has as many rows as the label has in the filtered frame |
| Dashboard.LabelTerms | app.py:89-90 | no term of a label's rows is a stop word or shorter than two characters |
| Dashboard.ColumnSum | app.py:90 | a column sum is 0 when no row carries the label, and 0 for a stop word |
| Dashboard.LabelTermsCount | app.py:89-90 | a term's count for a label is the column sum of the count matrix over the rows with that label, with the row-wise pairing of line 84 |
| Dashboard.TopWordsFor | app.py:89-90 | min(10, vocabulary size) pairs for every label |
| Dashboard.TopWordsForSpec | app.py:81-90 | min(10, vocabulary size) distinct vocabulary terms; each count is the term's number of occurrences in the label's rows; counts do not increase, with the row-wise pairing of line 84 |
| Dashboard.TopWordsForDominates | app.py:90 | no vocabulary term left out of a label's top words occurs more often in its rows than a kept one |
| Dashboard.VocabularyTerms | app.py:81-83 | the fitted vocabulary has no duplicate term, and none of its terms is a stop word or shorter than two characters |
| Dashboard.TopWordsForListed | app.py:81-90 | each label's top words are at most 10 vocabulary terms that are not stop words and have at least two characters, with their counts for that label, in non-increasing order |
| Dashboard.ReportTopWords | app.py:81-91 | in a report the vocabulary is a valid choice of at most 50 most frequent corpus terms; every entry of the top-words dictionary is such a list, and its terms are a valid choice of the 10 vocabulary terms most frequent in that label's rows |
| Dashboard.TopWordsTable | app.py:86-91 | the dictionary has exactly the selected labels as keys, each mapped to that label's top words |
| Dashboard.Recommendations | app.py:104-112 | a label's advice line appears exactly when the label is selected; only those four lines appear; they come in the order Negative, Positive, Neutral, Irrelevant |
| Dashboard.RecommendationsNone | app.py:105-112 | a selection without any of the four labels, the empty one included, gets no advice |
| Dashboard.NonEmptyCorpus | app.py:82-97 | once the vocabulary is fitted the filtered rows and the selection are non-empty, and the dominant label is a selected one, so line 99's lookup succeeds |
| Dashboard.Analyse | app.py:57-112 | it fails exactly when the filtered corpus has no term; otherwise the report holds the rows, available labels, filtered rows, counts, shares, vocabulary, top-words dictionary, a dominant label that is one of its keys, and the advice, with the row-wise pairing of line 84 |
| Dashboard.RunDashboard | app.py:37-112 | it halts on a CSV without `Text` exactly in that case; with no text exactly when the upload yields none; with an empty vocabulary exactly when the filtered corpus has no term; otherwise it shows the report `Analyse` describes, with the row-wise pairing of line 84 |
| Dashboard.AlignedLabels | app.py:84 | as written, one label tag per filtered row |
| Dashboard.AsWrittenLabelDocs | app.py:84-89 | as written, a label counts at most as many texts as there are filtered rows, all of them filtered texts |
| Dashboard.AlignmentMisattributes | app.py:84 | as written, with rows ("good", Positive) and ("bad", Negative) and selection [Negative], no text is counted for Negative, where the row-wise pairing counts "bad" |
| Dashboard.LabelDocsRowWise | app.py:84-89 | the corrected texts of a label are the rows tagged with their own label |
| Dashboard.LabelDocsUnderFilter | app.py:84-89 | with row-wise labels, filtering never changes which texts a selected label counts |
| Dashboard.AlignmentHoldsWithoutFiltering | app.py:84 | the as-written index alignment agrees with the row-wise pairing when the filter drops no row |

## Left out

- Streamlit widgets, page layout, `st.*` messages, and the matplotlib pie and bar charts (lines 31-35, 48, 53, 55, 62-68, 75-78, 92-102) are UI. Only the values they display are modelled.
- Loading the model files and the TF-IDF plus SVM prediction (lines 15-16, 59-60) is foreign code. It is the parameter `classify`.
- `PdfReader` text extraction and `pd.read_csv` (lines 41, 44, 51) are library I/O. A PDF is its page texts, and a CSV is a flag for the `Text` column plus that column's cells.
- A PDF page with no text is the empty string; Python's `None` and `""` are both falsy at line 45.
- Empty (NaN) CSV cells are not modelled, and neither is the error `clean_text` would raise on one. Every cell is a string.
- The English stop-word list is the parameter `stopWords`, not its contents.
- Unicode: `lower`, `\w` and `\s` are modelled on ASCII only.
- The percentages at line 73 are exact reals, not floating point.
- Dashboard.LabelCounts: lists labels in order of first appearance, while `value_counts` sorts by count. The order only places the pie slices.
- Terms.Vocabulary: does not model the alphabetical order of `get_feature_names_out`. That order only fixes the column order and which of several equal counts `sort_values` places first.
- Collections.SelectTop: the report's vocabulary and top words are the greedy choice `SelectTop` makes (the first candidate of largest count). Among equal counts, scikit-learn's `max_features` and `sort_values(...).head(10)` may keep other terms. The properties proved about these lists are those every valid choice has (`IsTopSelection`, as `ReportTopWords` states).
- Dashboard.TopWordsFor: per-label counts, and so the top-words dictionary of `Analyse` and `RunDashboard`, pair each count row with its own row's label, the pairing line 84 intends. As written the program pairs by index (`AsWrittenLabelDocs`), so its counts differ whenever the filter drops a row (see "## Findings").
- Dashboard.MostFrequent: does not fix which of several equally frequent labels `idxmax` returns. It states only that the label is present and maximal.
- Dashboard.Analyse: the multiselect only offers present labels. The model accepts any `selected`, which covers that case.

## Findings

| source | as written | input that shows it | evidently intended | confidence | as-written member | corrected member |
|---|---|---|---|---|---|---|
| app.py:84 | the assignment of `filtered_df['Sentiment']` to `words_df` aligns on the index. Count row j receives the label of original row j if that row survived the filter, and NaN otherwise, so labels are shifted onto other texts or lost | rows ("good", Positive), ("bad", Negative); selection [Negative]: the counted texts for Negative are none instead of "bad" | each count row carries the label of the same filtered row (for example by assigning `.values`) | not executed | Dashboard.AlignmentMisattributes | Dashboard.LabelDocsUnderFilter |
