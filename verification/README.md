# LogifyNeural spam checker: decision layer and feedback loop in Dafny

LogifyNeural is a small Flask application that classifies SMS-style messages
as spam or not spam with a TF-IDF plus logistic-regression pipeline, and a
training script that builds the pipeline from a public dataset plus the
labels users sent back through the application. This project models the
logic wrapped around the statistical model and proves what it promises:

- `PyText` — Python's `str.strip()` and `str.split()` on Unicode strings,
  with the whitespace set of `str.isspace`, and `str()` of an `int`.
- `Gibberish` — `looks_like_gibberish`, the keyboard-smash override, as a
  predicate and as the counting loop of the source.
- `Confidence` — `get_confidence_label`, the five confidence tiers.
- `Attribution` — the ranking in `get_top_spam_words`: a stable sort on
  contribution, highest first, the `top_n` slice and the positive filter.
- `Prediction` — `predict_message`: the override, the threshold test, and
  explanation terms for spam verdicts only. The trained pipeline is a
  `Model` value supplying the spam probability and the feature scores.
- `Session` — the counters and the five-entry, newest-first history that
  `home` updates per accepted message.
- `Feedback` — the `/feedback` validation, `save_feedback` as an append to
  the log `user_data.jsonl`, and `load_user_feedback`, which reads it back.
  JSON encoding is a `Codec` value, assumed faithful where a property needs it.
- `Training` — the training frame of `train.py`: the dataset rows whose
  label maps to 0 or 1, followed by the loaded feedback.
- `Wrappers` — `Option`, `Result` and `Min`.

Float constants are the exact binary64 values of the literals in the source
(0.87, 0.65, 0.15, 0.35, 0.99), written as exact reals. A comparison of a
probability with them therefore gives the same answer as Python's float
comparison. The vowel ratio `vowels / len(letters) < 0.20` is modelled as an
exact fraction and proved equal to `5 * vowels < len(letters)`. For letter
counts below about 10^15 the rounded division and the comparison with the
binary64 0.2 give the same answer.

Where the code and its description disagree, the model follows the code:

- The loader's comment at train.py:43 says corrupted lines are skipped, and
  a line that decodes to JSON that is not an object (`[1]`, `"x"`, `3`) is
  described as skipped too. In the code, `row.get` then raises
  `AttributeError`, which nothing catches. `load_user_feedback` and the
  training run both fail (`Feedback.ReadLine` yields `Raised`,
  `Feedback.LoadLines` yields `Failure(NotAnObject)`).
- The comment in `looks_like_gibberish` says "more than half". The code
  flags at exactly half (`>=`), and so does the model.
- The confidence legend on the HTML page shows other cut-offs (0.85 and
  below 0.50). The model follows `get_confidence_label`.

## Model

| member | source | states |
|---|---|---|
| PyText.IsSpace | app.py:495-499 | the whitespace of `strip()` and `split()` is exactly the 29 code points listed for `str.isspace`: 9-13, 28-32, U+0085, U+00A0, U+1680, U+2000-U+200A, U+2028, U+2029, U+202F, U+205F and U+3000 |
| PyText.LStrip | app.py:495 | `lstrip()` returns a suffix of the text, drops only whitespace, and the result does not start with whitespace |
| PyText.RStrip | app.py:495 | `rstrip()` returns a prefix of the text, drops only whitespace, and the result does not end with whitespace |
| PyText.Strip | app.py:495 | `strip()` never lengthens the text and leaves no whitespace at either end |
| PyText.StripIsRStripOfLStrip | app.py:495 | `strip()` equals `rstrip()` after `lstrip()`: the result is the infix between a blank prefix and a blank suffix |
| PyText.StripStripped | train.py:36 | stripping a text without surrounding whitespace changes nothing, so stripping is idempotent |
| PyText.StripEmptyIffBlank | train.py:36-38 | the stripped text is empty exactly when the text is all whitespace |
| PyText.Words | app.py:499 | every element `split()` returns is a non-empty run without whitespace |
| PyText.WordLength | app.py:499 | a word ends at the first whitespace character or at the end of the text |
| PyText.WordsKeepContent | app.py:499 | joining the words of `split()` gives exactly the non-whitespace characters of the text, in order |
| PyText.WordsSkipsSpace | app.py:499 | `split()` ignores a leading whitespace character |
| PyText.WordsTakesWord | app.py:499 | `split()` returns a leading run of non-whitespace whole, as its first word, when whitespace or the end follows it |
| PyText.WordsEmptyIffBlank | app.py:499 | `split()` returns no word exactly when the text is all whitespace |
| PyText.StrippedHasWord | app.py:495-499 | a non-empty stripped text has at least one word |
| PyText.Decimal | train.py:45 | `str()` of an int starts with `-` exactly when the int is negative, and the digits after it denote its magnitude without leading zeros |
| PyText.Digits | train.py:45 | the digits of a natural number denote it, most significant first, and start with `0` only for zero itself, which is the single digit `0` |
| Gibberish.Letters | app.py:504 | the letter run of a word holds only ASCII letters and every ASCII letter of the word |
| Gibberish.LettersAppend | app.py:504 | the letter run of a word split in two is the run of the first part followed by the run of the second |
| Gibberish.LettersOne | app.py:504 | a single character is kept exactly when it is an ASCII letter, so with `LettersAppend` the run is the word's ASCII letters in order |
| Gibberish.IsVowel | app.py:507 | a character is one of `aeiouAEIOU` exactly when it is an ASCII letter whose lower-case form is in `aeiou` |
| Gibberish.VowelCount | app.py:507 | the vowel count is at most the length, and zero exactly when no `aeiouAEIOU` occurs |
| Gibberish.VowelCountAppend | app.py:507 | the vowels of a string split in two are the vowels of the first part plus those of the second |
| Gibberish.VowelCountOne | app.py:507 | a single character counts one exactly when it is one of `aeiouAEIOU`, so with `VowelCountAppend` the count is the number of such characters |
| Gibberish.IsGibberishWord | app.py:504-510 | a gibberish word has at least 3 ASCII letters and fewer than one vowel per five of them; `GibberishWordInIntegers` gives the converse |
| Gibberish.CountGibberish | app.py:502-510 | the gibberish count is at most the number of words, and zero exactly when no word is gibberish |
| Gibberish.GibberishWordInIntegers | app.py:504-510 | a word is gibberish iff its letter run has at least 3 letters and 5 times its vowels is below its letter count; 1 vowel in 5 letters is not gibberish |
| Gibberish.SkippedWordIsNotGibberish | app.py:505-506 | a word with fewer than 3 letters is never counted as gibberish |
| Gibberish.ShortTextNeverFlagged | app.py:495-497 | a stripped text shorter than 5 characters is never flagged |
| Gibberish.LooksLikeGibberishInIntegers | app.py:494-513 | the text is flagged iff its stripped form has at least 5 characters and twice the gibberish count reaches the number of words, skipped words included; that number is then positive |
| Gibberish.LooksLikeGibberish | app.py:494-513 | a flagged text has a stripped form of at least 5 characters and at least one gibberish word |
| Gibberish.CheckGibberish | app.py:494-513 | the counting loop of the source returns exactly the flag `LooksLikeGibberish` defines |
| Confidence.TierOf | app.py:522-530 | for `pred == 1`: above 0.87 very likely spam, in (0.65, 0.87] probably spam, at or below 0.65 borderline; otherwise below 0.15 definitely clean, in [0.15, 0.35) looks clean, from 0.35 borderline |
| Confidence.ConfidenceLabel | app.py:522-530 | for `pred == 1` the text is "Very likely spam" iff the probability is above 0.87, "Probably spam" iff in (0.65, 0.87], "Borderline" iff at most 0.65; otherwise "Definitely clean" iff below 0.15, "Looks clean" iff in [0.15, 0.35), "Borderline" iff at least 0.35 |
| Confidence.SpamBoundaries | app.py:524-526 | a probability of exactly 0.87 is "Probably spam" and exactly 0.65 is "Borderline" |
| Confidence.CleanBoundaries | app.py:528-530 | a probability of exactly 0.15 is "Looks clean" and exactly 0.35 is "Borderline" |
| Confidence.TextInjective | app.py:522-530 | the five label strings are distinct |
| Confidence.BranchesShareOnlyBorderline | app.py:522-530 | a spam and a clean verdict can only receive the same label when it is "Borderline" |
| Confidence.TierMonotone | app.py:522-530 | a higher probability never gets a less spammy label, for either verdict |
| Attribution.KeepIf | app.py:544 | the filter never lengthens the list, keeps only scores that pass the test, and keeps every score of the list that passes it |
| Attribution.KeepIfFromList | app.py:544 | every kept score comes from the list, and no score is kept more often than it occurs there |
| Attribution.KeepIfOne | app.py:544 | a single score is kept exactly when it passes the test, so with `KeepIfAppend` the result is the passing scores in list order |
| Attribution.Terms | app.py:544 | the returned terms are the terms of the kept scores, one for one and in order |
| Attribution.InsertDesc | app.py:543 | inserting into a non-increasing list keeps it non-increasing and adds exactly the one score |
| Attribution.SortDesc | app.py:543 | `sort(reverse=True)` returns a permutation of the scores in non-increasing contribution order |
| Attribution.SortDescIsStable | app.py:543 | scores with equal contributions keep their original relative order |
| Attribution.PositiveCountSorted | app.py:543-544 | sorting neither adds nor drops a positive score |
| Attribution.SliceEnd | app.py:544 | `[:top_n]` keeps `min(top_n, len)` items for a non-negative `top_n` and never more than the list |
| Attribution.TopSpamScores | app.py:542-544 | the ranked scores are all strictly positive, in non-increasing order, drawn from the input, a prefix of the positive part of the sorted list, `min(top_n, number of positive scores)` long, and hold every score that beats one of them |
| Attribution.TopSpamWords | app.py:533-546 | at most `top_n` terms; none when computing the scores raised; otherwise the terms of the ranked scores |
| Attribution.DefaultTopNBound | app.py:533 | with the default `top_n` at most six terms are returned |
| Prediction.PredictMessage | app.py:549-555 | the gibberish rule gives `(1, 0.99, reason, [])`; otherwise the reason is `None`, the probability is the model's, `pred == 1` iff it reaches the threshold, and a clean verdict has no spam words |
| Prediction.OverrideIgnoresModel | app.py:550-551 | on a flagged text the verdict does not depend on the model |
| Prediction.ProbabilityInRange | app.py:551-552 | the verdict's probability lies in [0, 1] when the model's does |
| Prediction.ThresholdTieIsSpam | app.py:553 | a probability equal to the threshold is spam |
| Prediction.LowerThresholdKeepsSpam | app.py:553 | lowering the threshold never turns a spam verdict into a clean one |
| Prediction.SpamWordsArePositiveFeatures | app.py:540-546 | the spam words of a statistical spam verdict are the terms of ranked features that occur in the text's scores with strictly positive contributions |
| Prediction.OverrideIsVeryLikelySpam | app.py:551 | a flagged text is labelled "Very likely spam" |
| Session.PushHistory | app.py:599-606 | the new entry goes first, the old entries follow in order, and a history of at most 5 stays at most 5 long |
| Session.Record | app.py:578-606 | an accepted message adds one to `checked` and one to exactly one of `spam` or `ham`, puts its row first in the history, and keeps `checked == spam + ham` and the history bound |
| Session.Post | app.py:569-606 | an empty stripped message is rejected with "Paste a message first." and leaves the state unchanged; any other message is classified at threshold 0.5 and shown with its confidence label, adds one to `checked` and to exactly one of `spam` or `ham` by its verdict, and pushes its row onto the history; the invariant is kept |
| Session.PushKeepsNewest | app.py:599-606 | a history listing the last five accepted texts, newest first, still does so after one more push |
| Session.TextsOfPush | app.py:599-606 | the texts of a pushed history are the new text followed by the old texts that were not popped |
| Session.NewestStep | app.py:599-606 | the newest texts after one more accepted message are that message followed by one fewer of the earlier newest |
| Session.NewestShorter | app.py:599-606 | the newest `k - 1` texts are the first ones of the newest `k` |
| Session.PostKeepsSummary | app.py:569-606 | one post keeps the counters and history in step with the list of accepted texts |
| Session.RunFromStart | app.py:569-606 | after any series of posts from the empty state, the counters add up, `checked` is the number of accepted messages, and the history holds the last five of them, newest first |
| Feedback.Record | app.py:517 | the record has exactly the keys `text`, `label` and `ts`; reading its `label` back gives the int label, which passes `label in (0, 1)` exactly when it is 0 or 1 |
| Feedback.SaveFeedback | app.py:516-519 | saving appends exactly one encoded record as the new last line and keeps every earlier line |
| Feedback.ValidPost | app.py:617-619 | a post is accepted iff its stripped text is non-empty and its stripped label is "0" or "1"; a post missing either field is refused |
| Feedback.PostFeedback | app.py:615-622 | a post is saved iff its stripped text is non-empty and its stripped label is "0" or "1"; a saved post appends its record with that label; a rejected post leaves the log unchanged |
| Feedback.PyStr | train.py:45 | `str()` of a string is the string, of `None`, `True` and `False` their Python spelling, and of an int a decimal numeral that denotes it |
| Feedback.IsBinaryLabel | train.py:50 | `label in (0, 1)` holds for exactly six JSON values: 0, 1, `False`, `True`, 0.0 and 1.0 |
| Feedback.LabelValue | train.py:50-54 | `int(label)` of a label that passed `label in (0, 1)` is 0 or 1 and equals the label under Python's `==`: the int itself, `True` or `False`, 1.0 or 0.0 |
| Feedback.RowLabel | train.py:46 | `row.get("label")` is the stored label when present, and otherwise `None`, which never passes `label in (0, 1)` |
| Feedback.RowText | train.py:45 | the text read from a record has no surrounding whitespace |
| Feedback.RowTextOfStripped | train.py:45 | a stored string text that is already stripped is read back unchanged |
| Feedback.ReadRow | train.py:45-54 | a decoded object is never an error; it is kept iff its stripped `text` is non-empty and its `label` (`None` when absent) passes `label in (0, 1)`, and then the pair is that text and `int(label)` |
| Feedback.ReadLine | train.py:36-54 | a kept line has a non-empty, stripped text and a label of 0 or 1 |
| Feedback.ReadLines | train.py:35 | the lines are read one by one, each on its own |
| Feedback.CollectCons | train.py:35-54 | one more line in front adds an error, nothing, or one more pair in front, as the line raised, was skipped or was kept |
| Feedback.Collect | train.py:30-59 | the two lists have equal length, no longer than the input, and the result fails iff some line raised |
| Feedback.LoadLines | train.py:33-55 | reading an existing file fails iff some line decodes to a non-object; otherwise the texts and labels have equal length, every text is non-empty and stripped and every label is 0 or 1 |
| Feedback.LoadUserFeedback | train.py:28-59 | a missing file yields two empty lists; an existing file yields what reading its lines yields; the two lists always have equal length |
| Feedback.LoadOneLine | train.py:35-54 | a one-line file yields that line's pair when kept, nothing when skipped, and the error when it raises |
| Feedback.LoadLinesAppend | train.py:35-55 | a file read in two parts yields the pairs of the first part followed by those of the second, so the result lists the kept lines in file order |
| Feedback.BlankLineSkipped | train.py:36-38 | a blank line is skipped |
| Feedback.NonObjectLineRaises | train.py:40-46 | a line that decodes to a value other than an object raises at `row.get`, and a file holding such a line fails to load whatever its other lines hold |
| Feedback.UndecodableLineSkipped | train.py:40-43 | a line that fails JSON decoding is skipped, not raised |
| Feedback.ObjectLineReadsRow | train.py:41-45 | a stripped line that decodes to an object is judged by its fields alone |
| Feedback.RecordRowReadsBack | app.py:517 | the record written for a stripped non-empty text and a label of 0 or 1 is kept with that text and label |
| Feedback.RecordReadsBack | train.py:36-54 | a line written by `save_feedback` for such a text and label reads back as exactly that pair |
| Feedback.FeedbackRoundTrip | app.py:615-622 | after a valid post, loading the log gives the earlier pairs followed by the posted text and label; an invalid post leaves the log unchanged |
| Training.LabelCode | train.py:73 | "ham" maps to 0 and "spam" to 1; every other label, and a missing one, maps to nothing |
| Training.CellText | train.py:74 | `astype(str)` keeps a text cell and turns a missing one into "nan" |
| Training.Labelled | train.py:73-77 | a row survives `dropna` exactly when its label cell is "ham" or "spam" |
| Training.ExampleOf | train.py:73-74 | a labelled dataset row becomes an example labelled 0 or 1 |
| Training.CleanBase | train.py:73-77 | cleaning keeps at most the rows it is given, every one labelled 0 or 1 |
| Training.CleanBaseCount | train.py:73-77 | exactly the rows labelled "ham" or "spam" survive the cleaning |
| Training.CleanBaseAppend | train.py:73-77 | cleaning is row by row and keeps the order of the dataset |
| Training.CleanOneRow | train.py:73-77 | a "ham" row becomes an example labelled 0 and a "spam" row one labelled 1, with its text or "nan"; any other row is dropped |
| Training.Frame | train.py:83 | the feedback frame has one example per loaded pair, in order |
| Training.FrameAppend | train.py:83 | the frame of two lists of pairs is the frame of the first followed by the frame of the second |
| Training.TrainingSet | train.py:80-84 | the training frame is as long as the cleaned dataset plus the feedback, starts with the cleaned dataset, and ends with the feedback frame |
| Training.NoFeedbackNoChange | train.py:80-86 | without feedback the training frame is the cleaned dataset |
| Training.BuildTrainingSet | train.py:73-84 | the run fails iff loading the feedback fails; otherwise the frame is the cleaned dataset followed by the frame of the loaded pairs, as long as both together, every example labelled 0 or 1 and every feedback example with a non-empty stripped text |
| Training.FeedbackExamplesValid | train.py:80-84 | the examples taken from the feedback keep its non-empty stripped texts, and all examples have labels 0 or 1 |
| Training.AppendOneExample | train.py:80-84 | one more loaded pair adds one example at the end of the training frame |
| Training.PostedFeedbackIsTrainedOn | app.py:615-622 | after a valid `/feedback` post the next training frame is the previous one plus the posted text and label at the end; after an invalid post it is unchanged |

## Left out

- Flask routing, the HTML page, the JSON API and the formatting of results
  (`f"{prob:.4f}"`, `prob_pct`) are presentation. The history keeps the
  probability as a number rather than its three-decimal string.
- `generate_sigmoid_chart`, the `/sigmoid` route and `last_prob` only draw
  the chart.
- The TF-IDF vectoriser and the logistic regression are not modelled.
  `predict_proba` and the per-feature `(term, tfidf * coefficient)` pairs are
  function values of `Prediction.Model`. `None` stands for an exception while
  computing the pairs; an empty list stands for a text with no known feature.
- NaN contributions are not modelled: contributions are exact reals, so
  every pair compares.
- Downloading and parsing the dataset, `dropna` on NaN texts, the train/test
  split, fitting, evaluation and `joblib` are left out. A dataset row is the
  pair of cells `read_csv` produced. pandas 2 is assumed: there `astype(str)`
  turns a missing text cell into the string "nan", so `dropna` never drops a
  row for its text. Under the string dtype of pandas 3 a missing text stays
  missing and `dropna` drops the row, which `Training.CellText` does not model.
- Timestamps (`datetime.utcnow()`, `datetime.now()`) are parameters.
- File handling is left out. The log is a sequence of lines without their
  terminators, and a missing file is its own value. Undecodable UTF-8, I/O
  errors and a last line without a newline are not modelled.
- `json.dumps` and `json.loads` are a `Codec`. Where a property needs it,
  the codec is assumed to be faithful on the records `/feedback` makes
  `save_feedback` write, those with a non-empty stripped text and a label
  of 0 or 1: such a record is encoded as one non-empty line with no line
  break and no surrounding whitespace, and decodes back to itself. Nothing
  is assumed about other values. `str()` of a float, list or dict
  found in a record's `text` field is a codec function as well.
- Errors of `json.loads` other than `JSONDecodeError` are not modelled.
  Two can occur. A line holding an integer of more than 4300 digits
  raises `ValueError`. A deeply nested line, such as 100 000 `[`, raises
  `RecursionError`. Neither is caught by the `except json.JSONDecodeError`
  at train.py:42, so either one fails the load. `Codec.loads` can only
  decode or reject (skip) a line. The same 4300-digit limit makes `str()`
  of such an int in a record's `text` field raise in Python, while
  `PyText.Decimal` returns its digits.
- Lone surrogates (U+D800-U+DFFF) are not modelled. A Python `str` can
  hold them, for example after `json.loads('"\\ud800"')`, but a Dafny
  `char` is a Unicode scalar value.
- Concurrent requests sharing the module-level session state are not
  modelled: the posts are applied one at a time.
- The ratio test is exact rational arithmetic. It differs from the binary64
  computation only for words of more than about 10^15 letters.
