# Morphological complexity metrics, modelled in Dafny

`morphology_metrics.py` scores a dependency treebank in the ten-column
tab-separated format (ID, FORM, LEMMA, UPOS, XPOS, FEATS, HEAD, DEPREL, DEPS,
MISC). This project models the parts of the scorer that read, count and
divide:

- the reader, which cuts the lines of a file into sentences of ten-field rows;
- the vocabulary of one column, and the token count;
- delexicalisation, which replaces each form by `UPOS|FEATS`;
- the two probability estimators: the head-UPOS distribution given a
  delexicalised form, and the unigram form distribution;
- the type/token ratio;
- the two lemma-to-form ratios, and the collection of the form sets they use.

The modules follow the program's structure:

- `Text`: tab splitting, decimal HEAD fields, Python's negative indexing.
- `Corpus`: the token, sentence and treebank types, `count_tokens` and
  `get_vocab`.
- `Reader`: `read_treebank`.
- `Delex`: delexicalisation.
- `Probabilities`: the two estimators.
- `Ratios`: the two ratio metrics.
- `Sums`: order-free sums over dictionaries, because Python's `sum` over a
  dict's items does not depend on the order it visits them in.

Each loop of the modelled functions is a method, proved against a specification function.
The lemmas then state what the source promises about that function:

- every head-UPOS row sums to one;
- the totals add up to `count_tokens`;
- the ratios lie in their ranges.

Counts are natural numbers, and probabilities and ratios are exact reals.

The file is given as a sequence of lines, each keeping its trailing "\n", as
iteration over a text file yields them. `Reader.Read` describes the result.
The lines are split at the lines that are exactly "\n", and each closed block
yields a sentence of its retained rows. The block after the last blank line
is dropped.

Two behaviours of the code that a reader may not expect:

- A root token (HEAD "0") is not skipped. `int("0") - 1` is -1, and `tree[-1]`
  is the last token of the sentence, so the root is counted against the UPOS
  of that last token. `Probabilities.HeadIndex` and
  `Probabilities.RootHeadIsLastToken` state this behaviour.
- A form of `dw_vocab` that never occurs does not get probability 0. Its
  total is 0 and line 62 divides by it, so the model requires every form of
  `dw_vocab` to occur (or `pos_vocab` to be empty). Every form does occur when
  `dw_vocab` is the treebank's own vocabulary, as at line 22.

## Model

| member | source | states |
|---|---|---|
| Text.SplitOn | morphology_metrics.py:12 | `split` with an explicit separator always returns at least one piece, even for an empty string. |
| Text.JoinSplit | morphology_metrics.py:12 | Joining the pieces of `split` with the separator gives the original back. |
| Text.SplitPiecesFree | morphology_metrics.py:12 | No piece of a split contains the separator. |
| Text.SplitCount | morphology_metrics.py:8-10 | A split has one more piece than the input has separators. |
| Text.SplitAppendFree | morphology_metrics.py:7-16 | Appending separator-free elements extends only the last piece. |
| Text.DecimalValue | morphology_metrics.py:54 | `int` of a digit string is zero if and only if every digit is '0', so "0" and "00" both name the root. |
| Text.PyIndex | morphology_metrics.py:55 | A Python index into a list of length n reads the one position below n that is congruent to the index modulo n, so -1 reads the last element. |
| Reader.Read | morphology_metrics.py:3-17 | The treebank read from a line sequence has one sentence per line that is exactly "\n". |
| Reader.ReadLine | morphology_metrics.py:8-16 | One pass of the loop body keeps the result and the current sentence equal to `Read` and `Pending` of the lines read so far. |
| Reader.ReadTreebank | morphology_metrics.py:3-17 | The loop returns exactly `Read(lines)`: one sentence per closed block, holding the retained rows of that block. |
| Reader.ReadSnoc | morphology_metrics.py:8-16 | One more line: a blank line appends the pending sentence and empties it, and any other line adds its retained row (if any) to the pending sentence. |
| Reader.RetainedRows | morphology_metrics.py:12-16 | Every row that reaches a sentence has ten fields and an ID containing neither '.' nor '-', and it is the tab split of some non-blank input line. |
| Reader.ReadIgnoresTail | morphology_metrics.py:7-17 | Lines after the last blank line never change the result: the last sentence is lost without a closing blank line. |
| Reader.ReadAppendSentence | morphology_metrics.py:8-16 | After a sentence boundary, a block of non-blank lines closed by a blank line adds exactly one sentence: the retained rows of the block. |
| Corpus.TokensMembership | morphology_metrics.py:40-41 | A row is among the flattened tokens if and only if it is a token of some sentence. |
| Corpus.CountTokens | morphology_metrics.py:112-113 | `count_tokens` is the number of tokens of the flattened treebank. |
| Corpus.GetVocab | morphology_metrics.py:38-43 | The loop returns exactly the set of values of the given column. |
| Corpus.VocabMembership | morphology_metrics.py:38-43 | A value is in the vocabulary if and only if some token of some sentence has it in that column. |
| Corpus.VocabCovered | morphology_metrics.py:38-43 | Every token's value lies in a set if and only if the set includes the vocabulary. |
| Corpus.VocabSize | morphology_metrics.py:107-113 | The vocabulary size is at most `count_tokens`, equals it if and only if no value repeats, and is zero if and only if there are no tokens. |
| Delex.DelexicaliseToken | morphology_metrics.py:73-79 | The copy's form is `UPOS + "\|" + FEATS`, and the other nine fields equal the input's. |
| Delex.Delexicalise | morphology_metrics.py:66-71 | The result has the same number of sentences and sentence lengths, and every token is delexicalised in place. |
| Delex.DelexicaliseTreebank | morphology_metrics.py:66-71 | The loop returns exactly `Delexicalise(tb)`. |
| Delex.DelexicalisedColumn | morphology_metrics.py:66-79 | Every column other than the form reads the same before and after delexicalisation. |
| Probabilities.HeadIndex | morphology_metrics.py:54-55 | The index read for a HEAD of h is h - 1 when h > 0, and the last position of the sentence when h = 0. It is always in range. |
| Probabilities.RootHeadIsLastToken | morphology_metrics.py:54-55 | A token with HEAD "0" is paired with the UPOS of the last token of its sentence. |
| Probabilities.FirstsOfHeadPosPairs | morphology_metrics.py:51-53 | The forms of the (form, head UPOS) pairs are the form column, in order. |
| Probabilities.HeadPosInVocab | morphology_metrics.py:55 | Every head UPOS looked up is in the UPOS vocabulary of the same treebank. |
| Probabilities.TotalsStep | morphology_metrics.py:57 | One increment `total_counts[dw] += 1` keeps every count equal to the occurrences among the words seen so far. |
| Probabilities.CountStep | morphology_metrics.py:56 | One increment `counts[dw][head_pos] += 1` keeps every row equal to the head-UPOS counts of the pairs seen so far. |
| Probabilities.CountToken | morphology_metrics.py:56-57 | Both increments for one token keep both tables equal to the counts of the tokens seen so far. |
| Probabilities.CountSentence | morphology_metrics.py:52-57 | After sentence i, both tables count the tokens of the first i + 1 sentences. |
| Probabilities.ZeroCounts | morphology_metrics.py:46-50 | The initial tables have a zero for every pair of `dw_vocab` × `pos_vocab` and for every form, which are the counts of no tokens. |
| Probabilities.CountHeadPos | morphology_metrics.py:46-57 | The tables have one row per form of `dw_vocab`, each keyed by `pos_vocab` and holding the number of tokens of that form per head UPOS. The totals are the occurrences of each form. |
| Probabilities.ValueCountsTotal | morphology_metrics.py:57 | When every word is in the vocabulary, the counts add up to the number of words. |
| Probabilities.RowCountsTotal | morphology_metrics.py:56 | Σ_p counts[w][p] is the number of pairs whose form is w. |
| Probabilities.HeadPosRowSum | morphology_metrics.py:56-57 | Σ_p counts[w][p] = total_counts[w]. |
| Probabilities.WordCountsSum | morphology_metrics.py:57 | Σ_w total_counts[w] = count_tokens, when the vocabulary covers every form. |
| Probabilities.WordCountOccurs | morphology_metrics.py:126-129 | A form's count is positive if and only if the form occurs in the treebank. |
| Probabilities.WordCountsPositive | morphology_metrics.py:50-57 | Every form of the treebank's own vocabulary has a total of at least 1. |
| Probabilities.Normalise | morphology_metrics.py:59-63 | The normalised map has exactly the keys of the counts. |
| Probabilities.NormaliseSum | morphology_metrics.py:59-63 | The quotients add up to the sum of the counts divided by the total. |
| Probabilities.NormaliseBounds | morphology_metrics.py:59-63 | When the counts sum to the total, every quotient lies in [0, 1]. |
| Probabilities.NormaliseIsDistribution | morphology_metrics.py:59-63 | Counts divided by their own sum form a distribution: each value is in [0, 1] and they sum to 1. |
| Probabilities.NormaliseCounts | morphology_metrics.py:59-63 | The loop divides every count by the total and keeps every key. |
| Probabilities.NormaliseRows | morphology_metrics.py:58-63 | Every row is divided by its own form's total. No row is dropped. |
| Probabilities.TotalsUsable | morphology_metrics.py:60-62 | Each divisor is non-zero unless its row is empty. This holds when every form of `dw_vocab` occurs, or when `pos_vocab` is empty. |
| Probabilities.GetHposGivenWordProbabilities | morphology_metrics.py:45-64 | The result has one row per form of `dw_vocab`. Each row holds the head-UPOS counts of that form divided by the form's total. |
| Probabilities.HeadPosDistribution | morphology_metrics.py:58-63 | For a form that occurs, the row is keyed by `pos_vocab` and is a distribution. |
| Probabilities.DelexicalisedHeadsResolvable | morphology_metrics.py:21-24 | Every head lookup that succeeds on the treebank also succeeds on its delexicalised copy. |
| Probabilities.DelexicalisedHeadPosProbabilities | morphology_metrics.py:21-24 | Over the delexicalised treebank, there is one row per delexicalised form. Each row holds the head-UPOS counts of that form divided by its total, is keyed by the treebank's UPOS vocabulary, and sums to 1. |
| Probabilities.GetWordProbabilities | morphology_metrics.py:123-134 | Each form of `vocab` gets its number of occurrences divided by `count_tokens`. |
| Probabilities.WordDistribution | morphology_metrics.py:123-134 | For a vocabulary covering the forms of a non-empty treebank, the probabilities form a distribution. A form's probability is positive if and only if the form occurs. |
| Ratios.TypeTokenRatio | morphology_metrics.py:107-110 | The type/token ratio lies in (0, 1], and equals 1 if and only if no form repeats. |
| Ratios.FormsOfMembership | morphology_metrics.py:98-105 | A form is in the set of a lemma if and only if some token has that lemma and that form. |
| Ratios.FormSetsStep | morphology_metrics.py:104 | Adding one token's form to its lemma's set keeps every set equal to the forms seen so far for that lemma. |
| Ratios.GetAllFormsOfLemmas | morphology_metrics.py:98-105 | There is one set per lemma of `lemma_vocab`, holding exactly the forms that tokens with that lemma take. |
| Ratios.FormsOfNonEmpty | morphology_metrics.py:82-83 | Every lemma of the treebank has at least one form. |
| Ratios.SumPositiveSizes | morphology_metrics.py:84-95 | When no set is empty, the unfiltered ratio lies in [0, 1), and is 0 if and only if every set has one form. |
| Ratios.LemmaToFormRatio | morphology_metrics.py:81-95 | `lemma2form_ratio` lies in [0, 1) with or without the filter. With the filter it is either 0 or at least 1/2. |
| Ratios.LemmaToFormRatioZero | morphology_metrics.py:81-95 | Without the filter, `lemma2form_ratio(tb)` is 0 if and only if every lemma has exactly one form. |
| Ratios.InflectedRatioBounds | morphology_metrics.py:87-95 | With the filter, the ratio is 0 when no set has two forms, and in [1/2, 1) otherwise. |
| Ratios.InflectedLemmaToFormRatio | morphology_metrics.py:81-95 | `lemma2form_ratio(tb, True)` is 0 when no lemma has two forms, and in [1/2, 1) otherwise. |
| Ratios.TwoLemmasTwoFormsEach | morphology_metrics.py:81-95 | Worked example, the sentences "dog barks" and "dogs bark": two lemmas with two forms each give 0.5 with and without the filter. |
| Ratios.ExampleTypeTokenRatio | morphology_metrics.py:107-110 | Worked example: the same four tokens have four distinct forms, so the type/token ratio is 1. |

## Left out

- `normalised_head_pos_entropy` after the probabilities (lines 26-36), and `normalised_word_entropy` (lines 115-121): these are floating-point logarithms. The model stops at the distributions they consume. It proves that each head-UPOS row has `|pos_vocab|` entries and sums to one, so the `instances` counted at lines 29-33 is the number of UPOS tags.
- `get_morphological_complexity_score` (lines 136-144) and the command-line entry point are left out. They average floating-point scores and open a file.
- Opening and reading the file: `read_treebank` is modelled over the sequence of lines the file yields.
- HEAD parsing: only HEAD fields of ASCII digits are modelled. Python's `int` also accepts signs, surrounding whitespace, underscores and other Unicode digits, and raises ValueError on anything else. A HEAD that cannot be parsed makes `int(entry[6])` raise ValueError at line 54, and one that points past the sentence makes the index at line 55 raise IndexError. `Probabilities.HeadsResolvable` excludes both cases as a precondition.
- Exceptions are preconditions, not modelled error results. These are: a form outside `dw_vocab` or `vocab` (KeyError at lines 56, 57 and 129), a head UPOS outside `pos_vocab` (KeyError at line 56), a lemma outside `lemma_vocab` (KeyError at line 104), and a zero divisor at lines 62, 110 and 132.
- Floating point: counts start at `0.` in the source and are naturals here. Quotients are exact reals, so rounding is not modelled.
- Dictionary and set iteration order: maps and sets are unordered here. Sums are taken in an unspecified order, and `Sums.SumRemove` shows that the order does not matter.
- Ratios.LemmaToFormRatio: a ghost function, because the sum over a dict's values is defined by choosing keys in an unspecified order. No executable version of `lemma2form_ratio` is given. `Ratios.GetAllFormsOfLemmas` computes the form sets it uses.
- Rows shorter than ten fields never reach the counting code, because the reader drops them. `Corpus.Token` therefore has exactly ten fields.
- `copy.deepcopy` at line 77: rows are values here, so a copy can never share storage with its input.
