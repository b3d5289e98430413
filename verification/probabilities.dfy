/** The probability estimators of morphology_metrics.py:
    `get_hpos_given_word_probabilities` (lines 45-64), the distribution of the
    part of speech of a token's head given the token's (delexicalised) form,
    and `get_word_probabilities` (lines 123-134), the unigram distribution of
    forms. Counts are natural numbers and probabilities exact reals. */
module Probabilities {
  import opened Sums
  import opened Text
  import opened Corpus
  import opened Delex

  // ---------------------------------------------------------------------
  // Heads

  /** `int(head) - 1` is a valid Python index into a sentence of `n` tokens:
      the field is a decimal number no larger than `n` (0 is the root). */
  predicate ValidHead(head: string, n: nat) {
    IsDigits(head) && DecimalValue(head) <= n
  }

  predicate SentenceHeadsResolvable(s: Sentence) {
    forall j :: 0 <= j < |s| ==> ValidHead(s[j][HEAD], |s|)
  }

  /** Every HEAD field of the treebank can be looked up without an exception. */
  predicate HeadsResolvable(tb: Treebank) {
    forall i :: 0 <= i < |tb| ==> SentenceHeadsResolvable(tb[i])
  }

  /** The position `tree[int(entry[6]) - 1]` reads: HEAD - 1 for a dependent,
      and for the root (HEAD 0) Python's index -1, the last token of the
      sentence. */
  function HeadIndex(s: Sentence, j: nat): (h: nat)
    requires j < |s| && ValidHead(s[j][HEAD], |s|)
    ensures h < |s|
    ensures DecimalValue(s[j][HEAD]) > 0 ==> h + 1 == DecimalValue(s[j][HEAD])
    ensures DecimalValue(s[j][HEAD]) == 0 ==> h == |s| - 1
  {
    PyIndex(DecimalValue(s[j][HEAD]) - 1, |s|)
  }

  /** The UPOS of the token that the source takes as the head of token `j`. */
  function HeadPos(s: Sentence, j: nat): string
    requires j < |s| && ValidHead(s[j][HEAD], |s|)
  {
    s[HeadIndex(s, j)][UPOS]
  }

  /** (form, head UPOS) for every token of a sentence, in order. */
  function SentencePairs(s: Sentence): seq<(string, string)>
    requires SentenceHeadsResolvable(s)
  {
    seq(|s|, j requires 0 <= j < |s| => (s[j][FORM], HeadPos(s, j)))
  }

  /** (form, head UPOS) for every token of the treebank, in order. */
  function HeadPosPairs(tb: Treebank): seq<(string, string)>
    requires HeadsResolvable(tb)
    decreases |tb|
  {
    if tb == [] then []
    else HeadPosPairs(tb[..|tb| - 1]) + SentencePairs(tb[|tb| - 1])
  }

  function Firsts(pairs: seq<(string, string)>): (firsts: seq<string>)
    ensures |firsts| == |pairs|
  {
    seq(|pairs|, k requires 0 <= k < |pairs| => pairs[k].0)
  }

  /** A root token is counted against the last token of its sentence, as
      Python's negative indexing makes `tree[-1]` do. */
  lemma RootHeadIsLastToken(s: Sentence, j: nat)
    requires SentenceHeadsResolvable(s) && j < |s|
    requires s[j][HEAD] == "0"
    ensures SentencePairs(s)[j] == (s[j][FORM], s[|s| - 1][UPOS])
  {
    assert s[j][HEAD][..0] == [];
    assert DecimalValue(s[j][HEAD]) == 0;
  }

  // ---------------------------------------------------------------------
  // Counting

  /** counts[w][p] for one `w`: how often `w` occurs with head UPOS `p`. */
  function RowCounts(pairs: seq<(string, string)>, w: string, posVocab: set<string>): map<string, nat> {
    map p | p in posVocab :: multiset(pairs)[(w, p)]
  }

  /** How often each word of `vocab` occurs in `xs`. */
  function ValueCounts(xs: seq<string>, vocab: set<string>): map<string, nat> {
    map w | w in vocab :: multiset(xs)[w]
  }

  /** `counts[w]` after line 57: for each head UPOS of `pos_vocab`, the
      number of tokens with form `w` whose head has that UPOS. */
  function HeadPosRow(tb: Treebank, w: string, posVocab: set<string>): map<string, nat>
    requires HeadsResolvable(tb)
  {
    RowCounts(HeadPosPairs(tb), w, posVocab)
  }

  /** Occurrences of every form of `vocab` (`total_counts` at line 57, and
      `counts` at line 129). */
  function WordCounts(tb: Treebank, vocab: set<string>): map<string, nat> {
    ValueCounts(Column(tb, FORM), vocab)
  }

  /** `counts` holds, for every word of `vocab`, its number of occurrences in
      `xs`: ValueCounts, stated key by key. */
  ghost predicate CountsAre(counts: map<string, nat>, xs: seq<string>, vocab: set<string>) {
    counts.Keys == vocab && forall w :: w in vocab ==> counts[w] == multiset(xs)[w]
  }

  lemma CountsAreValueCounts(counts: map<string, nat>, xs: seq<string>, vocab: set<string>)
    requires CountsAre(counts, xs, vocab)
    ensures counts == ValueCounts(xs, vocab)
  {
  }

  /** One increment of line 57 (or 129) keeps `counts` equal to the counts of
      the words seen so far. */
  lemma TotalsStep(counts: map<string, nat>, xs: seq<string>, x: string, vocab: set<string>)
    requires x in vocab && CountsAre(counts, xs, vocab)
    ensures CountsAre(counts[x := counts[x] + 1], xs + [x], vocab)
  {
    assert multiset(xs + [x]) == multiset(xs) + multiset{x};
  }

  lemma ValueCountsSnoc(xs: seq<string>, x: string, vocab: set<string>)
    requires x in vocab
    ensures ValueCounts(xs + [x], vocab) ==
            ValueCounts(xs, vocab)[x := ValueCounts(xs, vocab)[x] + 1]
  {
  }

  lemma RowCountsSame(pairs: seq<(string, string)>, pr: (string, string), w: string, posVocab: set<string>)
    requires pr.0 != w
    ensures RowCounts(pairs + [pr], w, posVocab) == RowCounts(pairs, w, posVocab)
  {
  }

  lemma RowCountsInc(pairs: seq<(string, string)>, pr: (string, string), posVocab: set<string>)
    requires pr.1 in posVocab
    ensures RowCounts(pairs + [pr], pr.0, posVocab) ==
            RowCounts(pairs, pr.0, posVocab)[pr.1 := RowCounts(pairs, pr.0, posVocab)[pr.1] + 1]
  {
  }

  lemma HeadPosPairsSnoc(tb: Treebank, i: nat)
    requires HeadsResolvable(tb) && i < |tb|
    ensures HeadPosPairs(tb[..i + 1]) == HeadPosPairs(tb[..i]) + SentencePairs(tb[i])
  {
    assert tb[..i + 1][..i] == tb[..i];
  }

  lemma ColumnSnoc(tb: Treebank, i: nat, c: nat)
    requires i < |tb| && c < 10
    ensures Column(tb[..i + 1], c) == Column(tb[..i], c) + Project(tb[i], c)
  {
    TokensSnoc(tb, i);
    ProjectAppend(Tokens(tb[..i]), tb[i], c);
  }

  /** The first components of the (form, head UPOS) pairs are the forms. */
  lemma {:induction false} FirstsOfHeadPosPairs(tb: Treebank)
    requires HeadsResolvable(tb)
    ensures Firsts(HeadPosPairs(tb)) == Column(tb, FORM)
    decreases |tb|
  {
    if tb != [] {
      var n := |tb| - 1;
      FirstsOfHeadPosPairs(tb[..n]);
      HeadPosPairsSnoc(tb, n);
      ColumnSnoc(tb, n, FORM);
      assert tb[..n + 1] == tb;
    }
  }

  /** Each (form, head UPOS) pair comes from one token of one sentence. */
  lemma {:induction false} PairOrigin(tb: Treebank, pr: (string, string))
    requires HeadsResolvable(tb) && pr in HeadPosPairs(tb)
    ensures exists i, j :: 0 <= i < |tb| && 0 <= j < |tb[i]| && pr == SentencePairs(tb[i])[j]
    decreases |tb|
  {
    var n := |tb| - 1;
    if pr in HeadPosPairs(tb[..n]) {
      PairOrigin(tb[..n], pr);
      var i, j :| 0 <= i < n && 0 <= j < |tb[..n][i]| && pr == SentencePairs(tb[..n][i])[j];
      assert tb[..n][i] == tb[i];
    } else {
      var j :| 0 <= j < |tb[n]| && SentencePairs(tb[n])[j] == pr;
    }
  }

  /** The head of every token is a token of the same sentence, so every head
      UPOS is in the UPOS vocabulary of the treebank: with `pos_vocab =
      get_vocab(tb, 3)` the lookup at line 56 cannot fail. */
  lemma HeadPosInVocab(tb: Treebank)
    requires HeadsResolvable(tb)
    ensures forall i, j :: 0 <= i < |tb| && 0 <= j < |tb[i]| ==> HeadPos(tb[i], j) in Vocab(tb, UPOS)
  {
    forall i, j | 0 <= i < |tb| && 0 <= j < |tb[i]|
      ensures HeadPos(tb[i], j) in Vocab(tb, UPOS)
    {
      var h := HeadIndex(tb[i], j);
      assert tb[i][h][UPOS] == HeadPos(tb[i], j);
      VocabMembership(tb, UPOS, HeadPos(tb[i], j));
    }
  }

  /** Line 57 counts each token once: the counts of `dw_vocab` add up to the
      number of tokens when every form is in `dw_vocab`. */
  lemma {:induction false} ValueCountsTotal(xs: seq<string>, vocab: set<string>)
    requires forall x :: x in xs ==> x in vocab
    ensures Sum(ValueCounts(xs, vocab)) == |xs|
    decreases |xs|
  {
    if xs == [] {
      SumOfZeros(ValueCounts(xs, vocab));
    } else {
      var init := xs[..|xs| - 1];
      var x := xs[|xs| - 1];
      assert xs == init + [x];
      ValueCountsTotal(init, vocab);
      ValueCountsSnoc(init, x, vocab);
      SumUpdate(ValueCounts(init, vocab), x, ValueCounts(init, vocab)[x] + 1);
    }
  }

  /** Line 56 counts each token of `w` once, under one head UPOS. */
  lemma {:induction false} RowCountsTotal(pairs: seq<(string, string)>, w: string, posVocab: set<string>)
    requires forall pr :: pr in pairs ==> pr.1 in posVocab
    ensures Sum(RowCounts(pairs, w, posVocab)) == multiset(Firsts(pairs))[w]
    decreases |pairs|
  {
    if pairs == [] {
      SumOfZeros(RowCounts(pairs, w, posVocab));
    } else {
      var init := pairs[..|pairs| - 1];
      var pr := pairs[|pairs| - 1];
      assert pairs == init + [pr];
      assert Firsts(pairs) == Firsts(init) + [pr.0];
      RowCountsTotal(init, w, posVocab);
      if pr.0 == w {
        RowCountsInc(init, pr, posVocab);
        SumUpdate(RowCounts(init, w, posVocab), pr.1, RowCounts(init, w, posVocab)[pr.1] + 1);
      } else {
        RowCountsSame(init, pr, w, posVocab);
      }
    }
  }

  /** For each form, the counts over all head UPOS tags add up to the form's
      total (Σ_p counts[w][p] = total_counts[w]). */
  lemma HeadPosRowSum(tb: Treebank, dwVocab: set<string>, posVocab: set<string>, w: string)
    requires HeadsResolvable(tb)
    requires forall pr :: pr in HeadPosPairs(tb) ==> pr.1 in posVocab
    requires w in dwVocab
    ensures Sum(HeadPosRow(tb, w, posVocab)) == WordCounts(tb, dwVocab)[w]
  {
    RowCountsTotal(HeadPosPairs(tb), w, posVocab);
    FirstsOfHeadPosPairs(tb);
  }

  /** The totals over all forms add up to `count_tokens` (Σ_w total_counts[w]
      = count_tokens(treebank)). */
  lemma WordCountsSum(tb: Treebank, vocab: set<string>)
    requires Vocab(tb, FORM) <= vocab
    ensures Sum(WordCounts(tb, vocab)) == CountTokens(tb)
  {
    ValueCountsTotal(Column(tb, FORM), vocab);
  }

  /** A form of the treebank's own vocabulary occurs at least once, so its
      total is never zero. */
  lemma WordCountsPositive(tb: Treebank, vocab: set<string>)
    requires vocab <= Vocab(tb, FORM)
    ensures forall w :: w in vocab ==> WordCounts(tb, vocab)[w] >= 1
  {
    forall w | w in vocab ensures WordCounts(tb, vocab)[w] >= 1 {
      WordCountOccurs(tb, vocab, w);
    }
  }

  /** A form's total is positive exactly when the form occurs. */
  lemma WordCountOccurs(tb: Treebank, vocab: set<string>, w: string)
    requires w in vocab
    ensures WordCounts(tb, vocab)[w] >= 1 <==> w in Vocab(tb, FORM)
  {
    if w in Vocab(tb, FORM) {
      assert w in multiset(Column(tb, FORM));
    }
  }

  // ---------------------------------------------------------------------
  // Normalisation

  /** Each count divided by the total (`v/total`, `c/total`). */
  function Normalise(counts: map<string, nat>, total: nat): (probs: map<string, real>)
    requires total > 0 || counts == map[]
    ensures probs.Keys == counts.Keys
  {
    map k | k in counts :: counts[k] as real / total as real
  }

  /** Every value is a probability and the values add up to one. */
  ghost predicate IsDistribution(probs: map<string, real>) {
    (forall k :: k in probs ==> 0.0 <= probs[k] <= 1.0) && RealSum(probs) == 1.0
  }

  /** Counts divided by their own sum form a distribution. */
  lemma NormaliseIsDistribution(counts: map<string, nat>, total: nat)
    requires total > 0 && Sum(counts) == total
    ensures IsDistribution(Normalise(counts, total))
  {
    NormaliseSum(counts, total);
    NormaliseBounds(counts, total);
    SelfQuotient(total as real);
  }

  lemma NormaliseSum(counts: map<string, nat>, total: nat)
    requires total > 0
    ensures RealSum(Normalise(counts, total)) == Sum(counts) as real / total as real
  {
    RealSumOfQuotients(counts, total as real);
  }

  lemma NormaliseBounds(counts: map<string, nat>, total: nat)
    requires total > 0 && Sum(counts) == total
    ensures forall k :: k in counts ==> 0.0 <= Normalise(counts, total)[k] <= 1.0
  {
    forall k | k in counts ensures 0.0 <= Normalise(counts, total)[k] <= 1.0 {
      ValueAtMostSum(counts, k);
      QuotientAtMostOne(counts[k], total);
    }
  }

  /** The division loops of lines 59-63 and 131-133: every count of the map
      divided by `total`, one key at a time. */
  method NormaliseCounts(counts: map<string, nat>, total: nat) returns (probs: map<string, real>)
    requires total > 0 || counts == map[]
    ensures probs == Normalise(counts, total)
  {
    probs := map[];
    var pending := counts.Keys;
    while pending != {}
      invariant pending <= counts.Keys
      invariant probs == map k | k in counts.Keys - pending :: counts[k] as real / total as real
      decreases pending
    {
      var k :| k in pending;
      probs := probs[k := counts[k] as real / total as real];
      pending := pending - {k};
    }
  }

  // ---------------------------------------------------------------------
  // get_hpos_given_word_probabilities

  /** `counts` holds, for every form of `dwVocab`, the row of head UPOS counts
      of `pairs`. */
  ghost predicate RowsAre(counts: map<string, map<string, nat>>, pairs: seq<(string, string)>,
                          dwVocab: set<string>, posVocab: set<string>) {
    counts.Keys == dwVocab &&
    forall w :: w in dwVocab ==> counts[w] == RowCounts(pairs, w, posVocab)
  }

  /** One increment of line 56 keeps every row equal to the counts of the
      pairs seen so far. */
  lemma CountStep(counts: map<string, map<string, nat>>, before: seq<(string, string)>,
                  pr: (string, string), dwVocab: set<string>, posVocab: set<string>)
    requires pr.0 in dwVocab && pr.1 in posVocab
    requires RowsAre(counts, before, dwVocab, posVocab)
    ensures RowsAre(counts[pr.0 := counts[pr.0][pr.1 := counts[pr.0][pr.1] + 1]],
                    before + [pr], dwVocab, posVocab)
  {
    RowCountsInc(before, pr, posVocab);
    forall w | w in dwVocab && w != pr.0
      ensures RowCounts(before + [pr], w, posVocab) == RowCounts(before, w, posVocab)
    {
      RowCountsSame(before, pr, w, posVocab);
    }
  }

  /** The (form, head UPOS) pairs of a sentence grow by one token at a time. */
  lemma PairsSnoc(s: Sentence, j: nat, done: seq<(string, string)>)
    requires SentenceHeadsResolvable(s) && j < |s|
    ensures done + SentencePairs(s)[..j + 1] == (done + SentencePairs(s)[..j]) + [(s[j][FORM], HeadPos(s, j))]
  {
    assert SentencePairs(s)[..j + 1] == SentencePairs(s)[..j] + [(s[j][FORM], HeadPos(s, j))];
  }

  /** The forms of a sentence grow by one token at a time. */
  lemma FormsSnoc(s: Sentence, j: nat, forms: seq<string>)
    requires j < |s|
    ensures forms + Project(s[..j + 1], FORM) == (forms + Project(s[..j], FORM)) + [s[j][FORM]]
  {
    assert s[..j + 1] == s[..j] + [s[j]];
    ProjectAppend(s[..j], [s[j]], FORM);
  }

  /** Lines 56-57 for one token: `counts[dw][head_pos] += 1` and
      `total_counts[dw] += 1` keep both maps equal to the counts of the tokens
      seen so far. */
  method CountToken(counts: map<string, map<string, nat>>, totals: map<string, nat>,
                    dw: string, headPos: string, dwVocab: set<string>, posVocab: set<string>,
                    ghost seen: seq<(string, string)>, ghost seenForms: seq<string>)
    returns (counts': map<string, map<string, nat>>, totals': map<string, nat>)
    requires dw in dwVocab && headPos in posVocab
    requires RowsAre(counts, seen, dwVocab, posVocab)
    requires CountsAre(totals, seenForms, dwVocab)
    ensures RowsAre(counts', seen + [(dw, headPos)], dwVocab, posVocab)
    ensures CountsAre(totals', seenForms + [dw], dwVocab)
  {
    CountStep(counts, seen, (dw, headPos), dwVocab, posVocab);
    TotalsStep(totals, seenForms, dw, dwVocab);
    counts' := counts[dw := counts[dw][headPos := counts[dw][headPos] + 1]];
    totals' := totals[dw := totals[dw] + 1];
  }

  /** The inner loop of lines 52-57 over the tokens of sentence `i`;
      `HeadPos` is the lookup `tree[int(entry[6]) - 1][3]` of line 55. After
      it, both tables count the first `i + 1` sentences. */
  method CountSentence(tb: Treebank, i: nat, dwVocab: set<string>, posVocab: set<string>,
                       counts: map<string, map<string, nat>>, totals: map<string, nat>)
    returns (counts': map<string, map<string, nat>>, totals': map<string, nat>)
    requires HeadsResolvable(tb) && i < |tb|
    requires forall i, j :: 0 <= i < |tb| && 0 <= j < |tb[i]| ==> tb[i][j][FORM] in dwVocab
    requires forall i, j :: 0 <= i < |tb| && 0 <= j < |tb[i]| ==> HeadPos(tb[i], j) in posVocab
    requires RowsAre(counts, HeadPosPairs(tb[..i]), dwVocab, posVocab)
    requires CountsAre(totals, Column(tb[..i], FORM), dwVocab)
    ensures RowsAre(counts', HeadPosPairs(tb[..i + 1]), dwVocab, posVocab)
    ensures CountsAre(totals', Column(tb[..i + 1], FORM), dwVocab)
  {
    SentenceLookups(tb, i, dwVocab, posVocab);
    var tree := tb[i];
    ghost var done := HeadPosPairs(tb[..i]);
    ghost var forms := Column(tb[..i], FORM);
    counts', totals' := counts, totals;
    ghost var seen := done;
    ghost var seenForms := forms;
    for j := 0 to |tree|
      invariant seen == done + SentencePairs(tree)[..j]
      invariant seenForms == forms + Project(tree[..j], FORM)
      invariant RowsAre(counts', seen, dwVocab, posVocab)
      invariant CountsAre(totals', seenForms, dwVocab)
    {
      var dw := tree[j][FORM];
      var headPos := HeadPos(tree, j);
      counts', totals' := CountToken(counts', totals', dw, headPos, dwVocab, posVocab, seen, seenForms);
      PairsSnoc(tree, j, done);
      FormsSnoc(tree, j, forms);
      seen := seen + [(dw, headPos)];
      seenForms := seenForms + [dw];
    }
    assert SentencePairs(tree)[..|tree|] == SentencePairs(tree);
    assert tree[..|tree|] == tree;
    HeadPosPairsSnoc(tb, i);
    ColumnSnoc(tb, i, FORM);
  }

  /** The lookups of lines 53-57 for the tokens of sentence `i`: the
      treebank-wide requires, instantiated at sentence `i` so that the inner
      loop of CountSentence can use them. */
  lemma SentenceLookups(tb: Treebank, i: nat, dwVocab: set<string>, posVocab: set<string>)
    requires HeadsResolvable(tb) && i < |tb|
    requires forall i, j :: 0 <= i < |tb| && 0 <= j < |tb[i]| ==> tb[i][j][FORM] in dwVocab
    requires forall i, j :: 0 <= i < |tb| && 0 <= j < |tb[i]| ==> HeadPos(tb[i], j) in posVocab
    ensures SentenceHeadsResolvable(tb[i])
    ensures forall j :: 0 <= j < |tb[i]| ==> tb[i][j][FORM] in dwVocab && HeadPos(tb[i], j) in posVocab
  {
  }

  /** Lines 46-50: a zero for every pair of `dw_vocab` × `pos_vocab`, and a
      zero total for every form of `dw_vocab`; these are the counts of no
      tokens at all. */
  method ZeroCounts(dwVocab: set<string>, posVocab: set<string>)
    returns (counts: map<string, map<string, nat>>, totals: map<string, nat>)
    ensures RowsAre(counts, [], dwVocab, posVocab)
    ensures CountsAre(totals, [], dwVocab)
  {
    counts := map w | w in dwVocab :: map p | p in posVocab :: 0;
    totals := map w | w in dwVocab :: 0;
  }

  /** Lines 46-57: `counts[dw][head_pos]` and `total_counts[dw]`, initialised
      to zero over `dw_vocab` × `pos_vocab` and incremented once per token.
      The requires clauses are the lookups that raise otherwise: a form outside
      `dw_vocab` or a head UPOS outside `pos_vocab` (KeyError), a HEAD that is
      not a number or lies past the end of the sentence. */
  method CountHeadPos(tb: Treebank, dwVocab: set<string>, posVocab: set<string>)
    returns (counts: map<string, map<string, nat>>, totals: map<string, nat>)
    requires HeadsResolvable(tb)
    requires forall i, j :: 0 <= i < |tb| && 0 <= j < |tb[i]| ==> tb[i][j][FORM] in dwVocab
    requires forall i, j :: 0 <= i < |tb| && 0 <= j < |tb[i]| ==> HeadPos(tb[i], j) in posVocab
    ensures RowsAre(counts, HeadPosPairs(tb), dwVocab, posVocab)
    ensures totals == WordCounts(tb, dwVocab)
  {
    counts, totals := ZeroCounts(dwVocab, posVocab);
    assert tb[..0] == [];
    for i := 0 to |tb|
      invariant RowsAre(counts, HeadPosPairs(tb[..i]), dwVocab, posVocab)
      invariant CountsAre(totals, Column(tb[..i], FORM), dwVocab)
    {
      counts, totals := CountSentence(tb, i, dwVocab, posVocab, counts, totals);
    }
    assert tb[..|tb|] == tb;
    CountsAreValueCounts(totals, Column(tb, FORM), dwVocab);
  }

  /** The divisor of line 62 is non-zero whenever there is something to
      divide: a form of `dwVocab` that never occurs has a zero total, and is
      harmless only when `pos_vocab` is empty. */
  lemma TotalsUsable(tb: Treebank, dwVocab: set<string>, posVocab: set<string>)
    requires HeadsResolvable(tb)
    requires posVocab == {} || dwVocab <= Vocab(tb, FORM)
    ensures forall w :: w in dwVocab ==>
              WordCounts(tb, dwVocab)[w] > 0 || HeadPosRow(tb, w, posVocab) == map[]
  {
    if posVocab != {} {
      WordCountsPositive(tb, dwVocab);
    }
  }

  /** The head lookups of the treebank, restated over the (form, head UPOS)
      pairs. */
  lemma PairsInPosVocab(tb: Treebank, posVocab: set<string>)
    requires HeadsResolvable(tb)
    requires forall i, j :: 0 <= i < |tb| && 0 <= j < |tb[i]| ==> HeadPos(tb[i], j) in posVocab
    ensures forall pr :: pr in HeadPosPairs(tb) ==> pr.1 in posVocab
  {
    forall pr | pr in HeadPosPairs(tb) ensures pr.1 in posVocab {
      PairOrigin(tb, pr);
    }
  }

  /** `get_hpos_given_word_probabilities`: the counts of lines 46-57, then
      every row divided by its form's total (lines 58-63). Besides the lookups
      that CountHeadPos needs, line 62 divides by zero unless every form of
      `dw_vocab` occurs or `pos_vocab` is empty. */
  method GetHposGivenWordProbabilities(tb: Treebank, dwVocab: set<string>, posVocab: set<string>)
    returns (probabilities: map<string, map<string, real>>)
    requires HeadsResolvable(tb)
    requires forall i, j :: 0 <= i < |tb| && 0 <= j < |tb[i]| ==> tb[i][j][FORM] in dwVocab
    requires forall i, j :: 0 <= i < |tb| && 0 <= j < |tb[i]| ==> HeadPos(tb[i], j) in posVocab
    requires posVocab == {} || dwVocab <= Vocab(tb, FORM)
    ensures probabilities.Keys == dwVocab
    ensures forall w :: w in dwVocab ==>
              (TotalsUsable(tb, dwVocab, posVocab);
               probabilities[w] == Normalise(HeadPosRow(tb, w, posVocab), WordCounts(tb, dwVocab)[w]))
  {
    var counts, totals := CountHeadPos(tb, dwVocab, posVocab);
    TotalsUsable(tb, dwVocab, posVocab);
    probabilities := NormaliseRows(counts, totals, dwVocab);
  }

  /** Lines 58-63: each row of counts divided by the total of its form. */
  method NormaliseRows(counts: map<string, map<string, nat>>, totals: map<string, nat>, dwVocab: set<string>)
    returns (probabilities: map<string, map<string, real>>)
    requires counts.Keys == dwVocab && totals.Keys == dwVocab
    requires forall w :: w in dwVocab ==> totals[w] > 0 || counts[w] == map[]
    ensures probabilities.Keys == dwVocab
    ensures forall w :: w in dwVocab ==> probabilities[w] == Normalise(counts[w], totals[w])
  {
    probabilities := map w | w in dwVocab :: map[];
    var pending := dwVocab;
    while pending != {}
      invariant pending <= dwVocab
      invariant probabilities.Keys == dwVocab
      invariant forall w :: w in dwVocab - pending ==> probabilities[w] == Normalise(counts[w], totals[w])
      decreases pending
    {
      var w :| w in pending;
      var row := NormaliseCounts(counts[w], totals[w]);
      probabilities := probabilities[w := row];
      pending := pending - {w};
    }
  }

  /** For a form that occurs, the row holds one probability per UPOS of
      `pos_vocab`, each in [0, 1], and they add up to one: Σ_p counts[w][p]
      is the form's total. */
  lemma HeadPosDistribution(tb: Treebank, dwVocab: set<string>, posVocab: set<string>, w: string)
    requires HeadsResolvable(tb)
    requires forall i, j :: 0 <= i < |tb| && 0 <= j < |tb[i]| ==> HeadPos(tb[i], j) in posVocab
    requires w in dwVocab && w in Vocab(tb, FORM)
    ensures WordCounts(tb, dwVocab)[w] >= 1
    ensures var row := Normalise(HeadPosRow(tb, w, posVocab), WordCounts(tb, dwVocab)[w]);
            row.Keys == posVocab && IsDistribution(row)
  {
    assert w in multiset(Column(tb, FORM));
    PairsInPosVocab(tb, posVocab);
    HeadPosRowSum(tb, dwVocab, posVocab, w);
    NormaliseIsDistribution(HeadPosRow(tb, w, posVocab), WordCounts(tb, dwVocab)[w]);
  }

  // ---------------------------------------------------------------------
  // get_word_probabilities

  /** `get_word_probabilities`: how often each form of `vocab` occurs
      (lines 124-129), divided by `count_tokens` (lines 130-133). Line 129
      raises KeyError for a form outside `vocab`, and line 132 divides by zero
      when the treebank has no tokens but `vocab` is not empty. */
  method GetWordProbabilities(tb: Treebank, vocab: set<string>) returns (probabilities: map<string, real>)
    requires forall i, j :: 0 <= i < |tb| && 0 <= j < |tb[i]| ==> tb[i][j][FORM] in vocab
    requires vocab == {} || CountTokens(tb) > 0
    ensures probabilities == Normalise(WordCounts(tb, vocab), CountTokens(tb))
  {
    var counts: map<string, nat> := map w | w in vocab :: 0;
    var total := CountTokens(tb);
    for i := 0 to |tb|
      invariant CountsAre(counts, Column(tb[..i], FORM), vocab)
    {
      ghost var before := Column(tb[..i], FORM);
      for j := 0 to |tb[i]|
        invariant CountsAre(counts, before + Project(tb[i][..j], FORM), vocab)
      {
        var word := tb[i][j][FORM];
        TotalsStep(counts, before + Project(tb[i][..j], FORM), word, vocab);
        FormsSnoc(tb[i], j, before);
        counts := counts[word := counts[word] + 1];
      }
      assert tb[i][..|tb[i]|] == tb[i];
      ColumnSnoc(tb, i, FORM);
    }
    assert tb[..|tb|] == tb;
    CountsAreValueCounts(counts, Column(tb, FORM), vocab);
    probabilities := NormaliseCounts(counts, total);
  }

  /** With `vocab` covering the forms of a non-empty treebank, the result is a
      distribution: every probability in [0, 1], adding up to one, and a
      form's probability is positive exactly when the form occurs. */
  lemma WordDistribution(tb: Treebank, vocab: set<string>)
    requires Vocab(tb, FORM) <= vocab && CountTokens(tb) > 0
    ensures var probabilities := Normalise(WordCounts(tb, vocab), CountTokens(tb));
            && IsDistribution(probabilities)
            && forall w :: w in vocab ==> (probabilities[w] > 0.0 <==> w in Vocab(tb, FORM))
  {
    var counts := WordCounts(tb, vocab);
    WordCountsSum(tb, vocab);
    NormaliseIsDistribution(counts, CountTokens(tb));
    forall w | w in vocab
      ensures Normalise(counts, CountTokens(tb))[w] > 0.0 <==> w in Vocab(tb, FORM)
    {
      WordCountOccurs(tb, vocab, w);
      QuotientPositive(counts[w], CountTokens(tb));
    }
  }

  // ---------------------------------------------------------------------
  // normalised_head_pos_entropy, up to the probabilities

  /** Delexicalisation keeps the HEAD fields and the sentence lengths, so
      every head lookup that succeeds on the treebank succeeds on its
      delexicalised copy. */
  lemma DelexicalisedHeadsResolvable(tb: Treebank)
    requires HeadsResolvable(tb)
    ensures HeadsResolvable(Delexicalise(tb))
  {
    var d := Delexicalise(tb);
    forall i | 0 <= i < |d| ensures SentenceHeadsResolvable(d[i]) {
      assert SentenceHeadsResolvable(tb[i]);
    }
  }

  /** Lines 21-25: the treebank delexicalised, its form and UPOS vocabularies
      collected, and the head-UPOS distribution of every delexicalised form
      computed. Every head lookup succeeds once the HEAD fields resolve, and
      every row is a distribution over the UPOS tags of the treebank, so the
      number of entries of each row (`instances` at line 33) is the number of
      UPOS tags. */
  method DelexicalisedHeadPosProbabilities(tb: Treebank)
    returns (probabilities: map<string, map<string, real>>)
    requires HeadsResolvable(tb)
    ensures probabilities.Keys == Vocab(Delexicalise(tb), FORM)
    ensures forall w :: w in probabilities ==>
              (DelexicalisedHeadsResolvable(tb);
               WordCountsPositive(Delexicalise(tb), Vocab(Delexicalise(tb), FORM));
               probabilities[w] == Normalise(HeadPosRow(Delexicalise(tb), w, Vocab(tb, UPOS)),
                                             WordCounts(Delexicalise(tb), Vocab(Delexicalise(tb), FORM))[w]))
    ensures forall w :: w in probabilities ==>
              probabilities[w].Keys == Vocab(tb, UPOS) && IsDistribution(probabilities[w])
  {
    var delexicalised := DelexicaliseTreebank(tb);
    var dwVocab := GetVocab(delexicalised, FORM);
    var posVocab := GetVocab(delexicalised, UPOS);
    DelexicalisedHeadsResolvable(tb);
    VocabCovered(delexicalised, FORM, dwVocab);
    HeadPosInVocab(delexicalised);
    probabilities := GetHposGivenWordProbabilities(delexicalised, dwVocab, posVocab);
    forall w | w in dwVocab
      ensures probabilities[w].Keys == posVocab && IsDistribution(probabilities[w])
    {
      HeadPosDistribution(delexicalised, dwVocab, posVocab, w);
    }
    DelexicalisedColumn(tb, UPOS);
  }
}
