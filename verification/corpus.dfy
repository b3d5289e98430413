/** The treebank as the scorer sees it: sentences of ten-field rows, and the
    two corpus-wide views every metric starts from, the number of tokens and
    the vocabulary of one field (morphology_metrics.py, `get_vocab` and
    `count_tokens`). */
module Corpus {

  /** Field positions of a row, in the order of the ten tab-separated columns. */
  const ID: nat := 0
  const FORM: nat := 1
  const LEMMA: nat := 2
  const UPOS: nat := 3
  const FEATS: nat := 5
  const HEAD: nat := 6

  /** One retained row: exactly ten string fields. */
  type Token = t: seq<string> | |t| == 10 witness ["", "", "", "", "", "", "", "", "", ""]

  type Sentence = seq<Token>

  type Treebank = seq<Sentence>

  /** Every token of the treebank, sentence after sentence. */
  function Tokens(tb: Treebank): seq<Token>
    decreases |tb|
  {
    if tb == [] then [] else Tokens(tb[..|tb| - 1]) + tb[|tb| - 1]
  }

  /** `count_tokens`: the sum of the sentence lengths, which is the number of
      tokens of the flattened treebank. */
  function CountTokens(tb: Treebank): (n: nat)
    ensures n == |Tokens(tb)|
    decreases |tb|
  {
    if tb == [] then 0 else CountTokens(tb[..|tb| - 1]) + |tb[|tb| - 1]|
  }

  /** The values of field `c` of the given tokens, in order. */
  function Project(ts: seq<Token>, c: nat): (column: seq<string>)
    requires c < 10
    ensures |column| == |ts|
    ensures forall k :: 0 <= k < |ts| ==> column[k] == ts[k][c]
  {
    seq(|ts|, k requires 0 <= k < |ts| => ts[k][c])
  }

  /** Field `c` of every token of the treebank, in order. */
  function Column(tb: Treebank, c: nat): seq<string>
    requires c < 10
  {
    Project(Tokens(tb), c)
  }

  /** The distinct values of field `c` (the value `get_vocab(treebank, c)` returns). */
  function Vocab(tb: Treebank, c: nat): set<string>
    requires c < 10
  {
    set x | x in Column(tb, c)
  }

  /** No value occurs twice in `xs`. */
  predicate Distinct(xs: seq<string>) {
    forall i, j :: 0 <= i < j < |xs| ==> xs[i] != xs[j]
  }

  /** The tokens of the treebank are exactly the rows of its sentences. */
  lemma {:induction false} TokensMembership(tb: Treebank, t: Token)
    ensures t in Tokens(tb) <==> exists i, j :: 0 <= i < |tb| && 0 <= j < |tb[i]| && tb[i][j] == t
    decreases |tb|
  {
    if tb != [] {
      var n := |tb| - 1;
      TokensMembership(tb[..n], t);
      if t in Tokens(tb) && t !in Tokens(tb[..n]) {
        var j :| 0 <= j < |tb[n]| && tb[n][j] == t;
      }
      if exists i, j :: 0 <= i < |tb| && 0 <= j < |tb[i]| && tb[i][j] == t {
        var i, j :| 0 <= i < |tb| && 0 <= j < |tb[i]| && tb[i][j] == t;
        if i < n {
          assert tb[..n][i][j] == t;
        } else {
          assert t in tb[n];
        }
      }
    }
  }

  /** Adding a sentence adds its tokens at the end. */
  lemma TokensSnoc(tb: Treebank, i: nat)
    requires i < |tb|
    ensures Tokens(tb[..i + 1]) == Tokens(tb[..i]) + tb[i]
  {
    assert tb[..i + 1][..i] == tb[..i];
  }

  lemma ProjectAppend(xs: seq<Token>, ys: seq<Token>, c: nat)
    requires c < 10
    ensures Project(xs + ys, c) == Project(xs, c) + Project(ys, c)
  {
  }

  /** A value is in the vocabulary of field `c` exactly when some token of some
      sentence carries it in that field. */
  lemma VocabMembership(tb: Treebank, c: nat, x: string)
    requires c < 10
    ensures x in Vocab(tb, c) <==>
            exists i, j :: 0 <= i < |tb| && 0 <= j < |tb[i]| && tb[i][j][c] == x
  {
    var ts := Tokens(tb);
    if x in Vocab(tb, c) {
      var k :| 0 <= k < |ts| && ts[k][c] == x;
      TokensMembership(tb, ts[k]);
    }
    if exists i, j :: 0 <= i < |tb| && 0 <= j < |tb[i]| && tb[i][j][c] == x {
      var i, j :| 0 <= i < |tb| && 0 <= j < |tb[i]| && tb[i][j][c] == x;
      TokensMembership(tb, tb[i][j]);
      var k :| 0 <= k < |ts| && ts[k] == tb[i][j];
      assert Column(tb, c)[k] == x;
    }
  }

  /** A value appended to a sequence keeps it repetition-free exactly when the
      value is new. */
  lemma DistinctSnoc(xs: seq<string>, x: string)
    ensures Distinct(xs + [x]) <==> Distinct(xs) && x !in xs
  {
    var ys := xs + [x];
    if Distinct(ys) {
      forall i, j | 0 <= i < j < |xs| ensures xs[i] != xs[j] {
        assert xs[i] == ys[i] && xs[j] == ys[j];
      }
    }
    if x in xs {
      var k :| 0 <= k < |xs| && xs[k] == x;
      assert ys[k] == ys[|xs|];
    }
  }

  /** Every token carries a value of `vocab` in field `c` exactly when `vocab`
      includes the vocabulary of that field. */
  lemma VocabCovered(tb: Treebank, c: nat, vocab: set<string>)
    requires c < 10
    ensures (forall i, j :: 0 <= i < |tb| && 0 <= j < |tb[i]| ==> tb[i][j][c] in vocab) <==>
            Vocab(tb, c) <= vocab
  {
    forall x | x in Vocab(tb, c)
      ensures exists i, j :: 0 <= i < |tb| && 0 <= j < |tb[i]| && tb[i][j][c] == x
    {
      VocabMembership(tb, c, x);
    }
    forall i, j | 0 <= i < |tb| && 0 <= j < |tb[i]|
      ensures tb[i][j][c] in Vocab(tb, c)
    {
      VocabMembership(tb, c, tb[i][j][c]);
    }
  }

  /** A sequence has at most as many distinct values as entries, and exactly
      as many when no value repeats. */
  lemma {:induction false} DistinctValues(xs: seq<string>)
    ensures |set x | x in xs| <= |xs|
    ensures |set x | x in xs| == |xs| <==> Distinct(xs)
    decreases |xs|
  {
    if xs != [] {
      var init := xs[..|xs| - 1];
      var last := xs[|xs| - 1];
      DistinctValues(init);
      assert xs == init + [last];
      DistinctSnoc(init, last);
      assert (set x | x in xs) == (set x | x in init) + {last};
      if last !in init {
        assert |set x | x in xs| == |set x | x in init| + 1;
      }
    }
  }

  /** `|get_vocab(tb, c)|` never exceeds `count_tokens(tb)`, equals it exactly
      when no value of field `c` repeats, and is zero only for a treebank
      without tokens. */
  lemma VocabSize(tb: Treebank, c: nat)
    requires c < 10
    ensures |Vocab(tb, c)| <= CountTokens(tb)
    ensures |Vocab(tb, c)| == CountTokens(tb) <==> Distinct(Column(tb, c))
    ensures |Vocab(tb, c)| == 0 <==> CountTokens(tb) == 0
  {
    DistinctValues(Column(tb, c));
    if CountTokens(tb) > 0 {
      assert Column(tb, c)[0] in Vocab(tb, c);
    }
  }

  /** `get_vocab`: every field-`c` value of every token, collected into a set. */
  method GetVocab(tb: Treebank, column: nat) returns (vocab: set<string>)
    requires column < 10
    ensures vocab == Vocab(tb, column)
  {
    vocab := {};
    for i := 0 to |tb|
      invariant vocab == Vocab(tb[..i], column)
    {
      for j := 0 to |tb[i]|
        invariant vocab == Vocab(tb[..i], column) + set k | 0 <= k < j :: tb[i][k][column]
      {
        vocab := vocab + {tb[i][j][column]};
      }
      TokensSnoc(tb, i);
      ProjectAppend(Tokens(tb[..i]), tb[i], column);
    }
    assert tb[..|tb|] == tb;
  }
}
