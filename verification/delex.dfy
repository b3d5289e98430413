/** `delexicalise_tree` and `delexicalise_treebank`
    (morphology_metrics.py:66-79): the form of every token is replaced by
    `UPOS|FEATS`, on a copy. Sequences are values here, so the copy can never
    share storage with the input and the input cannot change. */
module Delex {
  import opened Corpus

  /** The morphological class of a token: its UPOS and FEATS joined by '|'. */
  function DelexicalisedWord(t: Token): string {
    t[UPOS] + "|" + t[FEATS]
  }

  /** `delexicalise_tree`: a copy of the row whose form field is the
      morphological class; every other field is the input's. */
  function DelexicaliseToken(t: Token): (r: Token)
    ensures r[FORM] == DelexicalisedWord(t)
    ensures forall c :: 0 <= c < 10 && c != FORM ==> r[c] == t[c]
  {
    t[FORM := DelexicalisedWord(t)]
  }

  /** The delexicalised treebank: same shape, every token delexicalised. */
  function Delexicalise(tb: Treebank): (r: Treebank)
    ensures |r| == |tb|
    ensures forall i :: 0 <= i < |tb| ==> |r[i]| == |tb[i]|
    ensures forall i, j :: 0 <= i < |tb| && 0 <= j < |tb[i]| ==>
              r[i][j] == DelexicaliseToken(tb[i][j])
    decreases |tb|
  {
    if tb == [] then []
    else
      var s := tb[|tb| - 1];
      Delexicalise(tb[..|tb| - 1]) + [seq(|s|, j requires 0 <= j < |s| => DelexicaliseToken(s[j]))]
  }

  /** `delexicalise_treebank`: one delexicalised sentence appended per input
      sentence. */
  method DelexicaliseTreebank(tb: Treebank) returns (delexicalised: Treebank)
    ensures delexicalised == Delexicalise(tb)
  {
    delexicalised := [];
    for i := 0 to |tb|
      invariant |delexicalised| == i
      invariant forall k :: 0 <= k < i ==> delexicalised[k] == Delexicalise(tb)[k]
    {
      var tree := tb[i];
      var delexicalisedTree := seq(|tree|, j requires 0 <= j < |tree| => DelexicaliseToken(tree[j]));
      delexicalised := delexicalised + [delexicalisedTree];
    }
  }

  /** Delexicalisation leaves every field but the form as it was, so the
      vocabulary of any other field is unchanged. */
  lemma {:induction false} DelexicalisedColumn(tb: Treebank, c: nat)
    requires c < 10 && c != FORM
    ensures Column(Delexicalise(tb), c) == Column(tb, c)
    decreases |tb|
  {
    if tb != [] {
      var n := |tb| - 1;
      var d := Delexicalise(tb);
      assert d[..n] == Delexicalise(tb[..n]);
      DelexicalisedColumn(tb[..n], c);
      ProjectAppend(Tokens(d[..n]), d[n], c);
      ProjectAppend(Tokens(tb[..n]), tb[n], c);
    }
  }
}
