/** The ratio metrics of morphology_metrics.py: `token2type_ratio`
    (lines 107-110), `get_all_forms_of_lemmas` (lines 98-105) and
    `lemma2form_ratio` (lines 81-95). Ratios are exact reals. */
module Ratios {
  import opened Sums
  import opened Corpus

  // ---------------------------------------------------------------------
  // token2type_ratio

  /** `token2type_ratio`: distinct forms per token. Line 110 divides by zero
      on a treebank without tokens. The ratio is positive, at most one, and
      exactly one when no form occurs twice. */
  function TypeTokenRatio(tb: Treebank): (r: real)
    requires CountTokens(tb) > 0
    ensures 0.0 < r <= 1.0
    ensures r == 1.0 <==> Distinct(Column(tb, FORM))
  {
    VocabSize(tb, FORM);
    QuotientIsOne(|Vocab(tb, FORM)|, CountTokens(tb));
    |Vocab(tb, FORM)| as real / CountTokens(tb) as real
  }

  // ---------------------------------------------------------------------
  // get_all_forms_of_lemmas

  /** The forms that tokens of `ts` with lemma `l` take. */
  function FormsIn(ts: seq<Token>, l: string): set<string> {
    set k | 0 <= k < |ts| && ts[k][LEMMA] == l :: ts[k][FORM]
  }

  /** The set of forms of lemma `l` in the treebank. */
  function FormsOf(tb: Treebank, l: string): set<string> {
    FormsIn(Tokens(tb), l)
  }

  /** A form belongs to the set of a lemma exactly when some token of some
      sentence has that lemma and that form. */
  lemma FormsOfMembership(tb: Treebank, l: string, f: string)
    ensures f in FormsOf(tb, l) <==>
            exists i, j :: 0 <= i < |tb| && 0 <= j < |tb[i]| && tb[i][j][LEMMA] == l && tb[i][j][FORM] == f
  {
    var ts := Tokens(tb);
    if f in FormsOf(tb, l) {
      var k :| 0 <= k < |ts| && ts[k][LEMMA] == l && ts[k][FORM] == f;
      TokensMembership(tb, ts[k]);
    }
    if exists i, j :: 0 <= i < |tb| && 0 <= j < |tb[i]| && tb[i][j][LEMMA] == l && tb[i][j][FORM] == f {
      var i, j :| 0 <= i < |tb| && 0 <= j < |tb[i]| && tb[i][j][LEMMA] == l && tb[i][j][FORM] == f;
      TokensMembership(tb, tb[i][j]);
      var k :| 0 <= k < |ts| && ts[k] == tb[i][j];
      assert ts[k][FORM] == f;
    }
  }

  /** One more token adds its form to the set of its own lemma only. */
  lemma FormsInSnoc(ts: seq<Token>, t: Token, l: string)
    ensures FormsIn(ts + [t], l) == FormsIn(ts, l) + (if t[LEMMA] == l then {t[FORM]} else {})
  {
    var us := ts + [t];
    forall f | f in FormsIn(us, l) ensures f in FormsIn(ts, l) + (if t[LEMMA] == l then {t[FORM]} else {}) {
      var k :| 0 <= k < |us| && us[k][LEMMA] == l && us[k][FORM] == f;
      if k < |ts| {
        assert ts[k] == us[k];
      }
    }
    forall f | f in FormsIn(ts, l) ensures f in FormsIn(us, l) {
      var k :| 0 <= k < |ts| && ts[k][LEMMA] == l && ts[k][FORM] == f;
      assert us[k] == ts[k];
    }
    if t[LEMMA] == l {
      assert us[|ts|] == t;
    }
  }

  lemma TokensPrefixSnoc(tb: Treebank, i: nat, j: nat)
    requires i < |tb| && j < |tb[i]|
    ensures Tokens(tb[..i]) + tb[i][..j + 1] == (Tokens(tb[..i]) + tb[i][..j]) + [tb[i][j]]
  {
    assert tb[i][..j + 1] == tb[i][..j] + [tb[i][j]];
  }

  /** Line 104 for one token: the form joins the set of its lemma, and every
      set stays the forms of its lemma among the tokens seen so far. */
  lemma FormSetsStep(sets: map<string, set<string>>, ts: seq<Token>, t: Token, lemmaVocab: set<string>)
    requires t[LEMMA] in lemmaVocab
    requires sets.Keys == lemmaVocab
    requires forall l :: l in lemmaVocab ==> sets[l] == FormsIn(ts, l)
    ensures var next := sets[t[LEMMA] := sets[t[LEMMA]] + {t[FORM]}];
            next.Keys == lemmaVocab &&
            forall l :: l in lemmaVocab ==> next[l] == FormsIn(ts + [t], l)
  {
    forall l | l in lemmaVocab ensures FormsIn(ts + [t], l) == FormsIn(ts, l) + (if t[LEMMA] == l then {t[FORM]} else {}) {
      FormsInSnoc(ts, t, l);
    }
  }

  /** `get_all_forms_of_lemmas`: starting from an empty set per lemma of
      `lemma_vocab`, every token adds its form to the set of its lemma. A
      lemma outside `lemma_vocab` raises KeyError at line 104. */
  method GetAllFormsOfLemmas(tb: Treebank, lemmaVocab: set<string>)
    returns (lemmaFormSets: map<string, set<string>>)
    requires forall i, j :: 0 <= i < |tb| && 0 <= j < |tb[i]| ==> tb[i][j][LEMMA] in lemmaVocab
    ensures lemmaFormSets.Keys == lemmaVocab
    ensures forall l :: l in lemmaVocab ==> lemmaFormSets[l] == FormsOf(tb, l)
  {
    lemmaFormSets := map l | l in lemmaVocab :: {};
    for i := 0 to |tb|
      invariant lemmaFormSets.Keys == lemmaVocab
      invariant forall l :: l in lemmaVocab ==> lemmaFormSets[l] == FormsIn(Tokens(tb[..i]), l)
    {
      ghost var before := Tokens(tb[..i]);
      assert before + tb[i][..0] == before;
      for j := 0 to |tb[i]|
        invariant lemmaFormSets.Keys == lemmaVocab
        invariant forall l :: l in lemmaVocab ==> lemmaFormSets[l] == FormsIn(before + tb[i][..j], l)
      {
        var lem := tb[i][j][LEMMA];
        var form := tb[i][j][FORM];
        FormSetsStep(lemmaFormSets, before + tb[i][..j], tb[i][j], lemmaVocab);
        TokensPrefixSnoc(tb, i, j);
        lemmaFormSets := lemmaFormSets[lem := lemmaFormSets[lem] + {form}];
      }
      assert tb[i][..|tb[i]|] == tb[i];
      TokensSnoc(tb, i);
    }
    assert tb[..|tb|] == tb;
  }

  /** Every lemma of the treebank has at least one form. */
  lemma FormsOfNonEmpty(tb: Treebank, l: string)
    requires l in Vocab(tb, LEMMA)
    ensures FormsOf(tb, l) != {}
  {
    VocabMembership(tb, LEMMA, l);
    var i, j :| 0 <= i < |tb| && 0 <= j < |tb[i]| && tb[i][j][LEMMA] == l;
    FormsOfMembership(tb, l, tb[i][j][FORM]);
  }

  // ---------------------------------------------------------------------
  // lemma2form_ratio

  /** The form sets of the lemmas of `lemmaVocab` (the dict that
      `get_all_forms_of_lemmas` returns). */
  function FormSets(tb: Treebank, lemmaVocab: set<string>): map<string, set<string>> {
    map l | l in lemmaVocab :: FormsOf(tb, l)
  }

  /** The size of every set. */
  function Sizes(sets: map<string, set<string>>): (sizes: map<string, int>)
    ensures sizes.Keys == sets.Keys
  {
    map l | l in sets :: |sets[l]|
  }

  /** The sets of more than one form (the filter at line 88). */
  function Inflected(sets: map<string, set<string>>): (inflected: map<string, set<string>>)
    ensures inflected.Keys <= sets.Keys
  {
    map l | l in sets && |sets[l]| > 1 :: sets[l]
  }

  /** Lines 84-95 over the form sets: the number of lemmas counted (all of
      them, or those with more than one form when `inflected`) divided by the
      number of forms they have; a ratio of 1 when there are no forms to
      count; the result is one minus the ratio. */
  ghost function FormSetRatio(sets: map<string, set<string>>, inflected: bool): real {
    var counted := if inflected then Inflected(sets) else sets;
    var total := Sum(Sizes(counted));
    var vocabC := |counted|;
    var ratio := if total != 0 then vocabC as real / total as real else 1.0;
    1.0 - ratio
  }

  /** `lemma2form_ratio(treebank, inflected)`. Either way the result lies in
      [0, 1); with the filter it is either 0 or at least 1/2. */
  ghost function LemmaToFormRatio(tb: Treebank, inflected: bool): (r: real)
    ensures 0.0 <= r < 1.0
    ensures inflected && r != 0.0 ==> 0.5 <= r
  {
    var sets := FormSets(tb, Vocab(tb, LEMMA));
    FormSetsNonEmpty(tb);
    SumPositiveSizes(sets);
    InflectedRatioBounds(sets);
    FormSetRatio(sets, inflected)
  }

  /** Every lemma of the treebank has a non-empty form set. */
  lemma FormSetsNonEmpty(tb: Treebank)
    ensures var sets := FormSets(tb, Vocab(tb, LEMMA));
            forall l :: l in sets ==> Sizes(sets)[l] >= 1
  {
    var sets := FormSets(tb, Vocab(tb, LEMMA));
    forall l | l in sets ensures Sizes(sets)[l] >= 1 {
      FormsOfNonEmpty(tb, l);
    }
  }

  /** Without the filter, the ratio is 0 exactly when every lemma has exactly
      one form. */
  lemma LemmaToFormRatioZero(tb: Treebank)
    ensures LemmaToFormRatio(tb, false) == 0.0 <==>
            forall l :: l in Vocab(tb, LEMMA) ==> |FormsOf(tb, l)| == 1
  {
    var sets := FormSets(tb, Vocab(tb, LEMMA));
    FormSetsNonEmpty(tb);
    SumPositiveSizes(sets);
    assert LemmaToFormRatio(tb, false) == FormSetRatio(sets, false);
    if forall l :: l in Vocab(tb, LEMMA) ==> |FormsOf(tb, l)| == 1 {
      forall l | l in sets ensures |sets[l]| == 1 {
        assert sets[l] == FormsOf(tb, l);
      }
    } else {
      var l :| l in Vocab(tb, LEMMA) && |FormsOf(tb, l)| != 1;
      assert l in sets && sets[l] == FormsOf(tb, l);
    }
  }

  /** With all sets non-empty: the ratio without the filter is in [0, 1), and
      0 exactly when every set is a singleton. */
  lemma SumPositiveSizes(sets: map<string, set<string>>)
    requires forall l :: l in sets ==> Sizes(sets)[l] >= 1
    ensures 0.0 <= FormSetRatio(sets, false) < 1.0
    ensures FormSetRatio(sets, false) == 0.0 <==> forall l :: l in sets ==> |sets[l]| == 1
  {
    var sizes := Sizes(sets);
    SumAtLeast(sizes, 1);
    assert |sizes| == |sets| by {
      assert sizes.Keys == sets.Keys;
    }
    if |sets| == 0 {
      assert sets.Keys == {};
      assert sizes.Keys == {};
    } else {
      QuotientIsOne(|sets|, Sum(sizes));
      if exists l :: l in sets && |sets[l]| != 1 {
        var l :| l in sets && |sets[l]| != 1;
        SumAboveFloor(sizes, 1, l);
      } else {
        SumAtMost(sizes, 1);
      }
    }
  }

  /** With the filter, the ratio is 0 when no lemma has more than one form,
      and otherwise at least 1/2 (every counted lemma has two forms or more)
      and below 1. */
  lemma InflectedRatioBounds(sets: map<string, set<string>>)
    ensures Inflected(sets) == map[] ==> FormSetRatio(sets, true) == 0.0
    ensures Inflected(sets) != map[] ==> 0.5 <= FormSetRatio(sets, true) < 1.0
  {
    var counted := Inflected(sets);
    var sizes := Sizes(counted);
    assert |sizes| == |counted| by {
      assert sizes.Keys == counted.Keys;
    }
    if counted == map[] {
      assert sizes.Keys == {};
    } else {
      SumAtLeast(sizes, 2);
      var l :| l in counted;
      QuotientIsOne(|counted|, Sum(sizes));
      QuotientAtMostHalf(|counted|, Sum(sizes));
    }
  }

  /** `lemma2form_ratio(treebank, True)` is 0 exactly when no lemma of the
      treebank has two forms, and otherwise lies in [1/2, 1). */
  lemma InflectedLemmaToFormRatio(tb: Treebank)
    ensures (forall l :: l in Vocab(tb, LEMMA) ==> |FormsOf(tb, l)| <= 1) ==> LemmaToFormRatio(tb, true) == 0.0
    ensures (exists l :: l in Vocab(tb, LEMMA) && |FormsOf(tb, l)| > 1) ==> 0.5 <= LemmaToFormRatio(tb, true) < 1.0
  {
    var sets := FormSets(tb, Vocab(tb, LEMMA));
    InflectedRatioBounds(sets);
    if exists l :: l in Vocab(tb, LEMMA) && |FormsOf(tb, l)| > 1 {
      var l :| l in Vocab(tb, LEMMA) && |FormsOf(tb, l)| > 1;
      assert l in Inflected(sets);
    } else {
      assert Inflected(sets).Keys == {};
    }
  }

  /** A row with the given ID, form, lemma, UPOS, FEATS, HEAD and DEPREL. */
  function Row(id: string, form: string, base: string, upos: string, feats: string,
               head: string, deprel: string): Token {
    [id, form, base, upos, "_", feats, head, deprel, "_", "_\n"]
  }

  /** Two sentences: "dog barks" and "dogs bark". */
  function ExampleTreebank(): Treebank {
    [[Row("1", "dog", "dog", "NOUN", "Number=Sing", "2", "nsubj"),
      Row("2", "barks", "bark", "VERB", "Tense=Pres", "0", "root")],
     [Row("1", "dogs", "dog", "NOUN", "Number=Plur", "2", "nsubj"),
      Row("2", "bark", "bark", "VERB", "Tense=Pres", "0", "root")]]
  }

  /** The form sets of the example, as a dict literal. */
  function ExampleSets(): map<string, set<string>> {
    map["dog" := {"dog", "dogs"}, "bark" := {"bark", "barks"}]
  }

  lemma ExampleTokens()
    ensures Tokens(ExampleTreebank()) == ExampleTreebank()[0] + ExampleTreebank()[1]
  {
    var tb := ExampleTreebank();
    assert tb[..1] == [tb[0]];
    assert tb[..1][..0] == tb[..0];
  }

  lemma ExampleForms(l: string)
    requires l == "dog" || l == "bark"
    ensures FormsOf(ExampleTreebank(), l) == ExampleSets()[l]
  {
    ExampleTokens();
    var ts := Tokens(ExampleTreebank());
    forall f | f in FormsIn(ts, l) ensures f in ExampleSets()[l] {
      var k :| 0 <= k < |ts| && ts[k][LEMMA] == l && ts[k][FORM] == f;
      assert k == 0 || k == 1 || k == 2 || k == 3;
    }
    if l == "dog" {
      assert ts[0][LEMMA] == l && ts[2][LEMMA] == l;
      assert ts[0][FORM] in FormsIn(ts, l) && ts[2][FORM] in FormsIn(ts, l);
    } else {
      assert ts[1][LEMMA] == l && ts[3][LEMMA] == l;
      assert ts[1][FORM] in FormsIn(ts, l) && ts[3][FORM] in FormsIn(ts, l);
    }
  }

  lemma ExampleLemmas()
    ensures Vocab(ExampleTreebank(), LEMMA) == ExampleSets().Keys
  {
    ExampleTokens();
    assert Column(ExampleTreebank(), LEMMA) == ["dog", "bark", "dog", "bark"];
  }

  lemma FormSetsAre(tb: Treebank, lemmaVocab: set<string>, sets: map<string, set<string>>)
    requires sets.Keys == lemmaVocab
    requires forall l :: l in sets ==> FormsOf(tb, l) == sets[l]
    ensures FormSets(tb, lemmaVocab) == sets
  {
  }

  lemma ExampleFormSets()
    ensures FormSets(ExampleTreebank(), Vocab(ExampleTreebank(), LEMMA)) == ExampleSets()
  {
    ExampleLemmas();
    forall l | l in ExampleSets() ensures FormsOf(ExampleTreebank(), l) == ExampleSets()[l] {
      ExampleForms(l);
    }
    FormSetsAre(ExampleTreebank(), Vocab(ExampleTreebank(), LEMMA), ExampleSets());
  }

  lemma ExampleInflected()
    ensures Inflected(ExampleSets()) == ExampleSets()
    ensures |ExampleSets()| == 2
  {
    var sets := ExampleSets();
    assert |sets["dog"]| == 2 && |sets["bark"]| == 2;
    assert sets.Keys == {"dog", "bark"};
  }

  lemma ExampleSum()
    ensures Sum(Sizes(ExampleSets())) == 4
  {
    var sets := ExampleSets();
    var sizes := Sizes(sets);
    assert sizes["dog"] == |sets["dog"]| == 2;
    assert sizes["bark"] == |sets["bark"]| == 2;
    SumRemove(sizes, "dog");
    var rest := sizes - {"dog"};
    assert "bark" in rest && rest["bark"] == 2;
    SumRemove(rest, "bark");
    assert (rest - {"bark"}).Keys == {};
  }

  lemma ExampleSetsRatio(inflected: bool)
    ensures FormSetRatio(ExampleSets(), inflected) == 0.5
  {
    ExampleInflected();
    ExampleSum();
    TwoOverFour();
  }

  lemma TwoOverFour()
    ensures (2 as real) / (4 as real) == 0.5
  {
  }

  /** Two lemmas with two forms each: one lemma per two forms, so both
      variants of `lemma2form_ratio` give 1 - 2/4 = 0.5. */
  lemma TwoLemmasTwoFormsEach()
    ensures LemmaToFormRatio(ExampleTreebank(), false) == 0.5
    ensures LemmaToFormRatio(ExampleTreebank(), true) == 0.5
  {
    ExampleFormSets();
    ExampleSetsRatio(false);
    ExampleSetsRatio(true);
  }

  /** The four forms of the example are all different, so the type/token
      ratio is 4/4 = 1. */
  lemma ExampleTypeTokenRatio()
    ensures CountTokens(ExampleTreebank()) == 4
    ensures TypeTokenRatio(ExampleTreebank()) == 1.0
  {
    ExampleTokens();
    var forms := Column(ExampleTreebank(), FORM);
    assert forms == ["dog", "barks", "dogs", "bark"];
  }
}
