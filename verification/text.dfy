/** String helpers that the treebank reader relies on: Python's `str.split`
    with an explicit separator, and `int()` restricted to decimal digits. */
module Text {

  /** `xs` cut at every occurrence of `sep`: the pieces between separators, in
      order, empty pieces included (so there is always one more piece than
      separators). On a string and a one-character separator this is Python's
      `s.split(sep)`; on a sequence of lines it groups the lines into blocks. */
  function SplitOn<T(==)>(xs: seq<T>, sep: T): (pieces: seq<seq<T>>)
    ensures |pieces| >= 1
    decreases |xs|
  {
    if xs == [] then [[]]
    else
      var init := SplitOn(xs[..|xs| - 1], sep);
      if xs[|xs| - 1] == sep then init + [[]]
      else init[..|init| - 1] + [init[|init| - 1] + [xs[|xs| - 1]]]
  }

  /** Python's `sep.join(pieces)`. */
  function Join<T>(pieces: seq<seq<T>>, sep: T): seq<T>
    decreases |pieces|
  {
    if |pieces| == 0 then []
    else if |pieces| == 1 then pieces[0]
    else Join(pieces[..|pieces| - 1], sep) + [sep] + pieces[|pieces| - 1]
  }

  /** One more element either closes the last piece or extends it. */
  lemma SplitSnoc<T>(xs: seq<T>, x: T, sep: T)
    ensures var p := SplitOn(xs, sep);
            SplitOn(xs + [x], sep) ==
              if x == sep then p + [[]] else p[..|p| - 1] + [p[|p| - 1] + [x]]
  {
    assert (xs + [x])[..|xs|] == xs;
  }

  lemma JoinSnoc<T>(pieces: seq<seq<T>>, piece: seq<T>, sep: T)
    requires |pieces| >= 1
    ensures Join(pieces + [piece], sep) == Join(pieces, sep) + [sep] + piece
  {
    assert (pieces + [piece])[..|pieces|] == pieces;
  }

  lemma JoinExtendLast<T>(pieces: seq<seq<T>>, tail: seq<T>, sep: T)
    requires |pieces| >= 1
    ensures var n := |pieces|;
            Join(pieces[..n - 1] + [pieces[n - 1] + tail], sep) == Join(pieces, sep) + tail
  {
    var n := |pieces|;
    var q := pieces[..n - 1] + [pieces[n - 1] + tail];
    if n > 1 {
      assert q[..n - 1] == pieces[..n - 1];
    }
  }

  /** Splitting loses nothing: joining the pieces back gives the input. */
  lemma {:induction false} JoinSplit<T>(xs: seq<T>, sep: T)
    ensures Join(SplitOn(xs, sep), sep) == xs
    decreases |xs|
  {
    if xs != [] {
      var init := xs[..|xs| - 1];
      var x := xs[|xs| - 1];
      assert xs == init + [x];
      var p := SplitOn(init, sep);
      SplitSnoc(init, x, sep);
      JoinSplit(init, sep);
      if x == sep {
        assert SplitOn(xs, sep) == p + [[]];
        JoinSnoc(p, [], sep);
      } else {
        assert SplitOn(xs, sep) == p[..|p| - 1] + [p[|p| - 1] + [x]];
        JoinExtendLast(p, [x], sep);
      }
    }
  }

  /** No piece contains the separator. */
  lemma {:induction false} SplitPiecesFree<T>(xs: seq<T>, sep: T)
    ensures forall piece :: piece in SplitOn(xs, sep) ==> sep !in piece
    decreases |xs|
  {
    if xs != [] {
      var init := xs[..|xs| - 1];
      var x := xs[|xs| - 1];
      assert xs == init + [x];
      SplitSnoc(init, x, sep);
      SplitPiecesFree(init, sep);
      var p := SplitOn(init, sep);
      if x != sep {
        assert forall piece :: piece in p[..|p| - 1] ==> piece in p;
        assert sep !in p[|p| - 1];
      }
    }
  }

  /** There is exactly one more piece than there are separators. */
  lemma {:induction false} SplitCount<T>(xs: seq<T>, sep: T)
    ensures |SplitOn(xs, sep)| == multiset(xs)[sep] + 1
    decreases |xs|
  {
    if xs != [] {
      var init := xs[..|xs| - 1];
      SplitCount(init, sep);
      assert xs == init + [xs[|xs| - 1]];
    }
  }

  /** Appending a stretch free of separators only extends the last piece. */
  lemma {:induction false} SplitAppendFree<T>(xs: seq<T>, tail: seq<T>, sep: T)
    requires sep !in tail
    ensures var p := SplitOn(xs, sep);
            SplitOn(xs + tail, sep) == p[..|p| - 1] + [p[|p| - 1] + tail]
    decreases |tail|
  {
    var p := SplitOn(xs, sep);
    if tail == [] {
      assert xs + tail == xs;
      assert p[|p| - 1] + tail == p[|p| - 1];
      assert p[..|p| - 1] + [p[|p| - 1]] == p;
    } else {
      var front := tail[..|tail| - 1];
      var x := tail[|tail| - 1];
      assert tail == front + [x];
      SplitAppendFree(xs, front, sep);
      assert xs + tail == (xs + front) + [x];
      SplitSnoc(xs + front, x, sep);
      ExtendLastTwice(p, front, x);
    }
  }

  /** Extending the last piece by `front` and then by `x` extends it by
      `front + [x]`. */
  lemma ExtendLastTwice<T>(p: seq<seq<T>>, front: seq<T>, x: T)
    requires |p| >= 1
    ensures var q := p[..|p| - 1] + [p[|p| - 1] + front];
            q[..|q| - 1] + [q[|q| - 1] + [x]] == p[..|p| - 1] + [p[|p| - 1] + (front + [x])]
  {
    var q := p[..|p| - 1] + [p[|p| - 1] + front];
    assert q[..|q| - 1] == p[..|p| - 1];
    assert (p[|p| - 1] + front) + [x] == p[|p| - 1] + (front + [x]);
  }

  /** A non-empty run of ASCII decimal digits: the part of what `int()`
      accepts that the model reads as a HEAD field. */
  predicate IsDigits(s: string) {
    |s| > 0 && forall i :: 0 <= i < |s| ==> '0' <= s[i] <= '9'
  }

  /** The value of a string of decimal digits, as `int(s)` gives it. The value
      is zero exactly when every digit is '0' (so "0" and "00" both name the
      root). */
  function DecimalValue(s: string): (v: nat)
    requires forall i :: 0 <= i < |s| ==> '0' <= s[i] <= '9'
    ensures v == 0 <==> forall i :: 0 <= i < |s| ==> s[i] == '0'
    decreases |s|
  {
    if s == [] then 0
    else 10 * DecimalValue(s[..|s| - 1]) + (s[|s| - 1] - '0') as nat
  }

  /** Python's reading of an index `i` into a list of length `n`: a negative
      index counts from the end. The position read is the one position of the
      list that is congruent to `i` modulo `n`. */
  function PyIndex(i: int, n: nat): (k: nat)
    requires -(n as int) <= i < n
    ensures k < n
    ensures (k - i) % n == 0
  {
    if i < 0 then n + i else i
  }
}
