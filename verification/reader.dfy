/** `read_treebank` (morphology_metrics.py:3-17), over the lines of the file
    instead of the file itself. Each line keeps its terminating "\n", as
    Python's iteration over a text file yields it; a line that is exactly
    "\n" closes the current sentence. */
module Reader {
  import opened Text
  import opened Corpus

  const Blank: string := "\n"

  /** The test at line 13, negated: a row survives when it has exactly ten
      fields and its ID names neither an empty node ('.') nor a multiword
      range ('-'). */
  predicate Retained(items: seq<string>) {
    |items| == 10 && '.' !in items[0] && '-' !in items[0]
  }

  /** The fields of a line, as `line.split("\t")` gives them. */
  function Fields(line: string): seq<string> {
    SplitOn(line, '\t')
  }

  /** What one non-blank line contributes to its sentence: its fields when
      they are retained, nothing otherwise. */
  function RowOf(line: string): seq<Token> {
    var items := Fields(line);
    if Retained(items) then [items] else []
  }

  /** The retained rows of a block of non-blank lines, in order. */
  function Rows(block: seq<string>): seq<Token>
    decreases |block|
  {
    if block == [] then []
    else Rows(block[..|block| - 1]) + RowOf(block[|block| - 1])
  }

  /** The treebank a line sequence describes: the lines are cut into blocks at
      the blank lines, every block that a blank line closes becomes a
      sentence, and the last block, which no blank line closes, is dropped.
      So there is one sentence per blank line: `len(read_treebank(f))` is the
      number of lines of `f` that are exactly "\n". */
  function Read(lines: seq<string>): (trees: seq<Sentence>)
    ensures |trees| == multiset(lines)[Blank]
  {
    SplitCount(lines, Blank);
    var blocks := SplitOn(lines, Blank);
    seq(|blocks| - 1, k requires 0 <= k < |blocks| - 1 => Rows(blocks[k]))
  }

  /** The rows of the block that no blank line has closed yet: the sentence
      under construction (`tree` in the source) after reading `lines`. */
  function Pending(lines: seq<string>): Sentence {
    var blocks := SplitOn(lines, Blank);
    Rows(blocks[|blocks| - 1])
  }

  lemma RowsSnoc(block: seq<string>, line: string)
    ensures Rows(block + [line]) == Rows(block) + RowOf(line)
  {
    assert (block + [line])[..|block|] == block;
  }

  /** Reading one more line: a blank line closes the pending sentence, any
      other line adds its retained row to it. */
  lemma ReadSnoc(lines: seq<string>, line: string)
    ensures Read(lines + [line]) ==
            if line == Blank then Read(lines) + [Pending(lines)] else Read(lines)
    ensures Pending(lines + [line]) ==
            if line == Blank then [] else Pending(lines) + RowOf(line)
  {
    SplitSnoc(lines, line, Blank);
    var blocks := SplitOn(lines, Blank);
    if line != Blank {
      RowsSnoc(blocks[|blocks| - 1], line);
    }
  }

  /** The body of the loop at lines 7-16 for one line: a blank line appends
      the current sentence and starts a new one; any other line is split on
      tabs and appended to the current sentence when it is retained. */
  method ReadLine(trees: seq<Sentence>, tree: Sentence, line: string, ghost seen: seq<string>)
    returns (trees': seq<Sentence>, tree': Sentence)
    requires trees == Read(seen) && tree == Pending(seen)
    ensures trees' == Read(seen + [line]) && tree' == Pending(seen + [line])
  {
    ReadSnoc(seen, line);
    trees', tree' := trees, tree;
    if line == Blank {
      trees' := trees + [tree];
      tree' := [];
      return;
    }
    var items := SplitOn(line, '\t');
    if '.' in items[0] || '-' in items[0] || |items| != 10 {
      return;
    }
    tree' := tree + [items];
  }

  /** `read_treebank`, over the lines of the file. */
  method ReadTreebank(lines: seq<string>) returns (trees: seq<Sentence>)
    ensures trees == Read(lines)
  {
    trees := [];
    var tree: Sentence := [];
    for i := 0 to |lines|
      invariant trees == Read(lines[..i])
      invariant tree == Pending(lines[..i])
    {
      trees, tree := ReadLine(trees, tree, lines[i], lines[..i]);
      assert lines[..i + 1] == lines[..i] + [lines[i]];
    }
    assert lines[..|lines|] == lines;
  }

  lemma {:induction false} RowsFromBlock(block: seq<string>, t: Token)
    requires t in Rows(block)
    ensures Retained(t)
    ensures exists line :: line in block && Fields(line) == t
    decreases |block|
  {
    var init := block[..|block| - 1];
    var line := block[|block| - 1];
    if t in Rows(init) {
      RowsFromBlock(init, t);
      var l :| l in init && Fields(l) == t;
      assert l in block;
    } else {
      assert t in RowOf(line);
    }
  }

  lemma {:induction false} InJoin<T>(pieces: seq<seq<T>>, sep: T, k: nat, x: T)
    requires k < |pieces| && x in pieces[k]
    ensures x in Join(pieces, sep)
    decreases |pieces|
  {
    if |pieces| > 1 && k < |pieces| - 1 {
      InJoin(pieces[..|pieces| - 1], sep, k, x);
    }
  }

  /** Every row that reaches a sentence has ten fields and an ID free of '.'
      and '-', and is the tab split of a non-blank line of the input. */
  lemma RetainedRows(lines: seq<string>, i: nat, j: nat)
    requires i < |Read(lines)| && j < |Read(lines)[i]|
    ensures var t := Read(lines)[i][j];
            |t| == 10 && '.' !in t[ID] && '-' !in t[ID] &&
            exists line :: line in lines && line != Blank && Fields(line) == t
  {
    var blocks := SplitOn(lines, Blank);
    var t := Read(lines)[i][j];
    RowsFromBlock(blocks[i], t);
    var line :| line in blocks[i] && Fields(line) == t;
    SplitPiecesFree(lines, Blank);
    assert blocks[i] in blocks;
    JoinSplit(lines, Blank);
    InJoin(blocks, Blank, i, line);
  }

  /** Rows after the last blank line are lost: lines that no blank line
      follows change nothing in the result. */
  lemma ReadIgnoresTail(lines: seq<string>, tail: seq<string>)
    requires Blank !in tail
    ensures Read(lines + tail) == Read(lines)
  {
    SplitAppendFree(lines, tail, Blank);
  }

  /** After a blank line (or at the start), a block of non-blank lines followed
      by a blank line adds exactly one sentence: the retained rows of the
      block. With ReadIgnoresTail this determines the result for every input. */
  lemma ReadAppendSentence(lines: seq<string>, block: seq<string>)
    requires Blank !in block
    requires lines == [] || lines[|lines| - 1] == Blank
    ensures Read(lines + block + [Blank]) == Read(lines) + [Rows(block)]
  {
    var blocks := SplitOn(lines, Blank);
    if lines != [] {
      assert lines == lines[..|lines| - 1] + [Blank];
      SplitSnoc(lines[..|lines| - 1], Blank, Blank);
    }
    assert blocks[|blocks| - 1] == [];
    SplitAppendFree(lines, block, Blank);
    ReadIgnoresTail(lines, block);
    assert [] + block == block;
    ReadSnoc(lines + block, Blank);
  }
}
