/** The four option columns of an imported row, the filter that drops the
    unusable ones (`Grouping.Filter`), and the two ways of marking the
    correct option: by position in the filtered list (what both importers
    do) and by the column the option came from (what the answer code
    means). */
module ChoiceColumns {
  import opened Wrappers
  import opened Authoring
  import Grouping

  /** The column numbers of the kept options, in column order. */
  function KeptColumns(raw: seq<string>, keep: string -> bool): (cols: seq<nat>)
    ensures forall i :: 0 <= i < |cols| ==> cols[i] < |raw| && keep(raw[cols[i]])
    ensures forall i, j :: 0 <= i < j < |cols| ==> cols[i] < cols[j]
    ensures forall c :: 0 <= c < |raw| && keep(raw[c]) ==> c in cols
  {
    if |raw| == 0 then []
    else
      var init := KeptColumns(raw[..|raw| - 1], keep);
      if keep(raw[|raw| - 1]) then init + [|raw| - 1] else init
  }

  /** The filtered list is the kept columns read in order: position `i` of
      the filtered list holds column `KeptColumns(raw, keep)[i]`. */
  lemma {:induction false} CompactReadsKeptColumns(raw: seq<string>, keep: string -> bool)
    ensures |Grouping.Filter(raw, keep)| == |KeptColumns(raw, keep)|
    ensures forall i :: 0 <= i < |Grouping.Filter(raw, keep)| ==> Grouping.Filter(raw, keep)[i] == raw[KeptColumns(raw, keep)[i]]
  {
    if |raw| > 0 {
      var init := raw[..|raw| - 1];
      CompactReadsKeptColumns(init, keep);
      assert forall c :: 0 <= c < |init| ==> init[c] == raw[c];
    }
  }

  /** Options marked against their position in the filtered list: the
      option at position `ci` is correct. */
  function MarkByPosition(texts: seq<string>, ci: int): (r: seq<AnswerDraft>)
    ensures |r| == |texts|
    ensures forall i :: 0 <= i < |r| ==> r[i].text == texts[i] && r[i].sortOrder == i
    ensures forall i :: 0 <= i < |r| ==> (r[i].isCorrect <==> i == ci)
  {
    seq(|texts|, i requires 0 <= i < |texts| => AnswerDraft(texts[i], i == ci, i))
  }

  /** Options marked against the column they came from: the option of
      column `ci` is correct. */
  function MarkByColumn(raw: seq<string>, keep: string -> bool, ci: int): (r: seq<AnswerDraft>)
    ensures |r| == |KeptColumns(raw, keep)|
    ensures forall i :: 0 <= i < |r| ==>
      r[i].text == raw[KeptColumns(raw, keep)[i]] && r[i].sortOrder == i
    ensures forall i :: 0 <= i < |r| ==> (r[i].isCorrect <==> KeptColumns(raw, keep)[i] == ci)
  {
    var cols := KeptColumns(raw, keep);
    seq(|cols|, i requires 0 <= i < |cols| => AnswerDraft(raw[cols[i]], cols[i] == ci, i))
  }

  /** At most one option is marked correct. */
  predicate AtMostOneCorrect(answers: seq<AnswerDraft>) {
    forall i, j :: 0 <= i < j < |answers| && answers[i].isCorrect ==> !answers[j].isCorrect
  }

  /** Marking by position marks at most one option, and exactly one when
      the index lies inside the list. */
  lemma MarkByPositionMarksOne(texts: seq<string>, ci: int)
    ensures AtMostOneCorrect(MarkByPosition(texts, ci))
    ensures (exists i :: 0 <= i < |texts| && MarkByPosition(texts, ci)[i].isCorrect) <==> 0 <= ci < |texts|
  {
    if 0 <= ci < |texts| {
      assert MarkByPosition(texts, ci)[ci].isCorrect;
    }
  }

  /** Marking by column keeps the filtered list's texts and positions and
      marks at most one option. */
  lemma MarkByColumnShape(raw: seq<string>, keep: string -> bool, ci: int)
    ensures |MarkByColumn(raw, keep, ci)| == |Grouping.Filter(raw, keep)|
    ensures forall i :: 0 <= i < |Grouping.Filter(raw, keep)| ==>
      MarkByColumn(raw, keep, ci)[i].text == Grouping.Filter(raw, keep)[i]
    ensures AtMostOneCorrect(MarkByColumn(raw, keep, ci))
  {
    CompactReadsKeptColumns(raw, keep);
  }

  /** Both markings store the same texts at the same positions. */
  lemma MarkingsAgreeOnTexts(raw: seq<string>, keep: string -> bool, ci: int)
    ensures |MarkByColumn(raw, keep, ci)| == |MarkByPosition(Grouping.Filter(raw, keep), ci)|
    ensures forall i :: 0 <= i < |MarkByColumn(raw, keep, ci)| ==>
      && MarkByColumn(raw, keep, ci)[i].text == MarkByPosition(Grouping.Filter(raw, keep), ci)[i].text
      && MarkByColumn(raw, keep, ci)[i].sortOrder == MarkByPosition(Grouping.Filter(raw, keep), ci)[i].sortOrder
  {
    MarkByColumnShape(raw, keep, ci);
  }

  /** What marking by column promises: when `ci` names a kept column, exactly
      the option read from that column is correct; otherwise none is. */
  lemma MarkByColumnMarksNamed(raw: seq<string>, keep: string -> bool, ci: int)
    ensures 0 <= ci < |raw| && keep(raw[ci]) ==>
      exists i :: 0 <= i < |MarkByColumn(raw, keep, ci)| && MarkByColumn(raw, keep, ci)[i].isCorrect
        && MarkByColumn(raw, keep, ci)[i].text == raw[ci]
    ensures !(0 <= ci < |raw| && keep(raw[ci])) ==>
      forall i :: 0 <= i < |MarkByColumn(raw, keep, ci)| ==> !MarkByColumn(raw, keep, ci)[i].isCorrect
  {
    var cols := KeptColumns(raw, keep);
    if 0 <= ci < |raw| && keep(raw[ci]) {
      var i :| 0 <= i < |cols| && cols[i] == ci;
      assert MarkByColumn(raw, keep, ci)[i].isCorrect;
    }
  }

  /** One more column of the prefix `raw[..n]`. */
  lemma CompactStep(raw: seq<string>, keep: string -> bool, n: nat)
    requires 0 < n <= |raw|
    ensures Grouping.Filter(raw[..n], keep)
         == Grouping.Filter(raw[..n - 1], keep) + (if keep(raw[n - 1]) then [raw[n - 1]] else [])
  {
    assert raw[..n][..n - 1] == raw[..n - 1];
  }

  lemma KeptColumnsStep(raw: seq<string>, keep: string -> bool, n: nat)
    requires 0 < n <= |raw|
    ensures KeptColumns(raw[..n], keep)
         == KeptColumns(raw[..n - 1], keep) + (if keep(raw[n - 1]) then [n - 1] else [])
  {
    assert raw[..n][..n - 1] == raw[..n - 1];
  }

  /** One more column extends the kept columns read so far. */
  lemma KeptColumnsNext(raw: seq<string>, keep: string -> bool, n: nat, before: seq<nat>)
    requires 0 < n <= |raw| && KeptColumns(raw[..n - 1], keep) == before
    ensures KeptColumns(raw[..n], keep) == before + (if keep(raw[n - 1]) then [n - 1] else [])
  {
    KeptColumnsStep(raw, keep, n);
  }

  /** Four columns of which only the second is dropped. */
  predicate SecondDropped(raw: seq<string>, keep: string -> bool) {
    |raw| == 4 && keep(raw[0]) && !keep(raw[1]) && keep(raw[2]) && keep(raw[3])
  }

  lemma SecondDroppedCompacts(raw: seq<string>, keep: string -> bool)
    requires SecondDropped(raw, keep)
    ensures Grouping.Filter(raw, keep) == [raw[0], raw[2], raw[3]]
  {
    assert raw[..0] == [];
    CompactStep(raw, keep, 1);
    CompactStep(raw, keep, 2);
    CompactStep(raw, keep, 3);
    CompactStep(raw, keep, 4);
    assert raw[..4] == raw;
  }

  lemma SecondDroppedColumns(raw: seq<string>, keep: string -> bool)
    requires SecondDropped(raw, keep)
    ensures KeptColumns(raw, keep) == [0, 2, 3]
  {
    SecondDroppedThreeColumns(raw, keep);
    KeptColumnsNext(raw, keep, 4, [0, 2]);
    assert raw[..4] == raw;
  }

  lemma SecondDroppedTwoColumns(raw: seq<string>, keep: string -> bool)
    requires SecondDropped(raw, keep)
    ensures KeptColumns(raw[..2], keep) == [0]
  {
    assert KeptColumns(raw[..0], keep) == [];
    KeptColumnsNext(raw, keep, 1, []);
    KeptColumnsNext(raw, keep, 2, [0]);
  }

  lemma SecondDroppedThreeColumns(raw: seq<string>, keep: string -> bool)
    requires SecondDropped(raw, keep)
    ensures KeptColumns(raw[..3], keep) == [0, 2]
  {
    SecondDroppedTwoColumns(raw, keep);
    KeptColumnsNext(raw, keep, 3, [0]);
  }

  /** Four option columns of which the second is dropped, and the code `C`
      (index 2): the code names the option of column C, yet marking by
      position marks the option of column D, because index 2 of the filtered
      list `[A, C, D]` is D. */
  lemma CompactionShiftsCorrectAnswer(raw: seq<string>, keep: string -> bool)
    requires SecondDropped(raw, keep)
    ensures |MarkByPosition(Grouping.Filter(raw, keep), 2)| == 3
    ensures MarkByPosition(Grouping.Filter(raw, keep), 2)[2].text == raw[3]
    ensures MarkByPosition(Grouping.Filter(raw, keep), 2)[2].isCorrect
    ensures MarkByPosition(Grouping.Filter(raw, keep), 2)[1].text == raw[2]
    ensures !MarkByPosition(Grouping.Filter(raw, keep), 2)[1].isCorrect
  {
    SecondDroppedCompacts(raw, keep);
  }

  /** On the same columns marking by column marks the option of column C. */
  lemma CorrectedMarksNamedOption(raw: seq<string>, keep: string -> bool)
    requires SecondDropped(raw, keep)
    ensures |MarkByColumn(raw, keep, 2)| == 3
    ensures MarkByColumn(raw, keep, 2)[1].text == raw[2]
    ensures MarkByColumn(raw, keep, 2)[1].isCorrect
    ensures !MarkByColumn(raw, keep, 2)[2].isCorrect
  {
    SecondDroppedColumns(raw, keep);
  }

  /** When no column before the named one is dropped, both markings agree:
      the defect needs a gap in front of the answer. */
  lemma {:induction false} NoGapNoShift(raw: seq<string>, keep: string -> bool, ci: int)
    requires forall c :: 0 <= c < |raw| ==> keep(raw[c])
    ensures MarkByColumn(raw, keep, ci) == MarkByPosition(Grouping.Filter(raw, keep), ci)
  {
    AllKeptColumns(raw, keep);
    CompactReadsKeptColumns(raw, keep);
  }

  lemma {:induction false} AllKeptColumns(raw: seq<string>, keep: string -> bool)
    requires forall c :: 0 <= c < |raw| ==> keep(raw[c])
    ensures |KeptColumns(raw, keep)| == |raw|
    ensures forall i :: 0 <= i < |raw| ==> KeptColumns(raw, keep)[i] == i
  {
    if |raw| > 0 {
      AllKeptColumns(raw[..|raw| - 1], keep);
    }
  }

  /** The rows of a sheet mapped one by one, the skipped ones (`None`) left
      out, in row order. */
  function Collect<T, U>(xs: seq<T>, f: T -> Option<U>): (r: seq<U>)
    ensures |r| <= |xs|
  {
    if |xs| == 0 then []
    else
      Collect(xs[..|xs| - 1], f)
      + match f(xs[|xs| - 1]) case None => [] case Some(y) => [y]
  }

  /** Rows are mapped independently: collecting `a + b` collects `a`, then
      `b`. */
  lemma {:induction false} CollectConcat<T, U>(a: seq<T>, b: seq<T>, f: T -> Option<U>)
    ensures Collect(a + b, f) == Collect(a, f) + Collect(b, f)
    decreases |b|
  {
    if |b| == 0 {
      assert a + b == a;
    } else {
      var b' := b[..|b| - 1];
      assert (a + b)[..|a + b| - 1] == a + b';
      assert (a + b)[|a + b| - 1] == b[|b| - 1];
      CollectConcat(a, b', f);
    }
  }

  /** Whatever every mapped row satisfies, every collected item satisfies. */
  lemma {:induction false} CollectKeeps<T, U>(xs: seq<T>, f: T -> Option<U>, good: U -> bool)
    requires forall x :: f(x).Some? ==> good(f(x).value)
    ensures forall i :: 0 <= i < |Collect(xs, f)| ==> good(Collect(xs, f)[i])
  {
    if |xs| > 0 {
      CollectKeeps(xs[..|xs| - 1], f, good);
    }
  }
  /** Two mappings that agree on every row of a sheet collect the same
      items. */
  lemma {:induction false} CollectSame<T, U>(xs: seq<T>, f: T -> Option<U>, g: T -> Option<U>)
    requires forall k :: 0 <= k < |xs| ==> f(xs[k]) == g(xs[k])
    ensures Collect(xs, f) == Collect(xs, g)
  {
    if |xs| > 0 {
      CollectSame(xs[..|xs| - 1], f, g);
    }
  }

  /** Two mappings that skip the same rows and agree on `key` of what they
      keep collect as many items, pairwise equal on `key`. */
  lemma {:induction false} CollectSameKey<T, U, V>(xs: seq<T>, f: T -> Option<U>, g: T -> Option<U>, key: U -> V)
    requires forall x :: f(x).None? <==> g(x).None?
    requires forall x :: f(x).Some? ==> key(f(x).value) == key(g(x).value)
    ensures |Collect(xs, f)| == |Collect(xs, g)|
    ensures forall i :: 0 <= i < |Collect(xs, f)| ==> key(Collect(xs, f)[i]) == key(Collect(xs, g)[i])
  {
    if |xs| > 0 {
      CollectSameKey(xs[..|xs| - 1], f, g, key);
    }
  }
}
