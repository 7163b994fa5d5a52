/**
  `calculate_recall_and_precision` of evaluate.py, given the gold and submitted rows
  instead of file names. Recall is the share of gold entries whose recall flag is set;
  precision is the total size of the precision sets over the number of submitted rows
  accepted. Either ratio is `None` when its denominator is zero. Python's `/` is
  modelled as exact division of reals.
 */
module Scoring {
  import opened Wrappers
  import opened Dicts
  import opened Keys
  import opened MistakeDict
  import opened Matching

  /** `len([k for k, v in items if v])` */
  function CountTrue(items: seq<(string, bool)>): nat
    decreases |items|
  {
    if |items| == 0 then 0 else (if items[0].1 then 1 else 0) + CountTrue(items[1..])
  }

  /** `len([k for k, v in items if not v])` */
  function CountFalse(items: seq<(string, bool)>): nat
    decreases |items|
  {
    if |items| == 0 then 0 else (if items[0].1 then 0 else 1) + CountFalse(items[1..])
  }

  /** `sum([len(v) for k, v in items])` */
  function SumSizes(items: seq<(string, set<int>)>): nat
    decreases |items|
  {
    if |items| == 0 then 0 else |items[0].1| + SumSizes(items[1..])
  }

  /** Total number of precision matches over a list of outcomes. */
  function SumCredited(os: seq<Outcome>): nat
    decreases |os|
  {
    if |os| == 0 then 0 else |os[0].precision| + SumCredited(os[1..])
  }

  /** `n / d` when `d > 0`, and `None` otherwise. */
  function Ratio(n: nat, d: nat): (r: Option<real>)
    ensures r.None? <==> d == 0
    ensures r.Some? ==> r.value * (d as real) == n as real
    ensures r.Some? ==> 0.0 <= r.value
  {
    if d == 0 then None else Some((n as real) / (d as real))
  }

  /** A factor that scales a positive number to at most itself is at most one, and one when
      it scales the number to itself. */
  lemma FactorAtMostOne(r: real, d: real)
    requires 0.0 < d && r * d <= d
    ensures r <= 1.0
    ensures r * d == d ==> r == 1.0
  {
    assert (1.0 - r) * d >= 0.0;
  }

  /** A ratio of a part to its whole is at most one, and a whole over itself is one. */
  lemma RatioOfPart(n: nat, d: nat)
    requires n <= d
    ensures Ratio(n, d).Some? ==> Ratio(n, d).value <= 1.0
    ensures Ratio(n, d).Some? && n == d ==> Ratio(n, d).value == 1.0
  {
    if d > 0 {
      var r := Ratio(n, d).value;
      FactorAtMostOne(r, d as real);
    }
  }

  /** The recall and the precision of a submission. */
  datatype Scores = Scores(recall: Option<real>, precision: Option<real>)

  /** The assertion on the recall counts failed: `counted` entries against `lines` rows. */
  datatype ScoreError = RecallCountMismatch(counted: nat, lines: nat)

  /** `calculate_recall_and_precision`, without the mean overlap. The assertion on the
      recall counts holds exactly when no two accepted gold rows share a text, sentence and
      start index; otherwise the entries fall short of the rows. On success each ratio is
      `None` exactly when no row of its side is accepted, a defined recall lies between 0
      and 1, and a defined precision is non-negative. */
  function CalculateRecallAndPrecision(goldRows: seq<Row>, subRows: seq<Row>, categories: seq<string>)
    : (r: Result<Scores, ScoreError>)
    ensures r.Success? <==> NoCollisions(goldRows, categories)
    ensures r.Failure? ==> r.error.counted < r.error.lines == |Accepted(goldRows, categories)|
    ensures r.Success? ==> (r.value.recall.None? <==> |Accepted(goldRows, categories)| == 0)
    ensures r.Success? ==> (r.value.precision.None? <==> |Accepted(subRows, categories)| == 0)
    ensures r.Success? && r.value.recall.Some? ==> 0.0 <= r.value.recall.value <= 1.0
    ensures r.Success? && r.value.precision.Some? ==> 0.0 <= r.value.precision.value
  {
    var gold := CreateMistakeDict(goldRows, categories);
    var sub := CreateMistakeDict(subRows, categories);
    var matched := MatchMistakeDicts(gold.table, sub.table);
    var correctRecall := CountTrue(Items(matched.0));
    var incorrectRecall := CountFalse(Items(matched.0));
    RecallEntriesCount(gold.table, sub.table);
    EntryCount(goldRows, categories);
    CountTrueFalse(Items(matched.0));
    if correctRecall + incorrectRecall != gold.numMistakes then
      Failure(RecallCountMismatch(correctRecall + incorrectRecall, gold.numMistakes))
    else
      var correctPrecision := SumSizes(Items(matched.1));
      RatioOfPart(correctRecall, gold.numMistakes);
      Success(Scores(Ratio(correctRecall, gold.numMistakes), Ratio(correctPrecision, sub.numMistakes)))
  }

  /** Every entry is either true or false. */
  lemma {:induction false} CountTrueFalse(items: seq<(string, bool)>)
    ensures CountTrue(items) + CountFalse(items) == |items|
    ensures CountTrue(items) <= |items|
    decreases |items|
  {
    if |items| > 0 {
      CountTrueFalse(items[1..]);
    }
  }

  /** Counting true entries of the recall items counts the recalled outcomes. */
  lemma {:induction false} CountTrueRecallItems(os: seq<Outcome>)
    ensures CountTrue(RecallItems(os)) == CountRecalled(os)
    decreases |os|
  {
    if |os| > 0 {
      assert RecallItems(os)[1..] == RecallItems(os[1..]);
      CountTrueRecallItems(os[1..]);
    }
  }

  /** Summing the sizes of the precision items sums the outcomes' precision matches. */
  lemma {:induction false} SumSizesPrecisionItems(os: seq<Outcome>)
    ensures SumSizes(PrecisionItems(os)) == SumCredited(os)
    decreases |os|
  {
    if |os| > 0 {
      assert PrecisionItems(os)[1..] == PrecisionItems(os[1..]);
      SumSizesPrecisionItems(os[1..]);
    }
  }

  /** The true and false recall entries together number the gold mistakes in the table. */
  lemma RecallEntriesCount(gold: Table, sub: Table)
    requires TableValid(gold) && TableValid(sub)
    ensures CountTrue(Items(MatchMistakeDicts(gold, sub).0)) + CountFalse(Items(MatchMistakeDicts(gold, sub).0))
         == |KeySet(gold)|
  {
    MatchDictsItems(gold, sub);
    CountTrueFalse(Items(MatchMistakeDicts(gold, sub).0));
  }

  /** On success the scores are the recalled outcomes over the gold rows accepted and the
      precision matches of all outcomes over the submitted rows accepted. */
  lemma ScoresFromLog(goldRows: seq<Row>, subRows: seq<Row>, categories: seq<string>)
    requires CalculateRecallAndPrecision(goldRows, subRows, categories).Success?
    ensures var log := MatchLog(CreateMistakeDict(goldRows, categories).table,
                                CreateMistakeDict(subRows, categories).table);
      var s := CalculateRecallAndPrecision(goldRows, subRows, categories).value;
      && s.recall == Ratio(CountRecalled(log), |Accepted(goldRows, categories)|)
      && s.precision == Ratio(SumCredited(log), |Accepted(subRows, categories)|)
  {
    var gold := CreateMistakeDict(goldRows, categories);
    var sub := CreateMistakeDict(subRows, categories);
    var log := MatchLog(gold.table, sub.table);
    MatchDictsItems(gold.table, sub.table);
    CountTrueRecallItems(log);
    SumSizesPrecisionItems(log);
  }

  /** Every outcome of a list is recalled, so all of them count. */
  lemma {:induction false} AllRecalled(os: seq<Outcome>)
    requires forall i :: 0 <= i < |os| ==> os[i].recall
    ensures CountRecalled(os) == |os|
    decreases |os|
  {
    if |os| > 0 {
      AllRecalled(os[1..]);
    }
  }

  /** Every mistake of a table built from rows that each cover a token covers a token. */
  lemma BuiltMistakesCover(rows: seq<Row>, categories: seq<string>, k: Key)
    requires forall x :: x in Accepted(rows, categories) ==> x.startIdx <= x.endIdx
    ensures Lookup(CreateMistakeDict(rows, categories).table, k).Some? ==>
      Lookup(CreateMistakeDict(rows, categories).table, k).value.tokenSet != {}
  {
    BuildLookup(rows, categories, k);
    var last := LastAccepted(rows, categories, k);
    if last.Some? {
      assert last.value in Accepted(rows, categories);
      assert last.value.startIdx in MistakeOf(last.value).tokenSet;
    }
  }

  /** Comparing a list with itself gives recall 1, provided every accepted row covers at
      least one token, no two accepted rows collide and some row is accepted. */
  lemma SelfComparisonRecallOne(rows: seq<Row>, categories: seq<string>)
    requires forall x :: x in Accepted(rows, categories) ==> x.startIdx <= x.endIdx
    requires NoCollisions(rows, categories)
    requires |Accepted(rows, categories)| > 0
    ensures CalculateRecallAndPrecision(rows, rows, categories).Success?
    ensures CalculateRecallAndPrecision(rows, rows, categories).value.recall == Some(1.0)
  {
    ScoresFromLog(rows, rows, categories);
    var t := CreateMistakeDict(rows, categories).table;
    forall k | Lookup(t, k).Some?
      ensures Lookup(t, k).value.tokenSet != {}
    {
      BuiltMistakesCover(rows, categories, k);
    }
    var log := MatchLog(t, t);
    forall i | 0 <= i < |log|
      ensures log[i].recall
    {
      SelfMatchRecallsAll(t, log[i]);
    }
    AllRecalled(log);
    MatchLogKeys(t, t);
    EntryCount(rows, categories);
    RatioOfPart(|log|, |log|);
  }

  /** Comparing a list with itself gives precision 1, provided moreover that no two
      accepted rows of one sentence overlap. Overlapping rows credit each other, so
      without this proviso precision can exceed 1. */
  lemma SelfComparisonPrecisionOne(rows: seq<Row>, categories: seq<string>)
    requires forall x :: x in Accepted(rows, categories) ==> x.startIdx <= x.endIdx
    requires NoCollisions(rows, categories)
    requires RangesDisjoint(rows, categories)
    requires |Accepted(rows, categories)| > 0
    ensures CalculateRecallAndPrecision(rows, rows, categories).Success?
    ensures CalculateRecallAndPrecision(rows, rows, categories).value.precision == Some(1.0)
  {
    ScoresFromLog(rows, rows, categories);
    var t := CreateMistakeDict(rows, categories).table;
    forall k | Lookup(t, k).Some?
      ensures Lookup(t, k).value.tokenSet != {}
    {
      BuiltMistakesCover(rows, categories, k);
    }
    BuiltDisjoint(rows, categories);
    var log := MatchLog(t, t);
    forall i | 0 <= i < |log|
      ensures |log[i].precision| == 1
    {
      SelfMatchCreditsItself(t, log[i]);
    }
    OneCreditEach(log);
    MatchLogKeys(t, t);
    EntryCount(rows, categories);
    RatioOfPart(|log|, |log|);
  }

  /** Each outcome of a list is credited with exactly one precision match. */
  lemma {:induction false} OneCreditEach(os: seq<Outcome>)
    requires forall i :: 0 <= i < |os| ==> |os[i].precision| == 1
    ensures SumCredited(os) == |os|
    decreases |os|
  {
    if |os| > 0 {
      OneCreditEach(os[1..]);
    }
  }

  /** No two accepted rows of one text and sentence with different starts have
      overlapping index ranges. */
  predicate RangesDisjoint(rows: seq<Row>, categories: seq<string>) {
    forall x, y :: x in Accepted(rows, categories) && y in Accepted(rows, categories)
      && x.textId == y.textId && x.sentenceId == y.sentenceId && x.startIdx != y.startIdx
      ==> x.endIdx < y.startIdx || y.endIdx < x.startIdx
  }

  /** Rows with disjoint ranges build a table whose mistakes within a sentence share no
      token. */
  lemma BuiltDisjoint(rows: seq<Row>, categories: seq<string>)
    requires RangesDisjoint(rows, categories)
    ensures DisjointWithinSentences(CreateMistakeDict(rows, categories).table)
  {
    var t := CreateMistakeDict(rows, categories).table;
    forall k1, k2 | && Lookup(t, k1).Some? && Lookup(t, k2).Some?
                    && k1.text == k2.text && k1.sentence == k2.sentence && k1.start != k2.start
      ensures Lookup(t, k1).value.tokenSet * Lookup(t, k2).value.tokenSet == {}
    {
      BuildLookup(rows, categories, k1);
      BuildLookup(rows, categories, k2);
      var r1 := LastAccepted(rows, categories, k1).value;
      var r2 := LastAccepted(rows, categories, k2).value;
      assert r1 in Accepted(rows, categories) && r2 in Accepted(rows, categories);
      forall i
        ensures i !in Span(r1.startIdx, r1.endIdx) * Span(r2.startIdx, r2.endIdx)
      {
      }
    }
  }

  /** The gold rows of the example below: "Miami" and "Heat" as two one-token mistakes. */
  function ExampleGold(): seq<Row> {
    [Row("t", 0, 1, "Miami", 0, 0, "NAME"), Row("t", 0, 2, "Heat", 1, 1, "NAME")]
  }

  /** The submitted row of the example below: "Miami Heat" as one two-token mistake. */
  function ExampleSubmitted(): seq<Row> {
    [Row("t", 0, 1, "Miami Heat", 0, 1, "NAME")]
  }

  /** The sentence `t`, 0 of the example's gold table. */
  function ExampleGoldSentence(): SentenceTable {
    Dict([0, 1], map[0 := MistakeOf(ExampleGold()[0]), 1 := MistakeOf(ExampleGold()[1])])
  }

  /** The sentence `t`, 0 of the example's submitted table. */
  function ExampleSubmittedSentence(): SentenceTable {
    Dict([0], map[0 := MistakeOf(ExampleSubmitted()[0])])
  }

  /** The example's one-sentence table holding `st` as sentence `t`, 0. */
  function ExampleTable(st: SentenceTable): Table {
    Dict(["t"], map["t" := Dict([0], map[0 := st])])
  }

  /** Building from the first gold row alone, or from the submitted row. */
  lemma ExampleFirstRow(r: Row)
    requires r.textId == "t" && r.sentenceId == 0 && r.startIdx == 0 && r.category == "NAME"
    ensures CreateMistakeDict([r], AllCategories())
         == Built(ExampleTable(Dict([0], map[0 := MistakeOf(r)])), 1)
  {
    assert [r][..0] == [];
    assert "NAME" == AllCategories()[0];
    var e0: SentenceTable := Empty();
    var e1: TextTable := Empty();
    var e2: Table := Empty();
    assert CreateMistakeDict([r], AllCategories()) == Built(Insert(e2, r), 1);
    assert Put(e0, 0, MistakeOf(r)) == Dict([0], map[0 := MistakeOf(r)]);
    assert Put(e1, 0, Dict([0], map[0 := MistakeOf(r)])) == Dict([0], map[0 := Dict([0], map[0 := MistakeOf(r)])]);
  }

  /** The example's tables as the builder produces them. */
  lemma ExampleTables()
    ensures CreateMistakeDict(ExampleGold(), AllCategories()) == Built(ExampleTable(ExampleGoldSentence()), 2)
    ensures CreateMistakeDict(ExampleSubmitted(), AllCategories()) == Built(ExampleTable(ExampleSubmittedSentence()), 1)
  {
    ExampleFirstRow(ExampleSubmitted()[0]);
    ExampleSecondRow();
  }

  /** The table holding only the first gold row. */
  function ExampleFirstTable(): Table {
    ExampleTable(Dict([0], map[0 := MistakeOf(ExampleGold()[0])]))
  }

  /** Inserting the second gold row into the table of the first. */
  lemma ExampleInsertSecond()
    ensures Insert(ExampleFirstTable(), ExampleGold()[1]) == ExampleTable(ExampleGoldSentence())
  {
    var g := ExampleGold();
    var s1 := Dict([0], map[0 := MistakeOf(g[0])]);
    var t1 := ExampleFirstTable();
    assert t1.vals["t"].vals[0] == s1;
    assert Put(s1, 1, MistakeOf(g[1])) == ExampleGoldSentence();
    var gs := ExampleGoldSentence();
    var text := t1.vals["t"];
    assert text == Dict([0], map[0 := s1]);
    assert text.vals[0 := gs] == map[0 := gs];
    assert Put(text, 0, gs) == Dict([0], map[0 := gs]);
    var text' := Dict([0], map[0 := gs]);
    assert t1.vals["t" := text'] == map["t" := text'];
    assert Put(t1, "t", text') == ExampleTable(gs);
  }

  /** Building from both gold rows. */
  lemma ExampleSecondRow()
    ensures CreateMistakeDict(ExampleGold(), AllCategories()) == Built(ExampleTable(ExampleGoldSentence()), 2)
  {
    var g := ExampleGold();
    assert g[..1] == [g[0]];
    ExampleFirstRow(g[0]);
    assert "NAME" == AllCategories()[0];
    ExampleInsertSecond();
  }

  /** In the example sentence the submission recalls the first gold mistake only, and
      is credited for precision against both. */
  lemma ExampleSentence()
    ensures MatchSentence("t", 0, ExampleGoldSentence(), Some(ExampleSubmittedSentence()), 0, {}).outcomes
         == [Outcome(Key("t", 0, 0), true, {0}), Outcome(Key("t", 0, 1), false, {0})]
  {
    var gs, ss := ExampleGoldSentence(), Some(ExampleSubmittedSentence());
    var m0, m1 := gs.vals[0], gs.vals[1];
    var s0 := ss.value.vals[0];
    assert 0 in s0.tokenSet * m0.tokenSet && 1 in s0.tokenSet * m1.tokenSet;
    ScanGoldPrecision(ss, m0, {});
    ScanGoldRecall(ss, m0, {});
    ScanGoldPrecision(ss, m1, {0});
    ScanGoldRecall(ss, m1, {0});
    assert Credited(ss, m0) == {0} && Credited(ss, m1) == {0};
  }

  /** The outcomes of the example, one per gold mistake. */
  function ExampleOutcomes(): seq<Outcome> {
    [Outcome(Key("t", 0, 0), true, {0}), Outcome(Key("t", 0, 1), false, {0})]
  }

  /** The example tables are well formed. */
  lemma ExampleTablesValid()
    ensures TableValid(ExampleTable(ExampleGoldSentence()))
    ensures TableValid(ExampleTable(ExampleSubmittedSentence()))
  {
    ExampleTables();
  }

  /** The outcomes of the example's one gold sentence. */
  lemma ExampleSentenceOutcomes()
    requires TableValid(ExampleTable(ExampleGoldSentence()))
    requires TableValid(ExampleTable(ExampleSubmittedSentence()))
    ensures SentenceOutcomes(ExampleTable(ExampleGoldSentence()), ExampleTable(ExampleSubmittedSentence()), "t", 0)
         == ExampleOutcomes()
  {
    ExampleSentence();
    assert SentenceOf(ExampleTable(ExampleSubmittedSentence()), "t", 0) == Some(ExampleSubmittedSentence());
  }

  /** The outcomes of the example's one gold text. */
  lemma ExampleText()
    requires TableValid(ExampleTable(ExampleGoldSentence()))
    requires TableValid(ExampleTable(ExampleSubmittedSentence()))
    ensures MatchText(ExampleTable(ExampleGoldSentence()), ExampleTable(ExampleSubmittedSentence()), "t", [0])
         == ExampleOutcomes()
  {
    ExampleSentenceOutcomes();
    assert [0][1..] == [];
    assert ExampleOutcomes() + [] == ExampleOutcomes();
  }

  /** The matcher's log for the example tables. */
  lemma ExampleLog()
    ensures TableValid(ExampleTable(ExampleGoldSentence()))
    ensures TableValid(ExampleTable(ExampleSubmittedSentence()))
    ensures MatchLog(ExampleTable(ExampleGoldSentence()), ExampleTable(ExampleSubmittedSentence()))
         == ExampleOutcomes()
  {
    ExampleTablesValid();
    ExampleText();
    assert ["t"][1..] == [];
    assert ExampleOutcomes() + [] == ExampleOutcomes();
  }

  /** The example passes the assertion on the recall counts. */
  lemma ExampleSucceeds()
    ensures CalculateRecallAndPrecision(ExampleGold(), ExampleSubmitted(), AllCategories()).Success?
  {
    ExampleTables();
    ExampleLog();
    var gold := ExampleTable(ExampleGoldSentence());
    var sub := ExampleTable(ExampleSubmittedSentence());
    MatchDictsItems(gold, sub);
    CountTrueFalse(Items(MatchMistakeDicts(gold, sub).0));
  }

  /** One of the example's outcomes is recalled, and two precision matches are credited. */
  lemma ExampleCounts()
    ensures CountRecalled(ExampleOutcomes()) == 1
    ensures SumCredited(ExampleOutcomes()) == 2
  {
    var log := ExampleOutcomes();
    assert log[1..][1..] == [];
  }

  /** The example's scores as ratios of counts. */
  lemma ExampleRatios()
    ensures CalculateRecallAndPrecision(ExampleGold(), ExampleSubmitted(), AllCategories())
         == Success(Scores(Ratio(1, 2), Ratio(2, 1)))
  {
    ExampleSucceeds();
    ScoresFromLog(ExampleGold(), ExampleSubmitted(), AllCategories());
    ExampleTables();
    ExampleLog();
    ExampleCounts();
  }

  /** Two one-token gold mistakes and one two-token submission covering both: the
      submission recalls only the first gold mistake, but is credited for precision
      against both, so precision is 2. */
  lemma PrecisionCanExceedOne()
    ensures CalculateRecallAndPrecision(ExampleGold(), ExampleSubmitted(), AllCategories())
         == Success(Scores(Some(0.5), Some(2.0)))
  {
    ExampleRatios();
    assert Ratio(1, 2) == Some(0.5);
    assert Ratio(2, 1) == Some(2.0);
  }
}
