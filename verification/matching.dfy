/**
  `match_mistake_dicts` of evaluate.py. For each gold mistake, in table order, every
  submitted mistake of the same text and sentence whose token set meets it is credited
  for precision; the first of those not yet used for recall in that sentence is credited
  for recall and marked used. The used set starts empty for every gold sentence.

  The nested loops are modelled as a flat log of outcomes, one per gold mistake in
  iteration order; the two result dicts are that log assigned entry by entry under
  `KeyString` of each position.
 */
module Matching {
  import opened Wrappers
  import opened Dicts
  import opened Keys
  import opened MistakeDict

  /** The token sets of two mistakes intersect (`isect` is non-empty). */
  predicate Overlaps(a: Mistake, b: Mistake) {
    a.tokenSet * b.tokenSet != {}
  }

  /** The variables of the scan over a sentence's submissions:
      `recall_match`, `precision_matches` and `used_submissions`. */
  datatype ScanState = ScanState(recall: bool, precision: set<int>, used: set<int>)

  /** One turn of the scan, for the submission starting at `s`. */
  function Visit(sub: SentenceTable, s: int, g: Mistake, st: ScanState): ScanState
    requires s in sub.vals
  {
    if !Overlaps(sub.vals[s], g) then st
    else if s !in st.used && !st.recall then ScanState(true, st.precision + {s}, st.used + {s})
    else ScanState(st.recall, st.precision + {s}, st.used)
  }

  /** The scan over the submissions of `sub` from position `i` of its key order on. */
  function Scan(sub: SentenceTable, i: nat, g: Mistake, st: ScanState): ScanState
    requires Valid(sub) && i <= |sub.keys|
    decreases |sub.keys| - i
  {
    if i == |sub.keys| then st else Scan(sub, i + 1, g, Visit(sub, sub.keys[i], g, st))
  }

  /** The element of an optional start, as a set. */
  function OptionSet(o: Option<int>): set<int> {
    if o.Some? then {o.value} else {}
  }

  /** The first submission, from position `i` of the key order on, that meets `g` and
      is not in `used`: the one the greedy rule consumes for `g`. */
  function FirstFresh(sub: SentenceTable, i: nat, g: Mistake, used: set<int>): Option<int>
    requires Valid(sub) && i <= |sub.keys|
    decreases |sub.keys| - i
  {
    if i == |sub.keys| then None
    else if Overlaps(sub.vals[sub.keys[i]], g) && sub.keys[i] !in used then Some(sub.keys[i])
    else FirstFresh(sub, i + 1, g, used)
  }

  /** The first fresh submission meets `g`, is unused, and comes after only used ones
      among those meeting `g`; when there is none, every submission from `i` on that
      meets `g` is used. */
  lemma {:induction false} FirstFreshSpec(sub: SentenceTable, i: nat, g: Mistake, used: set<int>)
    requires Valid(sub) && i <= |sub.keys|
    ensures var r := FirstFresh(sub, i, g, used);
      && (r.Some? ==> r.value in sub.vals && r.value !in used && Overlaps(sub.vals[r.value], g))
      && (r.Some? ==> exists j :: (i <= j < |sub.keys| && sub.keys[j] == r.value
            && forall l :: i <= l < j && Overlaps(sub.vals[sub.keys[l]], g) ==> sub.keys[l] in used))
      && (r.None? ==> forall j :: i <= j < |sub.keys| && Overlaps(sub.vals[sub.keys[j]], g) ==> sub.keys[j] in used)
    decreases |sub.keys| - i
  {
    if i < |sub.keys| && !(Overlaps(sub.vals[sub.keys[i]], g) && sub.keys[i] !in used) {
      FirstFreshSpec(sub, i + 1, g, used);
    }
  }

  /** The submissions, from position `i` of the key order on, that meet `g`. */
  function OverlapSet(sub: SentenceTable, i: nat, g: Mistake): set<int>
    requires Valid(sub) && i <= |sub.keys|
  {
    set j | i <= j < |sub.keys| && Overlaps(sub.vals[sub.keys[j]], g) :: sub.keys[j]
  }

  /** The overlapping submissions from position `i` on are the one at `i`, if it
      overlaps, and those from `i + 1` on. */
  lemma OverlapSetStep(sub: SentenceTable, i: nat, g: Mistake)
    requires Valid(sub) && i < |sub.keys|
    ensures OverlapSet(sub, i, g)
         == (if Overlaps(sub.vals[sub.keys[i]], g) then {sub.keys[i]} else {}) + OverlapSet(sub, i + 1, g)
  {
  }

  /** The scan credits precision to every overlapping submission, whatever was used
      before; starting with no recall, it finds recall exactly when some overlapping
      submission is unused, and then consumes the first such one and no other. */
  lemma {:induction false} ScanSpec(sub: SentenceTable, i: nat, g: Mistake, st: ScanState)
    requires Valid(sub) && i <= |sub.keys|
    ensures Scan(sub, i, g, st).precision == st.precision + OverlapSet(sub, i, g)
    ensures st.recall ==> Scan(sub, i, g, st).recall && Scan(sub, i, g, st).used == st.used
    ensures !st.recall ==> Scan(sub, i, g, st).recall == FirstFresh(sub, i, g, st.used).Some?
    ensures !st.recall ==> Scan(sub, i, g, st).used == st.used + OptionSet(FirstFresh(sub, i, g, st.used))
    decreases |sub.keys| - i
  {
    if i == |sub.keys| {
      assert OverlapSet(sub, i, g) == {};
    } else {
      ScanSpec(sub, i + 1, g, Visit(sub, sub.keys[i], g, st));
      OverlapSetStep(sub, i, g);
    }
  }

  /** What a gold mistake `g` is credited with for precision: the starts of the
      submissions of its sentence that meet it, or none when the sentence is absent. */
  function Credited(sub: Option<SentenceTable>, g: Mistake): set<int> {
    match sub
    case None => {}
    case Some(s) => set x | x in s.vals && Overlaps(s.vals[x], g)
  }

  /** The starts of the submitted sentence, or none when it is absent. */
  function SubmittedStarts(sub: Option<SentenceTable>): set<int> {
    match sub
    case None => {}
    case Some(s) => s.vals.Keys
  }

  /** The submission the greedy rule consumes for `g`, if any. */
  function Greedy(sub: Option<SentenceTable>, g: Mistake, used: set<int>): Option<int>
    requires sub.Some? ==> Valid(sub.value)
  {
    match sub
    case None => None
    case Some(s) => FirstFresh(s, 0, g, used)
  }

  /** The greedy choice overlaps `g` and is unused; when there is none, every submission
      overlapping `g` is used already. */
  lemma GreedySpec(sub: Option<SentenceTable>, g: Mistake, used: set<int>)
    requires sub.Some? ==> Valid(sub.value)
    ensures Greedy(sub, g, used).Some? ==>
      Greedy(sub, g, used).value in Credited(sub, g) && Greedy(sub, g, used).value !in used
    ensures Greedy(sub, g, used).None? ==> Credited(sub, g) <= used
  {
    if sub.Some? {
      var s := sub.value;
      FirstFreshSpec(s, 0, g, used);
      forall x | x in Credited(sub, g)
        ensures Greedy(sub, g, used).None? ==> x in used
      {
        var j :| 0 <= j < |s.keys| && s.keys[j] == x;
      }
    }
  }

  /** The inner loop for one gold mistake `g`, from a fresh `recall_match` and
      `precision_matches` and the sentence's current `used`. */
  function ScanGold(sub: Option<SentenceTable>, g: Mistake, used: set<int>): ScanState
    requires sub.Some? ==> Valid(sub.value)
  {
    match sub
    case None => ScanState(false, {}, used)
    case Some(s) => Scan(s, 0, g, ScanState(false, {}, used))
  }

  /** For one gold mistake, precision is credited with every overlapping submission of
      the sentence. */
  lemma ScanGoldPrecision(sub: Option<SentenceTable>, g: Mistake, used: set<int>)
    requires sub.Some? ==> Valid(sub.value)
    ensures ScanGold(sub, g, used).precision == Credited(sub, g)
  {
    match sub {
      case None =>
      case Some(s) =>
        ScanSpec(s, 0, g, ScanState(false, {}, used));
        forall x
          ensures x in OverlapSet(s, 0, g) <==> x in Credited(sub, g)
        {
          if x in Credited(sub, g) {
            var j :| 0 <= j < |s.keys| && s.keys[j] == x;
          }
        }
    }
  }

  /** For one gold mistake, recall is found exactly when the greedy rule finds an unused
      overlapping submission, which alone is added to the used set. */
  lemma ScanGoldRecall(sub: Option<SentenceTable>, g: Mistake, used: set<int>)
    requires sub.Some? ==> Valid(sub.value)
    ensures ScanGold(sub, g, used).recall == Greedy(sub, g, used).Some?
    ensures ScanGold(sub, g, used).used == used + OptionSet(Greedy(sub, g, used))
  {
    if sub.Some? {
      ScanSpec(sub.value, 0, g, ScanState(false, {}, used));
    }
  }

  /** One matcher result: the gold position, its recall flag, its precision matches. */
  datatype Outcome = Outcome(key: Key, recall: bool, precision: set<int>)

  /** The outcomes of a gold sentence and the used set left at its end. */
  datatype SentenceRun = SentenceRun(outcomes: seq<Outcome>, used: set<int>)

  /** The loop over one gold sentence's mistakes from position `i` of its key order on,
      with `used` the submissions already consumed in this sentence. */
  function MatchSentence(text: string, sid: int, gold: SentenceTable, sub: Option<SentenceTable>,
                         i: nat, used: set<int>): (r: SentenceRun)
    requires Valid(gold) && i <= |gold.keys|
    requires sub.Some? ==> Valid(sub.value)
    ensures |r.outcomes| == |gold.keys| - i
    ensures forall j :: 0 <= j < |r.outcomes| ==> r.outcomes[j].key == Key(text, sid, gold.keys[i + j])
    decreases |gold.keys| - i
  {
    if i == |gold.keys| then SentenceRun([], used)
    else
      var a := gold.keys[i];
      var st := ScanGold(sub, gold.vals[a], used);
      var rest := MatchSentence(text, sid, gold, sub, i + 1, st.used);
      SentenceRun([Outcome(Key(text, sid, a), st.recall, st.precision)] + rest.outcomes, rest.used)
  }

  /** The greedy assignment, as a reference: for each gold mistake in turn, the first
      overlapping submission not consumed so far, or none. */
  function Assign(gold: SentenceTable, sub: Option<SentenceTable>, i: nat, used: set<int>): (r: seq<Option<int>>)
    requires Valid(gold) && i <= |gold.keys|
    requires sub.Some? ==> Valid(sub.value)
    ensures |r| == |gold.keys| - i
    decreases |gold.keys| - i
  {
    if i == |gold.keys| then []
    else
      var c := Greedy(sub, gold.vals[gold.keys[i]], used);
      [c] + Assign(gold, sub, i + 1, used + OptionSet(c))
  }

  /** The submissions an assignment consumes. */
  function Consumed(cs: seq<Option<int>>): set<int>
    decreases |cs|
  {
    if |cs| == 0 then {} else OptionSet(cs[0]) + Consumed(cs[1..])
  }

  /** The greedy assignment gives the gold mistake at `i` its greedy choice and continues
      with that choice used. */
  lemma AssignStep(gold: SentenceTable, sub: Option<SentenceTable>, i: nat, used: set<int>)
    requires Valid(gold) && i < |gold.keys|
    requires sub.Some? ==> Valid(sub.value)
    ensures var c := Greedy(sub, gold.vals[gold.keys[i]], used);
      Assign(gold, sub, i, used) == [c] + Assign(gold, sub, i + 1, used + OptionSet(c))
  {
  }

  /** A non-empty prefix consumes its head's submission and those of the rest. */
  lemma ConsumedHead(cs: seq<Option<int>>, j: nat)
    requires 0 < j <= |cs|
    ensures Consumed(cs[..j]) == OptionSet(cs[0]) + Consumed(cs[1..][..j - 1])
  {
    assert cs[..j][1..] == cs[1..][..j - 1];
  }

  /** Number of outcomes whose recall flag is set. */
  function CountRecalled(os: seq<Outcome>): nat
    decreases |os|
  {
    if |os| == 0 then 0 else (if os[0].recall then 1 else 0) + CountRecalled(os[1..])
  }

  /** Within one sentence the gold mistake at position `i + j` is credited for precision
      with exactly the overlapping submissions of its sentence, whatever was used before,
      and recall implies such a submission. */
  lemma {:induction false} MatchSentencePrecision(text: string, sid: int, gold: SentenceTable,
                                                  sub: Option<SentenceTable>, i: nat, used: set<int>, j: nat)
    requires Valid(gold) && i + j < |gold.keys|
    requires sub.Some? ==> Valid(sub.value)
    ensures MatchSentence(text, sid, gold, sub, i, used).outcomes[j].precision
         == Credited(sub, gold.vals[gold.keys[i + j]])
    ensures MatchSentence(text, sid, gold, sub, i, used).outcomes[j].recall
        ==> MatchSentence(text, sid, gold, sub, i, used).outcomes[j].precision != {}
    decreases j
  {
    var g := gold.vals[gold.keys[i]];
    var st := ScanGold(sub, g, used);
    MatchSentenceStep(text, sid, gold, sub, i, used);
    if j == 0 {
      ScanGoldPrecision(sub, g, used);
      ScanGoldRecall(sub, g, used);
      GreedySpec(sub, g, used);
    } else {
      MatchSentencePrecision(text, sid, gold, sub, i + 1, st.used, j - 1);
      assert i + j == (i + 1) + (j - 1);
    }
  }

  /** One step of the sentence walk: the outcome of gold mistake `i`, then the rest. */
  lemma MatchSentenceStep(text: string, sid: int, gold: SentenceTable, sub: Option<SentenceTable>, i: nat, used: set<int>)
    requires Valid(gold) && i < |gold.keys|
    requires sub.Some? ==> Valid(sub.value)
    ensures var st := ScanGold(sub, gold.vals[gold.keys[i]], used);
      var r := MatchSentence(text, sid, gold, sub, i, used);
      var rest := MatchSentence(text, sid, gold, sub, i + 1, st.used);
      && r.outcomes == [Outcome(Key(text, sid, gold.keys[i]), st.recall, st.precision)] + rest.outcomes
      && r.used == rest.used
  {
  }

  /** Within one sentence the gold mistake at position `i + j` is recalled exactly when
      the greedy assignment gives it a submission, and never when the sentence was not
      submitted. */
  lemma {:induction false} MatchSentenceRecall(text: string, sid: int, gold: SentenceTable,
                                               sub: Option<SentenceTable>, i: nat, used: set<int>, j: nat)
    requires Valid(gold) && i + j < |gold.keys|
    requires sub.Some? ==> Valid(sub.value)
    ensures MatchSentence(text, sid, gold, sub, i, used).outcomes[j].recall
        == Assign(gold, sub, i, used)[j].Some?
    ensures sub.None? ==> !MatchSentence(text, sid, gold, sub, i, used).outcomes[j].recall
    decreases j
  {
    var g := gold.vals[gold.keys[i]];
    var st := ScanGold(sub, g, used);
    ScanGoldRecall(sub, g, used);
    AssignStep(gold, sub, i, used);
    MatchSentenceStep(text, sid, gold, sub, i, used);
    if j > 0 {
      MatchSentenceRecall(text, sid, gold, sub, i + 1, st.used, j - 1);
    }
  }

  /** Within one sentence the used set grows by exactly the submissions the greedy
      assignment consumes. */
  lemma {:induction false} MatchSentenceConsumes(text: string, sid: int, gold: SentenceTable,
                                                 sub: Option<SentenceTable>, i: nat, used: set<int>)
    requires Valid(gold) && i <= |gold.keys|
    requires sub.Some? ==> Valid(sub.value)
    ensures MatchSentence(text, sid, gold, sub, i, used).used == used + Consumed(Assign(gold, sub, i, used))
    decreases |gold.keys| - i
  {
    if i < |gold.keys| {
      var g := gold.vals[gold.keys[i]];
      var st := ScanGold(sub, g, used);
      ScanGoldRecall(sub, g, used);
      MatchSentenceConsumes(text, sid, gold, sub, i + 1, st.used);
      MatchSentenceStep(text, sid, gold, sub, i, used);
      AssignStep(gold, sub, i, used);
      var a := Assign(gold, sub, i, used);
      assert a[1..] == Assign(gold, sub, i + 1, st.used);
    }
  }

  /** Within one sentence each recalled gold mistake adds one new submission to the used
      set, and only submissions of that sentence are ever added. */
  lemma {:induction false} MatchSentenceUsed(text: string, sid: int, gold: SentenceTable,
                                             sub: Option<SentenceTable>, i: nat, used: set<int>)
    requires Valid(gold) && i <= |gold.keys|
    requires sub.Some? ==> Valid(sub.value)
    ensures var r := MatchSentence(text, sid, gold, sub, i, used);
      && used <= r.used <= used + SubmittedStarts(sub)
      && |r.used| == |used| + CountRecalled(r.outcomes)
    decreases |gold.keys| - i
  {
    if i < |gold.keys| {
      var g := gold.vals[gold.keys[i]];
      var st := ScanGold(sub, g, used);
      ScanGoldRecall(sub, g, used);
      GreedySpec(sub, g, used);
      MatchSentenceUsed(text, sid, gold, sub, i + 1, st.used);
      MatchSentenceStep(text, sid, gold, sub, i, used);
      var r := MatchSentence(text, sid, gold, sub, i, used);
      var rest := MatchSentence(text, sid, gold, sub, i + 1, st.used);
      assert r.outcomes[1..] == rest.outcomes;
      assert CountRecalled(r.outcomes) == (if st.recall then 1 else 0) + CountRecalled(rest.outcomes);
      assert |st.used| == |used| + (if st.recall then 1 else 0);
      assert st.used <= used + SubmittedStarts(sub);
    }
  }

  /** Positions `0..i-1` of an assignment consume exactly the submissions named there. */
  lemma {:induction false} ConsumedPrefix(cs: seq<Option<int>>, i: nat)
    requires i < |cs|
    ensures Consumed(cs[..i + 1]) == Consumed(cs[..i]) + OptionSet(cs[i])
    decreases i
  {
    if i > 0 {
      ConsumedPrefix(cs[1..], i - 1);
      assert cs[..i + 1][1..] == cs[1..][..i];
      assert cs[..i][1..] == cs[1..][..i - 1];
    } else {
      assert cs[..1][1..] == [];
    }
  }

  /** The greedy choice for gold mistake `i + j` is the first overlapping submission
      outside those used initially and those consumed by the gold mistakes before it. */
  lemma {:induction false} AssignAt(gold: SentenceTable, sub: Option<SentenceTable>, i: nat, used: set<int>, j: nat)
    requires Valid(gold) && i + j < |gold.keys|
    requires sub.Some? ==> Valid(sub.value)
    ensures Assign(gold, sub, i, used)[j]
         == Greedy(sub, gold.vals[gold.keys[i + j]], used + Consumed(Assign(gold, sub, i, used)[..j]))
    decreases j
  {
    var a := Assign(gold, sub, i, used);
    var c := Greedy(sub, gold.vals[gold.keys[i]], used);
    AssignStep(gold, sub, i, used);
    if j == 0 {
      assert a[..0] == [];
      assert used + Consumed(a[..0]) == used;
    } else {
      var ra := Assign(gold, sub, i + 1, used + OptionSet(c));
      AssignAt(gold, sub, i + 1, used + OptionSet(c), j - 1);
      ConsumedHead(a, j);
      assert a[1..] == ra;
      assert a[j] == ra[j - 1];
      assert i + j == (i + 1) + (j - 1);
      assert used + Consumed(a[..j]) == (used + OptionSet(c)) + Consumed(ra[..j - 1]);
    }
  }

  /** What position `j` consumes is consumed by every longer prefix. */
  lemma {:induction false} ConsumedUpTo(cs: seq<Option<int>>, j: nat, i: nat)
    requires j < i <= |cs|
    ensures OptionSet(cs[j]) <= Consumed(cs[..i])
    decreases i
  {
    ConsumedPrefix(cs, i - 1);
    assert cs[..i - 1 + 1] == cs[..i];
    if j < i - 1 {
      ConsumedUpTo(cs, j, i - 1);
    }
  }

  /** Every consumed submission was named at some position. */
  lemma {:induction false} ConsumedWitness(cs: seq<Option<int>>, s: int)
    requires s in Consumed(cs)
    ensures exists j :: 0 <= j < |cs| && cs[j] == Some(s)
    decreases |cs|
  {
    if cs[0] != Some(s) {
      ConsumedWitness(cs[1..], s);
      var j :| 0 <= j < |cs[1..]| && cs[1..][j] == Some(s);
      assert cs[j + 1] == Some(s);
    }
  }

  /** Consumption happens at most once per sentence: the submission the greedy rule gives
      to a gold mistake meets it, was not used initially and was given to no earlier gold
      mistake; a gold mistake goes without only when every overlapping submission was used
      initially or given to an earlier one. */
  lemma AssignOnce(gold: SentenceTable, sub: Option<SentenceTable>, i: nat, used: set<int>, j: nat)
    requires Valid(gold) && i + j < |gold.keys|
    requires sub.Some? ==> Valid(sub.value)
    ensures var a := Assign(gold, sub, i, used);
      var g := gold.vals[gold.keys[i + j]];
      && (a[j].Some? ==> a[j].value in Credited(sub, g) && a[j].value !in used)
      && (a[j].Some? ==> forall l :: 0 <= l < j ==> a[l] != a[j])
      && (a[j].None? ==> forall s :: s in Credited(sub, g) ==> s in used || exists l :: 0 <= l < j && a[l] == Some(s))
  {
    var a := Assign(gold, sub, i, used);
    AssignAt(gold, sub, i, used, j);
    GreedySpec(sub, gold.vals[gold.keys[i + j]], used + Consumed(a[..j]));
    forall l | 0 <= l < j
      ensures OptionSet(a[l]) <= Consumed(a[..j])
    {
      ConsumedUpTo(a, l, j);
    }
    forall s | s in Consumed(a[..j])
      ensures exists l :: 0 <= l < j && a[l] == Some(s)
    {
      ConsumedWitness(a[..j], s);
    }
  }

  /** A subset is no larger than its superset. */
  lemma SubsetCard<T>(a: set<T>, b: set<T>)
    requires a <= b
    ensures |a| <= |b|
  {
    assert b == a + (b - a);
  }

  /** In one gold sentence no more gold mistakes are recalled than there are submitted
      mistakes in the same sentence, and none when the sentence was not submitted. */
  lemma RecalledAtMostSubmitted(text: string, sid: int, gold: SentenceTable, sub: Option<SentenceTable>)
    requires Valid(gold)
    requires sub.Some? ==> Valid(sub.value)
    ensures CountRecalled(MatchSentence(text, sid, gold, sub, 0, {}).outcomes) <= |SubmittedStarts(sub)|
  {
    MatchSentenceUsed(text, sid, gold, sub, 0, {});
    var r := MatchSentence(text, sid, gold, sub, 0, {});
    SubsetCard(r.used, SubmittedStarts(sub));
  }

  // ---- the whole table ----

  /** The outcomes of gold sentence `sid` of text `text`. */
  function SentenceOutcomes(gold: Table, sub: Table, text: string, sid: int): seq<Outcome>
    requires TableValid(gold) && TableValid(sub)
    requires text in gold.vals && sid in gold.vals[text].vals
  {
    MatchSentence(text, sid, gold.vals[text].vals[sid], SentenceOf(sub, text, sid), 0, {}).outcomes
  }

  /** The outcomes of the listed sentences of one gold text. */
  function MatchText(gold: Table, sub: Table, text: string, sids: seq<int>): seq<Outcome>
    requires TableValid(gold) && TableValid(sub) && text in gold.vals
    requires forall s :: s in sids ==> s in gold.vals[text].vals
    decreases |sids|
  {
    if |sids| == 0 then []
    else SentenceOutcomes(gold, sub, text, sids[0]) + MatchText(gold, sub, text, sids[1..])
  }

  /** The outcomes of the listed gold texts. */
  function MatchTexts(gold: Table, sub: Table, texts: seq<string>): seq<Outcome>
    requires TableValid(gold) && TableValid(sub)
    requires forall x :: x in texts ==> x in gold.vals
    decreases |texts|
  {
    if |texts| == 0 then []
    else
      var tt := gold.vals[texts[0]];
      assert forall s :: s in tt.keys ==> s in tt.vals by {
        assert Valid(tt);
      }
      MatchText(gold, sub, texts[0], tt.keys) + MatchTexts(gold, sub, texts[1..])
  }

  /** The outcomes of every gold mistake, in the order the nested loops visit them. */
  function MatchLog(gold: Table, sub: Table): seq<Outcome>
    requires TableValid(gold) && TableValid(sub)
  {
    MatchTexts(gold, sub, gold.keys)
  }

  /** The positions of a list of outcomes. */
  function OutcomeKeys(os: seq<Outcome>): (r: seq<Key>)
    ensures |r| == |os|
    ensures forall i :: 0 <= i < |os| ==> r[i] == os[i].key
  {
    seq(|os|, i requires 0 <= i < |os| => os[i].key)
  }

  /** `per_gsml_recall_matches` as the sequence of its assignments. */
  function RecallItems(os: seq<Outcome>): (r: seq<(string, bool)>)
    ensures |r| == |os|
    ensures forall i :: 0 <= i < |os| ==> r[i] == (KeyString(os[i].key), os[i].recall)
  {
    seq(|os|, i requires 0 <= i < |os| => (KeyString(os[i].key), os[i].recall))
  }

  /** `per_submitted_precision_matches` as the sequence of its assignments. */
  function PrecisionItems(os: seq<Outcome>): (r: seq<(string, set<int>)>)
    ensures |r| == |os|
    ensures forall i :: 0 <= i < |os| ==> r[i] == (KeyString(os[i].key), os[i].precision)
  {
    seq(|os|, i requires 0 <= i < |os| => (KeyString(os[i].key), os[i].precision))
  }

  /** `match_mistake_dicts`: the recall dict and the precision dict (the list of
      overlap ratios is not modelled). */
  function MatchMistakeDicts(gold: Table, sub: Table): (r: (Dict<string, bool>, Dict<string, set<int>>))
    requires TableValid(gold) && TableValid(sub)
    ensures Valid(r.0) && Valid(r.1)
  {
    var log := MatchLog(gold, sub);
    (FromItems(RecallItems(log)), FromItems(PrecisionItems(log)))
  }

  /** The positions of two lists of outcomes, one after the other. */
  lemma OutcomeKeysAppend(a: seq<Outcome>, b: seq<Outcome>)
    ensures OutcomeKeys(a + b) == OutcomeKeys(a) + OutcomeKeys(b)
  {
  }

  /** The outcomes of a gold sentence are at its positions, in table order. */
  lemma SentenceOutcomeKeys(gold: Table, sub: Table, text: string, sid: int)
    requires TableValid(gold) && TableValid(sub)
    requires text in gold.vals && sid in gold.vals[text].vals
    ensures OutcomeKeys(SentenceOutcomes(gold, sub, text, sid)) == SentenceKeys(text, sid, gold.vals[text].vals[sid])
  {
  }

  /** The outcomes of a text visit its sentences' positions in table order. */
  lemma {:induction false} MatchTextKeys(gold: Table, sub: Table, text: string, sids: seq<int>)
    requires TableValid(gold) && TableValid(sub) && text in gold.vals
    requires forall s :: s in sids ==> s in gold.vals[text].vals
    ensures OutcomeKeys(MatchText(gold, sub, text, sids)) == TextKeys(text, gold.vals[text], sids)
    decreases |sids|
  {
    if |sids| > 0 {
      MatchTextKeys(gold, sub, text, sids[1..]);
      SentenceOutcomeKeys(gold, sub, text, sids[0]);
      OutcomeKeysAppend(SentenceOutcomes(gold, sub, text, sids[0]), MatchText(gold, sub, text, sids[1..]));
    }
  }

  /** The outcomes of the listed texts visit their positions in table order. */
  lemma {:induction false} MatchTextsKeys(gold: Table, sub: Table, texts: seq<string>)
    requires TableValid(gold) && TableValid(sub)
    requires forall x :: x in texts ==> x in gold.vals
    ensures OutcomeKeys(MatchTexts(gold, sub, texts)) == TableKeys(gold, texts)
    decreases |texts|
  {
    if |texts| > 0 {
      MatchTextsKeys(gold, sub, texts[1..]);
      var tt := gold.vals[texts[0]];
      assert Valid(tt);
      MatchTextKeys(gold, sub, texts[0], tt.keys);
      OutcomeKeysAppend(MatchText(gold, sub, texts[0], tt.keys), MatchTexts(gold, sub, texts[1..]));
    }
  }

  /** The matcher produces exactly one outcome per gold mistake, in table order. */
  lemma MatchLogKeys(gold: Table, sub: Table)
    requires TableValid(gold) && TableValid(sub)
    ensures OutcomeKeys(MatchLog(gold, sub)) == EntryKeys(gold)
    ensures |MatchLog(gold, sub)| == |KeySet(gold)|
  {
    MatchTextsKeys(gold, sub, gold.keys);
    EntryKeysExact(gold);
  }

  /** Distinct positions are filed under distinct result keys. */
  lemma ResultKeysDistinct(os: seq<Outcome>)
    requires Distinct(OutcomeKeys(os))
    ensures Distinct(KeysOf(RecallItems(os)))
    ensures Distinct(KeysOf(PrecisionItems(os)))
  {
    forall i, j | 0 <= i < j < |os|
      ensures KeyString(os[i].key) != KeyString(os[j].key)
    {
      KeyStringInjective(os[i].key, os[j].key);
      assert OutcomeKeys(os)[i] != OutcomeKeys(os)[j];
    }
  }

  /** The result keys of a list of outcomes. */
  function ResultKeys(os: seq<Outcome>): (r: seq<string>)
    ensures |r| == |os|
    ensures forall i :: 0 <= i < |os| ==> r[i] == KeyString(os[i].key)
  {
    seq(|os|, i requires 0 <= i < |os| => KeyString(os[i].key))
  }

  /** A dict whose key order is the result keys of some outcomes holds exactly the result
      keys of the outcomes' positions. */
  lemma KeyedByLog<V>(d: Dict<string, V>, log: seq<Outcome>)
    requires Valid(d) && d.keys == ResultKeys(log)
    ensures forall k :: k in Elems(OutcomeKeys(log)) <==> KeyString(k) in d.vals
  {
    forall k
      ensures k in Elems(OutcomeKeys(log)) <==> KeyString(k) in d.vals
    {
      if k in Elems(OutcomeKeys(log)) {
        var i :| 0 <= i < |log| && OutcomeKeys(log)[i] == k;
        assert d.keys[i] == KeyString(k);
      }
      if KeyString(k) in d.vals {
        var i :| 0 <= i < |d.keys| && d.keys[i] == KeyString(k);
        KeyStringInjective(k, log[i].key);
        assert OutcomeKeys(log)[i] == k;
      }
    }
  }

  /** `match_mistake_dicts` files exactly one recall entry and one precision entry per
      gold mistake, in table order. */
  lemma MatchDictsItems(gold: Table, sub: Table)
    requires TableValid(gold) && TableValid(sub)
    ensures Items(MatchMistakeDicts(gold, sub).0) == RecallItems(MatchLog(gold, sub))
    ensures Items(MatchMistakeDicts(gold, sub).1) == PrecisionItems(MatchLog(gold, sub))
    ensures |MatchMistakeDicts(gold, sub).0.keys| == |KeySet(gold)|
    ensures |MatchMistakeDicts(gold, sub).1.keys| == |KeySet(gold)|
  {
    var log := MatchLog(gold, sub);
    MatchLogKeys(gold, sub);
    EntryKeysExact(gold);
    ResultKeysDistinct(log);
    ItemsFromItems(RecallItems(log));
    ItemsFromItems(PrecisionItems(log));
  }

  /** The positions of the matcher's outcomes are the gold positions, each once. */
  lemma LogPositions(gold: Table, sub: Table)
    requires TableValid(gold) && TableValid(sub)
    ensures Distinct(OutcomeKeys(MatchLog(gold, sub)))
    ensures Elems(OutcomeKeys(MatchLog(gold, sub))) == KeySet(gold)
  {
    MatchLogKeys(gold, sub);
    EntryKeysExact(gold);
  }

  /** The two result dicts hold an entry under a position's result key exactly when the
      gold table holds a mistake at that position. */
  lemma MatchDictsKeys(gold: Table, sub: Table)
    requires TableValid(gold) && TableValid(sub)
    ensures forall k :: k in KeySet(gold) <==> KeyString(k) in MatchMistakeDicts(gold, sub).0.vals
    ensures forall k :: k in KeySet(gold) <==> KeyString(k) in MatchMistakeDicts(gold, sub).1.vals
  {
    var log := MatchLog(gold, sub);
    LogPositions(gold, sub);
    ResultKeysDistinct(log);
    FromItemsKeys(RecallItems(log));
    FromItemsKeys(PrecisionItems(log));
    assert KeysOf(RecallItems(log)) == ResultKeys(log);
    assert KeysOf(PrecisionItems(log)) == ResultKeys(log);
    KeyedByLog(FromItems(RecallItems(log)), log);
    KeyedByLog(FromItems(PrecisionItems(log)), log);
  }

  /** Every outcome of a text comes from one of the listed sentences. */
  lemma {:induction false} MatchTextOrigin(gold: Table, sub: Table, text: string, sids: seq<int>, o: Outcome)
    requires TableValid(gold) && TableValid(sub) && text in gold.vals
    requires forall s :: s in sids ==> s in gold.vals[text].vals
    requires o in MatchText(gold, sub, text, sids)
    ensures o.key.text == text && o.key.sentence in sids
    ensures o in SentenceOutcomes(gold, sub, text, o.key.sentence)
    decreases |sids|
  {
    var head := SentenceOutcomes(gold, sub, text, sids[0]);
    if o in head {
      var i :| 0 <= i < |head| && head[i] == o;
      assert o.key.sentence == sids[0];
    } else {
      MatchTextOrigin(gold, sub, text, sids[1..], o);
    }
  }

  /** Every outcome of the listed texts comes from a gold sentence of one of them. */
  lemma {:induction false} MatchTextsOrigin(gold: Table, sub: Table, texts: seq<string>, o: Outcome)
    requires TableValid(gold) && TableValid(sub)
    requires forall x :: x in texts ==> x in gold.vals
    requires o in MatchTexts(gold, sub, texts)
    ensures o.key.text in texts && o.key.sentence in gold.vals[o.key.text].vals
    ensures o in SentenceOutcomes(gold, sub, o.key.text, o.key.sentence)
    decreases |texts|
  {
    var tt := gold.vals[texts[0]];
    assert Valid(tt);
    if o in MatchText(gold, sub, texts[0], tt.keys) {
      MatchTextOrigin(gold, sub, texts[0], tt.keys, o);
    } else {
      MatchTextsOrigin(gold, sub, texts[1..], o);
    }
  }

  /** What the matcher promises of one gold position: it holds a gold mistake; its
      precision matches are exactly the submitted starts of the same text and sentence
      whose token sets meet it; recall implies such a match; and a sentence absent from
      the submission gives no recall. */
  predicate OutcomeSound(gold: Table, sub: Table, o: Outcome) {
    && Lookup(gold, o.key).Some?
    && o.precision == Credited(SentenceOf(sub, o.key.text, o.key.sentence), Lookup(gold, o.key).value)
    && (o.recall ==> o.precision != {})
    && (SentenceOf(sub, o.key.text, o.key.sentence).None? ==> !o.recall && o.precision == {})
  }

  /** Every outcome of a gold sentence keeps the promises of `OutcomeSound`. */
  lemma SentenceOutcomeSound(gold: Table, sub: Table, text: string, sid: int, i: nat)
    requires TableValid(gold) && TableValid(sub)
    requires text in gold.vals && sid in gold.vals[text].vals
    requires i < |SentenceOutcomes(gold, sub, text, sid)|
    ensures OutcomeSound(gold, sub, SentenceOutcomes(gold, sub, text, sid)[i])
  {
    var g := gold.vals[text].vals[sid];
    var ss := SentenceOf(sub, text, sid);
    MatchSentencePrecision(text, sid, g, ss, 0, {}, i);
    MatchSentenceRecall(text, sid, g, ss, 0, {}, i);
    var o := SentenceOutcomes(gold, sub, text, sid)[i];
    assert o.key == Key(text, sid, g.keys[i]);
    assert Lookup(gold, o.key) == Some(g.vals[g.keys[i]]);
  }

  /** Every outcome of the matcher keeps the promises of `OutcomeSound`. */
  lemma MatchLogSound(gold: Table, sub: Table, o: Outcome)
    requires TableValid(gold) && TableValid(sub)
    requires o in MatchLog(gold, sub)
    ensures OutcomeSound(gold, sub, o)
  {
    MatchTextsOrigin(gold, sub, gold.keys, o);
    var os := SentenceOutcomes(gold, sub, o.key.text, o.key.sentence);
    var i :| 0 <= i < |os| && os[i] == o;
    SentenceOutcomeSound(gold, sub, o.key.text, o.key.sentence, i);
  }

  /** An overlapping submission that is unused, with every earlier one used, is the one
      the greedy rule picks. */
  lemma {:induction false} FirstFreshAt(sub: SentenceTable, i: nat, g: Mistake, used: set<int>, j: nat)
    requires Valid(sub) && i <= j < |sub.keys|
    requires forall l :: i <= l < j ==> sub.keys[l] in used
    requires sub.keys[j] !in used && Overlaps(sub.vals[sub.keys[j]], g)
    ensures FirstFresh(sub, i, g, used) == Some(sub.keys[j])
    decreases j - i
  {
    if i < j {
      FirstFreshAt(sub, i + 1, g, used, j);
    }
  }

  /** A mistake that covers a token overlaps itself. */
  lemma SelfOverlap(g: Mistake)
    requires g.tokenSet != {}
    ensures Overlaps(g, g)
  {
    assert g.tokenSet * g.tokenSet == g.tokenSet;
  }

  /** Matching a sentence against itself, with the mistakes before position `i` used:
      the `i`-th gold mistake finds itself unused, is recalled and uses itself. */
  lemma SelfStep(s: SentenceTable, i: nat)
    requires Valid(s) && i < |s.keys|
    requires s.vals[s.keys[i]].tokenSet != {}
    ensures ScanGold(Some(s), s.vals[s.keys[i]], Elems(s.keys[..i])).recall
    ensures ScanGold(Some(s), s.vals[s.keys[i]], Elems(s.keys[..i])).used == Elems(s.keys[..i + 1])
  {
    var used := Elems(s.keys[..i]);
    var g := s.vals[s.keys[i]];
    PrefixElems(s.keys, i);
    SelfOverlap(g);
    FirstFreshAt(s, 0, g, used, i);
    ScanGoldRecall(Some(s), g, used);
  }

  /** Matching a sentence against itself: when the mistakes before position `i` are
      used, the gold mistake at `i + j` is recalled. */
  lemma {:induction false} SelfSentenceRecalled(text: string, sid: int, s: SentenceTable, i: nat, j: nat)
    requires Valid(s)
    requires forall l :: 0 <= l < |s.keys| ==> s.vals[s.keys[l]].tokenSet != {}
    requires i + j < |s.keys|
    ensures MatchSentence(text, sid, s, Some(s), i, Elems(s.keys[..i])).outcomes[j].recall
    decreases j
  {
    SelfStep(s, i);
    if j > 0 {
      SelfSentenceRecalled(text, sid, s, i + 1, j - 1);
    }
  }

  /** Matching a table against itself recalls every gold mistake, provided each covers
      at least one token. */
  lemma SelfMatchRecallsAll(t: Table, o: Outcome)
    requires TableValid(t)
    requires forall k :: Lookup(t, k).Some? ==> Lookup(t, k).value.tokenSet != {}
    requires o in MatchLog(t, t)
    ensures o.recall
  {
    MatchTextsOrigin(t, t, t.keys, o);
    var text, sid := o.key.text, o.key.sentence;
    var s := t.vals[text].vals[sid];
    assert Valid(s);
    forall j | 0 <= j < |s.keys|
      ensures s.vals[s.keys[j]].tokenSet != {}
    {
      assert Lookup(t, Key(text, sid, s.keys[j])) == Some(s.vals[s.keys[j]]);
    }
    assert Elems(s.keys[..0]) == {};
    var os := SentenceOutcomes(t, t, text, sid);
    var i :| 0 <= i < |os| && os[i] == o;
    SelfSentenceRecalled(text, sid, s, 0, i);
  }

  /** No two mistakes of one sentence of `t` share a token. */
  ghost predicate DisjointWithinSentences(t: Table) {
    forall k1, k2 ::
      && Lookup(t, k1).Some? && Lookup(t, k2).Some?
      && k1.text == k2.text && k1.sentence == k2.sentence && k1.start != k2.start
      ==> Lookup(t, k1).value.tokenSet * Lookup(t, k2).value.tokenSet == {}
  }

  /** Matching a table against itself credits each gold mistake for precision with itself
      alone, provided each mistake covers a token and no two of a sentence share one. */
  lemma SelfMatchCreditsItself(t: Table, o: Outcome)
    requires TableValid(t)
    requires forall k :: Lookup(t, k).Some? ==> Lookup(t, k).value.tokenSet != {}
    requires DisjointWithinSentences(t)
    requires o in MatchLog(t, t)
    ensures o.precision == {o.key.start}
  {
    MatchLogSound(t, t, o);
    var text, sid, a := o.key.text, o.key.sentence, o.key.start;
    var s := t.vals[text].vals[sid];
    var g := s.vals[a];
    SelfOverlap(g);
    forall x
      ensures x in o.precision <==> x == a
    {
      if x != a && x in s.vals {
        assert Lookup(t, Key(text, sid, x)) == Some(s.vals[x]);
      }
    }
  }
}

