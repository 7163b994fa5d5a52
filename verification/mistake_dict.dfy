/**
  `create_mistake_dict` of evaluate.py. Annotation rows, already parsed, become a nested
  table text id -> sentence id -> start index -> mistake. Rows whose category the caller
  did not ask for are skipped; every other row is stored (a later row with the same
  text, sentence and start replaces the earlier one) and counted.
 */
module MistakeDict {
  import opened Wrappers
  import opened Dicts
  import opened Keys

  /** The six category labels of the shared task (`all_categories`). */
  function AllCategories(): (r: seq<string>)
    ensures |r| == 6 && Distinct(r)
  {
    ["NAME", "NUMBER", "WORD", "CONTEXT", "NOT_CHECKABLE", "OTHER"]
  }

  /** One parsed annotation row: the columns the scorer reads. */
  datatype Row = Row(
    textId: string,
    sentenceId: int,
    annotationId: int,
    tokens: string,
    startIdx: int,
    endIdx: int,
    category: string)

  /** The record stored for an accepted row; `tokenSet` holds the sentence-relative
      token indices the mistake covers. */
  datatype Mistake = Mistake(
    tokenSet: set<int>,
    category: string,
    startIdx: int,
    sentenceId: int,
    annotationId: int,
    tokens: string)

  /** `set(range(start, end + 1))`: the inclusive index range, empty when `end < start`. */
  function Span(start: int, end: int): (s: set<int>)
    ensures forall i :: i in s <==> start <= i <= end
    decreases end - start
  {
    if end < start then {} else Span(start, end - 1) + {end}
  }

  /** The range holds `end - start + 1` indices, or none when it is inverted. */
  lemma {:induction false} SpanSize(start: int, end: int)
    ensures |Span(start, end)| == if start <= end then end - start + 1 else 0
    decreases end - start
  {
    if start <= end {
      SpanSize(start, end - 1);
    }
  }

  /** The mistake recorded for a row. */
  function MistakeOf(r: Row): Mistake {
    Mistake(Span(r.startIdx, r.endIdx), r.category, r.startIdx, r.sentenceId, r.annotationId, r.tokens)
  }

  /** Where a row is stored. */
  function KeyOf(r: Row): Key {
    Key(r.textId, r.sentenceId, r.startIdx)
  }

  type SentenceTable = Dict<int, Mistake>
  type TextTable = Dict<int, SentenceTable>
  type Table = Dict<string, TextTable>

  /** Every level of the table is a well-formed dict. */
  predicate TableValid(t: Table) {
    && Valid(t)
    && (forall x :: x in t.vals ==> Valid(t.vals[x]))
    && (forall x, s :: x in t.vals && s in t.vals[x].vals ==> Valid(t.vals[x].vals[s]))
  }

  /** `t[text][sid]` when both keys are present. */
  function SentenceOf(t: Table, text: string, sid: int): Option<SentenceTable> {
    if text in t.vals && sid in t.vals[text].vals then Some(t.vals[text].vals[sid]) else None
  }

  /** `t[text][sid][start]` when all three keys are present. */
  function Lookup(t: Table, k: Key): Option<Mistake> {
    match SentenceOf(t, k.text, k.sentence)
    case None => None
    case Some(s) => if k.start in s.vals then Some(s.vals[k.start]) else None
  }

  /** The body of the loop for an accepted row: create the text and sentence levels
      when missing, then assign the mistake under its start index. A new text goes to the
      end of the text order and a present one keeps its place; `InsertSentences` and
      `InsertStarts` say the same of the inner levels. */
  function Insert(t: Table, r: Row): (t': Table)
    ensures TableValid(t) ==> TableValid(t')
    ensures t'.keys == if r.textId in t.vals then t.keys else t.keys + [r.textId]
  {
    var text := Child(t, r.textId);
    var sent := Child(text, r.sentenceId);
    var text' := Put(text, r.sentenceId, Put(sent, r.startIdx, MistakeOf(r)));
    assert TableValid(t) ==> TableValid(Put(t, r.textId, text')) by {
      if TableValid(t) {
        PutSentenceValid(text, r.sentenceId, Put(sent, r.startIdx, MistakeOf(r)));
        PutTextValid(t, r.textId, text');
      }
    }
    Put(t, r.textId, text')
  }

  /** Assigning a well-formed sentence into a well-formed text keeps every sentence of the
      text well formed. */
  lemma PutSentenceValid(text: TextTable, sid: int, sent: SentenceTable)
    requires Valid(text) && forall s :: s in text.vals ==> Valid(text.vals[s])
    requires Valid(sent)
    ensures var text' := Put(text, sid, sent);
      Valid(text') && forall s :: s in text'.vals ==> Valid(text'.vals[s])
  {
  }

  /** Assigning a text whose sentences are all well formed into a well-formed table keeps
      the table well formed. */
  lemma PutTextValid(t: Table, x: string, text: TextTable)
    requires TableValid(t)
    requires Valid(text) && forall s :: s in text.vals ==> Valid(text.vals[s])
    ensures TableValid(Put(t, x, text))
  {
    var t' := Put(t, x, text);
    forall y, s | y in t'.vals && s in t'.vals[y].vals
      ensures Valid(t'.vals[y].vals[s])
    {
      if y != x {
        assert t'.vals[y] == t.vals[y];
      }
    }
  }

  /** The three levels an insertion assigns: the row's sentence with the mistake added,
      the row's text with that sentence, and the table with that text. */
  lemma InsertUnfold(t: Table, r: Row)
    ensures var text := Child(t, r.textId);
      var sent' := Put(Child(text, r.sentenceId), r.startIdx, MistakeOf(r));
      var text' := Put(text, r.sentenceId, sent');
      && Insert(t, r) == Put(t, r.textId, text')
      && Child(Insert(t, r), r.textId) == text'
      && Child(text', r.sentenceId) == sent'
  {
  }

  /** Inserting a row adds its text to the table and changes no other text. */
  lemma InsertTexts(t: Table, r: Row)
    ensures Insert(t, r).vals.Keys == t.vals.Keys + {r.textId}
    ensures forall x :: x in t.vals && x != r.textId ==> Insert(t, r).vals[x] == t.vals[x]
  {
    InsertUnfold(t, r);
  }

  /** In the row's text, a new sentence goes to the end of the sentence order and a present
      one keeps its place. */
  lemma InsertSentenceKeys(t: Table, r: Row)
    ensures var text, text' := Child(t, r.textId), Child(Insert(t, r), r.textId);
      text'.keys == if r.sentenceId in text.vals then text.keys else text.keys + [r.sentenceId]
  {
    InsertUnfold(t, r);
  }

  /** In the row's text, the sentence set gains the row's sentence and no other sentence
      changes. */
  lemma InsertSentences(t: Table, r: Row)
    ensures var text, text' := Child(t, r.textId), Child(Insert(t, r), r.textId);
      && text'.vals.Keys == text.vals.Keys + {r.sentenceId}
      && (forall s :: s in text.vals && s != r.sentenceId ==> text'.vals[s] == text.vals[s])
  {
    InsertUnfold(t, r);
  }

  /** In the row's sentence, a new start index goes to the end of the start order and a
      present one keeps its place. */
  lemma InsertStarts(t: Table, r: Row)
    ensures var sent, sent' := Child(Child(t, r.textId), r.sentenceId),
                               Child(Child(Insert(t, r), r.textId), r.sentenceId);
      sent'.keys == if r.startIdx in sent.vals then sent.keys else sent.keys + [r.startIdx]
  {
    InsertUnfold(t, r);
  }

  /** After inserting a row, its position holds its mistake and every other position is
      as before. */
  lemma InsertLookup(t: Table, r: Row, k: Key)
    ensures Lookup(Insert(t, r), k) == if k == KeyOf(r) then Some(MistakeOf(r)) else Lookup(t, k)
  {
    if k.text != r.textId {
      InsertOtherText(t, r, k.text);
    } else if k.sentence != r.sentenceId {
      InsertOtherSentence(t, r, k.text, k.sentence);
    } else {
      InsertUnfold(t, r);
    }
  }

  /** The rows whose category is in the filter, in their original order. */
  function Accepted(rows: seq<Row>, categories: seq<string>): (r: seq<Row>)
    ensures |r| <= |rows|
    ensures forall x :: x in r <==> x in rows && x.category in categories
    decreases |rows|
  {
    if |rows| == 0 then []
    else
      var pre := rows[..|rows| - 1];
      var last := rows[|rows| - 1];
      assert forall x :: x in rows <==> x in pre || x == last by {
        assert rows == pre + [last];
      }
      if last.category in categories then Accepted(pre, categories) + [last] else Accepted(pre, categories)
  }

  /** The filter keeps an accepted row as often as it occurs and drops every other row,
      so repeated rows are all counted. */
  lemma {:induction false} AcceptedCounts(rows: seq<Row>, categories: seq<string>, x: Row)
    ensures multiset(Accepted(rows, categories))[x]
         == if x.category in categories then multiset(rows)[x] else 0
    decreases |rows|
  {
    if |rows| > 0 {
      var pre := rows[..|rows| - 1];
      var last := rows[|rows| - 1];
      assert rows == pre + [last];
      assert multiset(rows) == multiset(pre) + multiset{last};
      AcceptedCounts(pre, categories, x);
    }
  }

  /** The two results of `create_mistake_dict`: the table and `num_mistakes`. */
  datatype Built = Built(table: Table, numMistakes: nat)

  /** `create_mistake_dict` over parsed rows, as a left fold in row order. */
  function CreateMistakeDict(rows: seq<Row>, categories: seq<string>): (b: Built)
    ensures TableValid(b.table)
    ensures b.numMistakes == |Accepted(rows, categories)|
    decreases |rows|
  {
    if |rows| == 0 then Built(Empty(), 0)
    else
      var b := CreateMistakeDict(rows[..|rows| - 1], categories);
      var row := rows[|rows| - 1];
      if row.category !in categories then b
      else Built(Insert(b.table, row), b.numMistakes + 1)
  }

  /** The last accepted row stored under `k`, if any. */
  function LastAccepted(rows: seq<Row>, categories: seq<string>, k: Key): (r: Option<Row>)
    ensures r.Some? ==> r.value in rows && r.value.category in categories && KeyOf(r.value) == k
    ensures r.None? ==> forall x :: x in rows && x.category in categories ==> KeyOf(x) != k
    decreases |rows|
  {
    if |rows| == 0 then None
    else
      var pre := rows[..|rows| - 1];
      var last := rows[|rows| - 1];
      assert forall x :: x in rows <==> x in pre || x == last by {
        assert rows == pre + [last];
      }
      if last.category in categories && KeyOf(last) == k then Some(last)
      else LastAccepted(pre, categories, k)
  }

  /** The row `LastAccepted` picks is the last one: no accepted row after it has key `k`. */
  lemma {:induction false} LastAcceptedIsLast(rows: seq<Row>, categories: seq<string>, k: Key)
    ensures LastAccepted(rows, categories, k).Some? ==>
      exists p :: 0 <= p < |rows| && rows[p] == LastAccepted(rows, categories, k).value
        && forall i :: p < i < |rows| ==> !(rows[i].category in categories && KeyOf(rows[i]) == k)
    decreases |rows|
  {
    if |rows| > 0 {
      var n := |rows| - 1;
      var pre := rows[..n];
      var last := rows[n];
      if last.category in categories && KeyOf(last) == k {
        assert rows[n] == LastAccepted(rows, categories, k).value;
      } else if LastAccepted(pre, categories, k).Some? {
        LastAcceptedIsLast(pre, categories, k);
        var p :| 0 <= p < |pre| && pre[p] == LastAccepted(pre, categories, k).value
          && forall i :: p < i < |pre| ==> !(pre[i].category in categories && KeyOf(pre[i]) == k);
        assert rows[p] == pre[p];
        assert forall i :: p < i < n ==> rows[i] == pre[i];
      }
    }
  }

  /** A row whose category is filtered out leaves no trace: building from the accepted
      rows alone gives the same table and the same count. */
  lemma {:induction false} BuildIgnoresRejected(rows: seq<Row>, categories: seq<string>)
    ensures CreateMistakeDict(Accepted(rows, categories), categories) == CreateMistakeDict(rows, categories)
    decreases |rows|
  {
    if |rows| > 0 {
      var pre := rows[..|rows| - 1];
      var last := rows[|rows| - 1];
      BuildIgnoresRejected(pre, categories);
      if last.category in categories {
        var acc := Accepted(rows, categories);
        assert acc[..|acc| - 1] == Accepted(pre, categories);
      }
    }
  }

  /** After the build, `table[text][sentence][start]` is the mistake of the last accepted
      row with that text, sentence and start, and is absent when there is none. */
  lemma {:induction false} BuildLookup(rows: seq<Row>, categories: seq<string>, k: Key)
    ensures Lookup(CreateMistakeDict(rows, categories).table, k)
         == match LastAccepted(rows, categories, k)
            case None => None
            case Some(r) => Some(MistakeOf(r))
    decreases |rows|
  {
    if |rows| > 0 {
      BuildLookup(rows[..|rows| - 1], categories, k);
      var b := CreateMistakeDict(rows[..|rows| - 1], categories);
      InsertLookup(b.table, rows[|rows| - 1], k);
    }
  }

  /** The positions that hold a mistake. */
  function KeySet(t: Table): set<Key> {
    set x, s, a | x in t.vals && s in t.vals[x].vals && a in t.vals[x].vals[s].vals :: Key(x, s, a)
  }

  /** A position is in the key set exactly when the table holds a mistake there. */
  lemma KeySetLookup(t: Table, k: Key)
    ensures k in KeySet(t) <==> Lookup(t, k).Some?
  {
  }

  /** The positions of the accepted rows, in row order. */
  function RowKeys(rows: seq<Row>): (r: seq<Key>)
    ensures |r| == |rows|
    ensures forall i :: 0 <= i < |rows| ==> r[i] == KeyOf(rows[i])
  {
    seq(|rows|, i requires 0 <= i < |rows| => KeyOf(rows[i]))
  }

  /** No two accepted rows share a text, sentence and start index. */
  predicate NoCollisions(rows: seq<Row>, categories: seq<string>) {
    Distinct(RowKeys(Accepted(rows, categories)))
  }

  /** The table holds a mistake exactly at the positions of the accepted rows. */
  lemma BuildKeySet(rows: seq<Row>, categories: seq<string>)
    ensures KeySet(CreateMistakeDict(rows, categories).table) == Elems(RowKeys(Accepted(rows, categories)))
  {
    var t := CreateMistakeDict(rows, categories).table;
    var acc := Accepted(rows, categories);
    forall k
      ensures k in KeySet(t) <==> k in Elems(RowKeys(acc))
    {
      KeySetLookup(t, k);
      BuildLookup(rows, categories, k);
      if k in Elems(RowKeys(acc)) {
        var i :| 0 <= i < |acc| && RowKeys(acc)[i] == k;
        assert acc[i] in rows;
      } else {
        forall x | x in rows && x.category in categories
          ensures KeyOf(x) != k
        {
          var i :| 0 <= i < |acc| && acc[i] == x;
          assert RowKeys(acc)[i] == KeyOf(x);
        }
      }
    }
  }

  /** The table holds at most `num_mistakes` mistakes, and exactly that many precisely
      when no two accepted rows collide on text, sentence and start index. */
  lemma EntryCount(rows: seq<Row>, categories: seq<string>)
    ensures |KeySet(CreateMistakeDict(rows, categories).table)| <= CreateMistakeDict(rows, categories).numMistakes
    ensures |KeySet(CreateMistakeDict(rows, categories).table)| == CreateMistakeDict(rows, categories).numMistakes
        <==> NoCollisions(rows, categories)
  {
    BuildKeySet(rows, categories);
    DistinctCard(RowKeys(Accepted(rows, categories)));
  }

  /** The text ids of the rows, in row order. */
  function TextIds(rows: seq<Row>): (r: seq<string>)
    ensures |r| == |rows|
    decreases |rows|
  {
    if |rows| == 0 then [] else TextIds(rows[..|rows| - 1]) + [rows[|rows| - 1].textId]
  }

  /** The sentence ids of the rows of one text, in row order. */
  function SentenceIds(rows: seq<Row>, text: string): seq<int>
    decreases |rows|
  {
    if |rows| == 0 then []
    else
      var last := rows[|rows| - 1];
      SentenceIds(rows[..|rows| - 1], text) + (if last.textId == text then [last.sentenceId] else [])
  }

  /** The start indices of the rows of one sentence, in row order. */
  function StartIds(rows: seq<Row>, text: string, sid: int): seq<int>
    decreases |rows|
  {
    if |rows| == 0 then []
    else
      var last := rows[|rows| - 1];
      StartIds(rows[..|rows| - 1], text, sid)
        + (if last.textId == text && last.sentenceId == sid then [last.startIdx] else [])
  }

  /** The accepted rows of a longer list are those of its prefix, plus the last row when
      its category passes. */
  lemma AcceptedSnoc(rows: seq<Row>, categories: seq<string>)
    requires |rows| > 0
    ensures var acc := Accepted(rows[..|rows| - 1], categories);
      var last := rows[|rows| - 1];
      && (last.category !in categories ==> Accepted(rows, categories) == acc)
      && (last.category in categories ==>
            && Accepted(rows, categories) == acc + [last]
            && (acc + [last])[..|acc|] == acc)
  {
    var acc := Accepted(rows[..|rows| - 1], categories);
    var last := rows[|rows| - 1];
    assert (acc + [last])[..|acc|] == acc;
  }

  /** The table lists its texts in the order in which accepted rows first name them. */
  lemma {:induction false} BuildTextOrder(rows: seq<Row>, categories: seq<string>)
    ensures CreateMistakeDict(rows, categories).table.keys == Dedup(TextIds(Accepted(rows, categories)))
    decreases |rows|
  {
    if |rows| > 0 {
      var pre := rows[..|rows| - 1];
      var last := rows[|rows| - 1];
      BuildTextOrder(pre, categories);
      AcceptedSnoc(rows, categories);
      if last.category in categories {
        var acc := Accepted(pre, categories);
        assert TextIds(acc + [last]) == TextIds(acc) + [last.textId];
        assert (TextIds(acc) + [last.textId])[..|acc|] == TextIds(acc);
        var t := CreateMistakeDict(pre, categories).table;
        assert last.textId in t.vals <==> last.textId in Elems(t.keys);
      }
    }
  }

  /** Inserting a row extends a text's sentence order as the row's sentence id extends the
      list of sentence ids it was built from. */
  lemma InsertSentenceOrder(t: Table, r: Row, text: string, ids: seq<int>)
    requires TableValid(t) && Child(t, text).keys == Dedup(ids)
    ensures Child(Insert(t, r), text).keys == Dedup(ids + if r.textId == text then [r.sentenceId] else [])
  {
    if r.textId == text {
      InsertSentenceKeys(t, r);
      ChildrenValid(t, text, r.sentenceId);
      PutDedup(Child(t, text), ids, r.sentenceId, Child(Insert(t, r), text).keys);
    } else {
      InsertOtherText(t, r, text);
      assert ids + [] == ids;
    }
  }

  /** Inserting a row leaves every other text as it was. */
  lemma InsertOtherText(t: Table, r: Row, text: string)
    requires r.textId != text
    ensures Child(Insert(t, r), text) == Child(t, text)
  {
    InsertTexts(t, r);
  }

  /** Inserting a row leaves every other sentence as it was. */
  lemma InsertOtherSentence(t: Table, r: Row, text: string, sid: int)
    requires !(r.textId == text && r.sentenceId == sid)
    ensures Child(Child(Insert(t, r), text), sid) == Child(Child(t, text), sid)
  {
    if r.textId == text {
      InsertSentences(t, r);
    } else {
      InsertOtherText(t, r, text);
    }
  }

  /** Inserting a row extends a sentence's start order as the row's start index extends the
      list of start indices it was built from. */
  lemma InsertStartOrder(t: Table, r: Row, text: string, sid: int, ids: seq<int>)
    requires TableValid(t) && Child(Child(t, text), sid).keys == Dedup(ids)
    ensures Child(Child(Insert(t, r), text), sid).keys
         == Dedup(ids + if r.textId == text && r.sentenceId == sid then [r.startIdx] else [])
  {
    if r.textId == text && r.sentenceId == sid {
      InsertStarts(t, r);
      ChildrenValid(t, text, sid);
      PutDedup(Child(Child(t, text), sid), ids, r.startIdx, Child(Child(Insert(t, r), text), sid).keys);
    } else {
      InsertOtherSentence(t, r, text, sid);
      assert ids + [] == ids;
    }
  }

  /** The text and sentence levels under any keys of a well-formed table are well formed. */
  lemma ChildrenValid(t: Table, text: string, sid: int)
    requires TableValid(t)
    ensures Valid(Child(t, text)) && Valid(Child(Child(t, text), sid))
  {
  }

  /** Each text lists its sentences in the order in which accepted rows of that text first
      name them; an absent text has none. */
  lemma {:induction false} BuildSentenceOrder(rows: seq<Row>, categories: seq<string>, text: string)
    ensures Child(CreateMistakeDict(rows, categories).table, text).keys
         == Dedup(SentenceIds(Accepted(rows, categories), text))
    decreases |rows|
  {
    if |rows| > 0 {
      var pre := rows[..|rows| - 1];
      var last := rows[|rows| - 1];
      BuildSentenceOrder(pre, categories, text);
      AcceptedSnoc(rows, categories);
      if last.category in categories {
        var acc := Accepted(pre, categories);
        InsertSentenceOrder(CreateMistakeDict(pre, categories).table, last, text, SentenceIds(acc, text));
      }
    }
  }

  /** Each sentence lists its start indices in the order in which accepted rows of that
      sentence first name them; an absent sentence has none. */
  lemma {:induction false} BuildStartOrder(rows: seq<Row>, categories: seq<string>, text: string, sid: int)
    ensures Child(Child(CreateMistakeDict(rows, categories).table, text), sid).keys
         == Dedup(StartIds(Accepted(rows, categories), text, sid))
    decreases |rows|
  {
    if |rows| > 0 {
      var pre := rows[..|rows| - 1];
      var last := rows[|rows| - 1];
      BuildStartOrder(pre, categories, text, sid);
      AcceptedSnoc(rows, categories);
      if last.category in categories {
        var acc := Accepted(pre, categories);
        InsertStartOrder(CreateMistakeDict(pre, categories).table, last, text, sid, StartIds(acc, text, sid));
      }
    }
  }

  /** Number of rows that a single-category run accepts, summed over `categories`. */
  function SumOfSingleCounts(rows: seq<Row>, categories: seq<string>): nat
    decreases |categories|
  {
    if |categories| == 0 then 0
    else |Accepted(rows, [categories[0]])| + SumOfSingleCounts(rows, categories[1..])
  }

  /** Adding a row to every single-category run raises their summed count by one when
      its category is among them, and leaves it alone otherwise. */
  lemma {:induction false} SingleCountsStep(rows: seq<Row>, categories: seq<string>)
    requires |rows| > 0 && Distinct(categories)
    ensures SumOfSingleCounts(rows, categories)
         == SumOfSingleCounts(rows[..|rows| - 1], categories) + (if rows[|rows| - 1].category in categories then 1 else 0)
    decreases |categories|
  {
    if |categories| > 0 {
      var rest := categories[1..];
      assert Distinct(rest) by {
        forall i, j | 0 <= i < j < |rest|
          ensures rest[i] != rest[j]
        {
          assert rest[i] == categories[i + 1] && rest[j] == categories[j + 1];
        }
      }
      assert categories[0] !in rest by {
        forall i | 0 <= i < |rest|
          ensures rest[i] != categories[0]
        {
          assert rest[i] == categories[i + 1];
        }
      }
      assert forall c :: c in categories <==> c == categories[0] || c in rest by {
        assert categories == [categories[0]] + rest;
      }
      SingleCountsStep(rows, rest);
    }
  }

  /** Over distinct labels, the single-category runs together accept exactly the rows
      that the run with all of those labels accepts. */
  lemma {:induction false} CategoryCountsAddUp(rows: seq<Row>, categories: seq<string>)
    requires Distinct(categories)
    ensures |Accepted(rows, categories)| == SumOfSingleCounts(rows, categories)
    decreases |rows|
  {
    if |rows| == 0 {
      ZeroSingleCounts(categories);
    } else {
      CategoryCountsAddUp(rows[..|rows| - 1], categories);
      SingleCountsStep(rows, categories);
    }
  }

  /** With no rows, no single-category run accepts anything. */
  lemma {:induction false} ZeroSingleCounts(categories: seq<string>)
    ensures SumOfSingleCounts([], categories) == 0
    decreases |categories|
  {
    if |categories| > 0 {
      ZeroSingleCounts(categories[1..]);
    }
  }

  /** The driver's filters (evaluate.py:142) are all categories, then each one alone:
      the six per-category `num_mistakes` add up to the combined one. */
  lemma AllCategoryCountsAddUp(rows: seq<Row>)
    ensures CreateMistakeDict(rows, AllCategories()).numMistakes == SumOfSingleCounts(rows, AllCategories())
  {
    CategoryCountsAddUp(rows, AllCategories());
  }

  // Iteration order of a table: texts in insertion order, then sentences, then starts.

  /** The positions of one sentence's mistakes, in iteration order. */
  function SentenceKeys(text: string, sid: int, s: SentenceTable): (r: seq<Key>)
    ensures |r| == |s.keys|
    ensures forall i :: 0 <= i < |r| ==> r[i] == Key(text, sid, s.keys[i])
  {
    seq(|s.keys|, i requires 0 <= i < |s.keys| => Key(text, sid, s.keys[i]))
  }

  /** The positions of the mistakes of the listed sentences of one text. */
  function TextKeys(text: string, tt: TextTable, sids: seq<int>): seq<Key>
    requires forall s :: s in sids ==> s in tt.vals
    decreases |sids|
  {
    if |sids| == 0 then []
    else SentenceKeys(text, sids[0], tt.vals[sids[0]]) + TextKeys(text, tt, sids[1..])
  }

  /** The positions of the mistakes of the listed texts. */
  function TableKeys(t: Table, texts: seq<string>): seq<Key>
    requires TableValid(t)
    requires forall x :: x in texts ==> x in t.vals
    decreases |texts|
  {
    if |texts| == 0 then []
    else
      var tt := t.vals[texts[0]];
      assert forall s :: s in tt.keys ==> s in tt.vals by {
        assert Valid(tt);
      }
      TextKeys(texts[0], tt, tt.keys) + TableKeys(t, texts[1..])
  }

  /** Every position of the table, in the order the nested loops visit them. */
  function EntryKeys(t: Table): seq<Key>
    requires TableValid(t)
  {
    TableKeys(t, t.keys)
  }

  /** The tail of a repetition-free sequence is repetition-free and lacks the head. */
  lemma DistinctTail<T>(s: seq<T>)
    requires |s| > 0 && Distinct(s)
    ensures Distinct(s[1..]) && s[0] !in s[1..]
  {
    forall i | 0 <= i < |s| - 1
      ensures s[1..][i] != s[0]
    {
      assert s[1..][i] == s[i + 1];
    }
  }

  /** What the positions of a text's listed sentences are. */
  lemma {:induction false} TextKeysMembers(text: string, tt: TextTable, sids: seq<int>, k: Key)
    requires forall s :: s in sids ==> s in tt.vals && Valid(tt.vals[s])
    ensures k in TextKeys(text, tt, sids)
        <==> k.text == text && k.sentence in sids && k.start in tt.vals[k.sentence].vals
    decreases |sids|
  {
    if |sids| > 0 {
      TextKeysMembers(text, tt, sids[1..], k);
      var sk := SentenceKeys(text, sids[0], tt.vals[sids[0]]);
      if k.text == text && k.sentence == sids[0] && k.start in tt.vals[sids[0]].vals {
        var i :| 0 <= i < |tt.vals[sids[0]].keys| && tt.vals[sids[0]].keys[i] == k.start;
        assert sk[i] == k;
      }
    }
  }

  /** A text's positions do not repeat. */
  lemma {:induction false} TextKeysDistinct(text: string, tt: TextTable, sids: seq<int>)
    requires forall s :: s in sids ==> s in tt.vals && Valid(tt.vals[s])
    requires Distinct(sids)
    ensures Distinct(TextKeys(text, tt, sids))
    decreases |sids|
  {
    if |sids| > 0 {
      DistinctTail(sids);
      TextKeysDistinct(text, tt, sids[1..]);
      var sk := SentenceKeys(text, sids[0], tt.vals[sids[0]]);
      forall k | k in sk
        ensures k !in TextKeys(text, tt, sids[1..])
      {
        TextKeysMembers(text, tt, sids[1..], k);
      }
      DistinctConcat(sk, TextKeys(text, tt, sids[1..]));
    }
  }

  /** What the positions of the listed texts are. */
  lemma {:induction false} TableKeysMembers(t: Table, texts: seq<string>, k: Key)
    requires TableValid(t)
    requires forall x :: x in texts ==> x in t.vals
    ensures k in TableKeys(t, texts) <==> k.text in texts && Lookup(t, k).Some?
    decreases |texts|
  {
    if |texts| > 0 {
      TableKeysMembers(t, texts[1..], k);
      var tt := t.vals[texts[0]];
      TextKeysMembers(texts[0], tt, tt.keys, k);
    }
  }

  /** The listed texts' positions do not repeat. */
  lemma {:induction false} TableKeysDistinct(t: Table, texts: seq<string>)
    requires TableValid(t)
    requires forall x :: x in texts ==> x in t.vals
    requires Distinct(texts)
    ensures Distinct(TableKeys(t, texts))
    decreases |texts|
  {
    if |texts| > 0 {
      DistinctTail(texts);
      TableKeysDistinct(t, texts[1..]);
      var tt := t.vals[texts[0]];
      TextKeysDistinct(texts[0], tt, tt.keys);
      var head := TextKeys(texts[0], tt, tt.keys);
      forall k | k in head
        ensures k !in TableKeys(t, texts[1..])
      {
        TextKeysMembers(texts[0], tt, tt.keys, k);
        TableKeysMembers(t, texts[1..], k);
      }
      DistinctConcat(head, TableKeys(t, texts[1..]));
    }
  }

  /** The nested iteration visits every stored position exactly once. */
  lemma EntryKeysExact(t: Table)
    requires TableValid(t)
    ensures Distinct(EntryKeys(t))
    ensures Elems(EntryKeys(t)) == KeySet(t)
    ensures |EntryKeys(t)| == |KeySet(t)|
  {
    TableKeysDistinct(t, t.keys);
    forall k
      ensures k in EntryKeys(t) <==> k in KeySet(t)
    {
      TableKeysMembers(t, t.keys, k);
      KeySetLookup(t, k);
    }
    DistinctCard(EntryKeys(t));
  }
}
