/** The whitespace maintenance passes as folds over the rows read at their start: what one
    iteration does to the table, what the whole pass leaves behind, and what that state is
    known to satisfy. */
module TrimPass {
  import opened Tables
  import opened Text

  /** The number of rows of `rows` whose key text differs from its trim. */
  function CountUntrimmed<T>(rows: seq<Row<T>>, text: T -> string): (c: nat)
    ensures c <= |rows|
  {
    if rows == [] then 0
    else
      var last := text(rows[|rows| - 1].fields);
      CountUntrimmed(rows[..|rows| - 1], text) + (if Trim(last) != last then 1 else 0)
  }

  /** The count is zero exactly when every row's key text is trimmed already. */
  lemma {:induction false} CountUntrimmedZeroIff<T>(rows: seq<Row<T>>, text: T -> string)
    ensures CountUntrimmed(rows, text) == 0 <==> forall i :: 0 <= i < |rows| ==> IsTrimmed(text(rows[i].fields))
  {
    forall i | 0 <= i < |rows| ensures Trim(text(rows[i].fields)) == text(rows[i].fields) <==> IsTrimmed(text(rows[i].fields)) {
      TrimUnchangedIff(text(rows[i].fields));
    }
    if rows != [] {
      var init := rows[..|rows| - 1];
      CountUntrimmedZeroIff(init, text);
      assert forall i :: 0 <= i < |init| ==> init[i] == rows[i];
    }
  }

  /** Counting over one more row adds one exactly when that row is untrimmed. */
  lemma CountUntrimmedSnoc<T>(rows: seq<Row<T>>, i: nat, text: T -> string, untrimmed: bool)
    requires i < |rows| && (untrimmed <==> Trim(text(rows[i].fields)) != text(rows[i].fields))
    ensures CountUntrimmed(rows[..i + 1], text) == CountUntrimmed(rows[..i], text) + (if untrimmed then 1 else 0)
  {
    assert rows[..i + 1][..i] == rows[..i];
  }

  /** Some row other than `id` holds the text `s`. */
  ghost predicate TakenByOther(t: Table<string>, id: nat, s: string) {
    exists other :: other in t.rows && other != id && t.rows[other] == s
  }

  /** One iteration of the answer pass on the row `a` as it was read: a trimmed text is left
      alone; otherwise the row is rewritten to its trim, and when another row already holds
      that trim the rewrite is refused and the row is deleted instead. */
  ghost function TrimAnswerStep(t: Table<string>, a: Row<string>): Table<string> {
    var trimmed := Trim(a.fields);
    if trimmed == a.fields || a.id !in t.rows then t
    else if TakenByOther(t, a.id, trimmed) then Table(t.rows - {a.id}, t.nextId)
    else Table(t.rows[a.id := trimmed], t.nextId)
  }

  /** The answer pass run over `rows`, in order, starting from `t`. */
  ghost function TrimAnswersOver(t: Table<string>, rows: seq<Row<string>>): Table<string> {
    if rows == [] then t else TrimAnswerStep(TrimAnswersOver(t, rows[..|rows| - 1]), rows[|rows| - 1])
  }

  /** The answer table after the pass over all of its rows. */
  ghost function TrimmedAnswers(t: Table<string>): Table<string>
    requires t.WellFormed()
  {
    TrimAnswersOver(t, Rows(t))
  }

  /** The row ids of `rows` strictly ascend, as in a listing of a table. */
  ghost predicate IdsAscending<T>(rows: seq<Row<T>>) {
    forall k, l :: 0 <= k < l < |rows| ==> rows[k].id < rows[l].id
  }

  /** `r` holds what `s` holds, except perhaps at the row `x`. */
  ghost predicate AgreeExcept<T>(s: Table<T>, r: Table<T>, x: nat) {
    && r.nextId == s.nextId && r.rows.Keys <= s.rows.Keys
    && forall id :: id in s.rows && id != x ==> id in r.rows && r.rows[id] == s.rows[id]
  }

  /** The row `a` as read is still in `r`, unchanged. */
  ghost predicate AnswerPending(r: Table<string>, a: Row<string>) {
    a.id in r.rows && r.rows[a.id] == a.fields
  }

  /** The row `a` as read has been processed in `r`: it is gone or holds its trim, it is still
      there if it was trimmed, and some row holds its trim. */
  ghost predicate AnswerDone(r: Table<string>, a: Row<string>) {
    && (a.id in r.rows ==> r.rows[a.id] == Trim(a.fields))
    && (IsTrimmed(a.fields) ==> a.id in r.rows)
    && HasKey(r, TextOf, Trim(a.fields))
  }

  /** What holds after the first `i` of the rows read from `t` were processed: the table is
      well formed with unique texts and no new row; rows not yet reached are as read; rows
      reached are processed. */
  ghost predicate AnswerPassAt(t: Table<string>, rows: seq<Row<string>>, i: nat, r: Table<string>)
    requires i <= |rows|
  {
    && r.nextId == t.nextId && r.rows.Keys <= t.rows.Keys && UniqueBy(r, TextOf)
    && (forall k :: i <= k < |rows| ==> AnswerPending(r, rows[k]))
    && (forall k :: 0 <= k < i ==> AnswerDone(r, rows[k]))
  }

  /** A step on an untrimmed row changes that row only. */
  lemma AnswerStepAgrees(prev: Table<string>, a: Row<string>)
    ensures AgreeExcept(prev, TrimAnswerStep(prev, a), a.id)
  {
  }

  /** A row processed before stays processed when a later step touches only the row `a`,
      whose text was untrimmed: the witness of its trim was not `a`. */
  lemma AnswerDoneKept(prev: Table<string>, r: Table<string>, a: Row<string>, b: Row<string>)
    requires AgreeExcept(prev, r, a.id) && AnswerPending(prev, a) && !IsTrimmed(a.fields)
    requires b.id != a.id && AnswerDone(prev, b)
    ensures AnswerDone(r, b)
  {
    var w :| w in prev.rows && TextOf(prev.rows[w]) == Trim(b.fields);
    assert w in r.rows && TextOf(r.rows[w]) == Trim(b.fields);
  }

  /** One iteration keeps `AnswerPassAt`, one row further on. */
  lemma AnswerPassStep(t: Table<string>, rows: seq<Row<string>>, i: nat, prev: Table<string>)
    requires IdsAscending(rows)
    requires i < |rows| && AnswerPassAt(t, rows, i, prev)
    ensures AnswerPassAt(t, rows, i + 1, TrimAnswerStep(prev, rows[i]))
  {
    var a := rows[i];
    var r := TrimAnswerStep(prev, a);
    var trimmed := Trim(a.fields);
    TrimUnchangedIff(a.fields);
    assert AnswerPending(prev, a);
    if trimmed == a.fields {
      assert HasKey(r, TextOf, trimmed) by { assert TextOf(r.rows[a.id]) == trimmed; }
      assert AnswerDone(r, a);
    } else {
      AnswerStepAgrees(prev, a);
      forall k | 0 <= k < i ensures AnswerDone(r, rows[k]) {
        AnswerDoneKept(prev, r, a, rows[k]);
      }
      forall k | i + 1 <= k < |rows| ensures AnswerPending(r, rows[k]) {
        assert AnswerPending(prev, rows[k]);
      }
      if TakenByOther(prev, a.id, trimmed) {
        var other :| other in prev.rows && other != a.id && prev.rows[other] == trimmed;
        assert other in r.rows && TextOf(r.rows[other]) == trimmed;
      } else {
        assert TextOf(r.rows[a.id]) == trimmed;
        assert UniqueBy(r, TextOf) by {
          forall x, y | x in r.rows && y in r.rows && TextOf(r.rows[x]) == TextOf(r.rows[y]) ensures x == y {
            if x != a.id && y != a.id {
              assert TextOf(prev.rows[x]) == TextOf(prev.rows[y]);
            }
          }
        }
      }
      assert AnswerDone(r, a);
    }
  }

  /** `AnswerPassAt` holds after every prefix of ascending `rows`, once it holds at the start. */
  lemma {:induction false} AnswerPassUpTo(t: Table<string>, rows: seq<Row<string>>, i: nat)
    requires IdsAscending(rows) && i <= |rows| && AnswerPassAt(t, rows, 0, t)
    ensures AnswerPassAt(t, rows, i, TrimAnswersOver(t, rows[..i]))
  {
    if i == 0 {
      assert rows[..0] == [];
    } else {
      AnswerPassUpTo(t, rows, i - 1);
      assert rows[..i][..i - 1] == rows[..i - 1];
      AnswerPassStep(t, rows, i - 1, TrimAnswersOver(t, rows[..i - 1]));
    }
  }

  /** `AnswerPassAt` holds after every prefix of the rows read from `t`. */
  lemma AnswerPassPrefix(t: Table<string>, i: nat)
    requires t.WellFormed() && UniqueBy(t, TextOf) && i <= |Rows(t)|
    ensures AnswerPassAt(t, Rows(t), i, TrimAnswersOver(t, Rows(t)[..i]))
  {
    var rows := Rows(t);
    assert AnswerPassAt(t, rows, 0, t) by {
      assert forall k :: 0 <= k < |rows| ==> AnswerPending(t, rows[k]);
    }
    AnswerPassUpTo(t, rows, i);
  }

  /** The pass over one more row is one more step. */
  lemma AnswersOverSnoc(t: Table<string>, rows: seq<Row<string>>, i: nat)
    requires i < |rows|
    ensures TrimAnswersOver(t, rows[..i + 1]) == TrimAnswerStep(TrimAnswersOver(t, rows[..i]), rows[i])
  {
    assert rows[..i + 1][..i] == rows[..i];
  }

  /** Before the step on row `i`, that row is in the table as it was read. */
  lemma AnswerPendingAt(t: Table<string>, i: nat)
    requires t.WellFormed() && UniqueBy(t, TextOf) && i < |Rows(t)|
    ensures AnswerPending(TrimAnswersOver(t, Rows(t)[..i]), Rows(t)[i])
  {
    AnswerPassPrefix(t, i);
  }

  /** The answer pass keeps the texts unique and adds no row; every row left holds the trim of
      its old text; a row whose text was trimmed already is left as it was; and no trimmed
      text is lost: the trim of every old row is held by some row afterwards. */
  lemma TrimmedAnswersMeaning(t: Table<string>)
    requires t.WellFormed() && UniqueBy(t, TextOf)
    ensures TrimmedAnswers(t).nextId == t.nextId && UniqueBy(TrimmedAnswers(t), TextOf)
    ensures forall id :: id in TrimmedAnswers(t).rows ==>
              id in t.rows && TrimmedAnswers(t).rows[id] == Trim(t.rows[id]) && IsTrimmed(TrimmedAnswers(t).rows[id])
    ensures forall id :: id in t.rows && IsTrimmed(t.rows[id]) ==>
              id in TrimmedAnswers(t).rows && TrimmedAnswers(t).rows[id] == t.rows[id]
    ensures forall id :: id in t.rows ==> HasKey(TrimmedAnswers(t), TextOf, Trim(t.rows[id]))
  {
    var rows := Rows(t);
    AnswerPassPrefix(t, |rows|);
    assert rows[..|rows|] == rows;
    AnswerPassDoneRows(t, rows, TrimmedAnswers(t));
  }

  /** Reading a finished pass row by row: every row of `t` is processed in `r`. */
  lemma AnswerPassDoneRows(t: Table<string>, rows: seq<Row<string>>, r: Table<string>)
    requires t.WellFormed() && rows == Rows(t) && AnswerPassAt(t, rows, |rows|, r)
    ensures forall id :: id in r.rows ==> id in t.rows && r.rows[id] == Trim(t.rows[id]) && IsTrimmed(r.rows[id])
    ensures forall id :: id in t.rows && IsTrimmed(t.rows[id]) ==> id in r.rows && r.rows[id] == t.rows[id]
    ensures forall id :: id in t.rows ==> HasKey(r, TextOf, Trim(t.rows[id]))
  {
    forall id | id in t.rows
      ensures HasKey(r, TextOf, Trim(t.rows[id]))
      ensures IsTrimmed(t.rows[id]) ==> id in r.rows && r.rows[id] == t.rows[id]
      ensures id in r.rows ==> r.rows[id] == Trim(t.rows[id])
    {
      var k :| 0 <= k < |rows| && rows[k] == Row(id, t.rows[id]);
      assert AnswerDone(r, rows[k]);
      TrimUnchangedIff(t.rows[id]);
    }
  }

  /** On a table whose texts are all trimmed the answer pass changes nothing and counts
      nothing, so running it a second time is a no-op. */
  lemma {:induction false} TrimAnswersOverTrimmed(t: Table<string>, rows: seq<Row<string>>)
    requires forall k :: 0 <= k < |rows| ==> IsTrimmed(rows[k].fields)
    ensures TrimAnswersOver(t, rows) == t
    ensures CountUntrimmed(rows, TextOf) == 0
  {
    if rows != [] {
      TrimAnswersOverTrimmed(t, rows[..|rows| - 1]);
      TrimUnchangedIff(rows[|rows| - 1].fields);
    }
    CountUntrimmedZeroIff(rows, TextOf);
  }

  lemma TrimAnswersIdempotent(t: Table<string>)
    requires t.WellFormed() && UniqueBy(t, TextOf)
    ensures TrimmedAnswers(t).WellFormed()
    ensures TrimmedAnswers(TrimmedAnswers(t)) == TrimmedAnswers(t)
    ensures CountUntrimmed(Rows(TrimmedAnswers(t)), TextOf) == 0
  {
    TrimmedAnswersMeaning(t);
    var r := TrimmedAnswers(t);
    TrimAnswersOverTrimmed(r, Rows(r));
  }

  /** The question pass so far: the table, and whether a rewrite was refused, which ends the
      pass. */
  datatype QuestionPass = QuestionPass(table: Table<Question>, failed: bool)

  /** Some row other than `id` holds the question text `s`. */
  ghost predicate TextTakenByOther(t: Table<Question>, id: nat, s: string) {
    exists other :: other in t.rows && other != id && t.rows[other].text == s
  }

  /** One iteration of the question pass on the row `q` as it was read: a trimmed text is left
      alone; otherwise the text is rewritten to its trim, and when another row already holds
      that trim the rewrite is refused and the pass stops. */
  ghost function TrimQuestionStep(p: QuestionPass, q: Row<Question>): QuestionPass {
    var trimmed := Trim(q.fields.text);
    if p.failed || trimmed == q.fields.text || q.id !in p.table.rows then p
    else if TextTakenByOther(p.table, q.id, trimmed) then p.(failed := true)
    else p.(table := Table(p.table.rows[q.id := p.table.rows[q.id].(text := trimmed)], p.table.nextId))
  }

  /** The question pass run over `rows`, in order, starting from `t`. */
  ghost function TrimQuestionsOver(t: Table<Question>, rows: seq<Row<Question>>): QuestionPass {
    if rows == [] then QuestionPass(t, false)
    else TrimQuestionStep(TrimQuestionsOver(t, rows[..|rows| - 1]), rows[|rows| - 1])
  }

  /** The outcome of the question pass over all rows of `t`. */
  ghost function TrimmedQuestions(t: Table<Question>): QuestionPass
    requires t.WellFormed()
  {
    TrimQuestionsOver(t, Rows(t))
  }

  /** The question `v` with its text trimmed. */
  function WithTrimmedText(v: Question): (w: Question)
    ensures IsTrimmed(w.text)
    ensures w.(text := v.text) == v
  {
    v.(text := Trim(v.text))
  }

  /** `now` is the row `v` as read, or `v` with its text trimmed. */
  predicate SameOrTextTrimmed(v: Question, now: Question) {
    now == v || now == WithTrimmedText(v)
  }

  /** The row `q` as read is still in `p`, unchanged. */
  ghost predicate QuestionPending(p: QuestionPass, q: Row<Question>) {
    q.id in p.table.rows && p.table.rows[q.id] == q.fields
  }

  /** The row `q` as read has been processed in `p`: it holds its old fields, with the text
      trimmed unless the pass has stopped. */
  ghost predicate QuestionDone(p: QuestionPass, q: Row<Question>) {
    && q.id in p.table.rows && SameOrTextTrimmed(q.fields, p.table.rows[q.id])
    && (!p.failed ==> p.table.rows[q.id] == WithTrimmedText(q.fields))
  }

  /** What holds after the first `i` of the rows read from `t` were processed: the same row ids
      with unique texts; rows not yet reached are as read; rows reached are processed. */
  ghost predicate QuestionPassAt(t: Table<Question>, rows: seq<Row<Question>>, i: nat, p: QuestionPass)
    requires i <= |rows|
  {
    && p.table.nextId == t.nextId && p.table.rows.Keys == t.rows.Keys && UniqueBy(p.table, QuestionText)
    && (forall k :: i <= k < |rows| ==> QuestionPending(p, rows[k]))
    && (forall k :: 0 <= k < i ==> QuestionDone(p, rows[k]))
  }

  /** One iteration keeps `QuestionPassAt`, one row further on. */
  lemma QuestionPassStep(t: Table<Question>, rows: seq<Row<Question>>, i: nat, prev: QuestionPass)
    requires IdsAscending(rows)
    requires i < |rows| && QuestionPassAt(t, rows, i, prev)
    ensures QuestionPassAt(t, rows, i + 1, TrimQuestionStep(prev, rows[i]))
  {
    var q := rows[i];
    var trimmed := Trim(q.fields.text);
    var p := TrimQuestionStep(prev, q);
    assert QuestionPending(prev, q);
    if prev.failed || trimmed == q.fields.text {
      assert WithTrimmedText(q.fields) == q.fields || prev.failed;
      assert QuestionDone(p, q);
    } else if TextTakenByOther(prev.table, q.id, trimmed) {
      forall k | 0 <= k < i ensures QuestionDone(p, rows[k]) {
        assert QuestionDone(prev, rows[k]);
      }
      assert QuestionDone(p, q);
    } else {
      forall k | 0 <= k < i ensures QuestionDone(p, rows[k]) {
        assert QuestionDone(prev, rows[k]);
      }
      forall k | i + 1 <= k < |rows| ensures QuestionPending(p, rows[k]) {
        assert QuestionPending(prev, rows[k]);
      }
      assert p.table.rows[q.id] == WithTrimmedText(q.fields);
      assert UniqueBy(p.table, QuestionText) by {
        forall x, y | x in p.table.rows && y in p.table.rows && QuestionText(p.table.rows[x]) == QuestionText(p.table.rows[y])
          ensures x == y
        {
          if x != q.id && y != q.id {
            assert QuestionText(prev.table.rows[x]) == QuestionText(prev.table.rows[y]);
          }
        }
      }
    }
  }

  /** `QuestionPassAt` holds after every prefix of ascending `rows`, once it holds at the start. */
  lemma {:induction false} QuestionPassUpTo(t: Table<Question>, rows: seq<Row<Question>>, i: nat)
    requires IdsAscending(rows) && i <= |rows| && QuestionPassAt(t, rows, 0, QuestionPass(t, false))
    ensures QuestionPassAt(t, rows, i, TrimQuestionsOver(t, rows[..i]))
  {
    if i == 0 {
      assert rows[..0] == [];
    } else {
      QuestionPassUpTo(t, rows, i - 1);
      assert rows[..i][..i - 1] == rows[..i - 1];
      QuestionPassStep(t, rows, i - 1, TrimQuestionsOver(t, rows[..i - 1]));
    }
  }

  /** `QuestionPassAt` holds after every prefix of the rows read from `t`. */
  lemma QuestionPassPrefix(t: Table<Question>, i: nat)
    requires t.WellFormed() && UniqueBy(t, QuestionText) && i <= |Rows(t)|
    ensures QuestionPassAt(t, Rows(t), i, TrimQuestionsOver(t, Rows(t)[..i]))
  {
    var rows := Rows(t);
    assert QuestionPassAt(t, rows, 0, QuestionPass(t, false)) by {
      assert forall k :: 0 <= k < |rows| ==> QuestionPending(QuestionPass(t, false), rows[k]);
    }
    QuestionPassUpTo(t, rows, i);
  }

  /** Reading a pass row by row: every row of `t` is reached or still as read. */
  lemma QuestionPassRows(t: Table<Question>, rows: seq<Row<Question>>, i: nat, p: QuestionPass)
    requires t.WellFormed() && rows == Rows(t) && i <= |rows| && QuestionPassAt(t, rows, i, p)
    ensures forall id :: id in t.rows ==> SameOrTextTrimmed(t.rows[id], p.table.rows[id])
    ensures i == |rows| && !p.failed ==> forall id :: id in t.rows ==> p.table.rows[id] == WithTrimmedText(t.rows[id])
  {
    forall id | id in t.rows
      ensures SameOrTextTrimmed(t.rows[id], p.table.rows[id])
      ensures i == |rows| && !p.failed ==> p.table.rows[id] == WithTrimmedText(t.rows[id])
    {
      var k :| 0 <= k < |rows| && rows[k] == Row(id, t.rows[id]);
      if k < i {
        assert QuestionDone(p, rows[k]);
      } else {
        assert QuestionPending(p, rows[k]);
      }
    }
  }

  /** The pass over one more row is one more step. */
  lemma QuestionsOverSnoc(t: Table<Question>, rows: seq<Row<Question>>, i: nat)
    requires i < |rows|
    ensures TrimQuestionsOver(t, rows[..i + 1]) == TrimQuestionStep(TrimQuestionsOver(t, rows[..i]), rows[i])
  {
    assert rows[..i + 1][..i] == rows[..i];
  }

  /** Before the step on row `i`, that row is in the table as it was read. */
  lemma QuestionPendingAt(t: Table<Question>, i: nat)
    requires t.WellFormed() && UniqueBy(t, QuestionText) && i < |Rows(t)|
    ensures QuestionPending(TrimQuestionsOver(t, Rows(t)[..i]), Rows(t)[i])
  {
    QuestionPassPrefix(t, i);
  }

  /** Once a rewrite is refused, the rest of the rows change nothing. */
  lemma {:induction false} StoppedPassStays(t: Table<Question>, rows: seq<Row<Question>>, j: nat, n: nat)
    requires j <= n <= |rows| && TrimQuestionsOver(t, rows[..j]).failed
    ensures TrimQuestionsOver(t, rows[..n]) == TrimQuestionsOver(t, rows[..j])
    decreases n
  {
    if n > j {
      StoppedPassStays(t, rows, j, n - 1);
      assert rows[..n][..n - 1] == rows[..n - 1];
    }
  }

  /** One iteration of the question pass, seen from the whole pass: the pass over one more row
      is the step just taken, and a step that stops the pass fixes the end result. */
  lemma QuestionPassAdvance(t: Table<Question>, rows: seq<Row<Question>>, i: nat, next: QuestionPass)
    requires i < |rows| && next == TrimQuestionStep(TrimQuestionsOver(t, rows[..i]), rows[i])
    ensures TrimQuestionsOver(t, rows[..i + 1]) == next
    ensures next.failed ==> TrimQuestionsOver(t, rows) == next
  {
    QuestionsOverSnoc(t, rows, i);
    if next.failed {
      StoppedPassStays(t, rows, i + 1, |rows|);
      assert rows[..|rows|] == rows;
    }
  }

  /** The question pass keeps the rows, their ids and their unique texts; it changes question
      texts only, each to its trim; and when no rewrite was refused every text is trimmed. */
  lemma TrimmedQuestionsMeaning(t: Table<Question>)
    requires t.WellFormed() && UniqueBy(t, QuestionText)
    ensures TrimmedQuestions(t).table.nextId == t.nextId && TrimmedQuestions(t).table.rows.Keys == t.rows.Keys
    ensures UniqueBy(TrimmedQuestions(t).table, QuestionText)
    ensures forall id :: id in t.rows ==> SameOrTextTrimmed(t.rows[id], TrimmedQuestions(t).table.rows[id])
    ensures !TrimmedQuestions(t).failed ==>
              forall id :: id in t.rows ==> TrimmedQuestions(t).table.rows[id] == WithTrimmedText(t.rows[id])
  {
    var rows := Rows(t);
    QuestionPassPrefix(t, |rows|);
    assert rows[..|rows|] == rows;
    QuestionPassRows(t, rows, |rows|, TrimmedQuestions(t));
  }

  /** A pass that has stopped was stopped by one step, taken while it was still going. */
  lemma {:induction false} FirstStop(t: Table<Question>, rows: seq<Row<Question>>, i: nat)
    requires i <= |rows| && TrimQuestionsOver(t, rows[..i]).failed
    ensures exists j :: 0 <= j < i && !TrimQuestionsOver(t, rows[..j]).failed &&
                        TrimQuestionStep(TrimQuestionsOver(t, rows[..j]), rows[j]).failed
  {
    if i > 0 {
      assert rows[..i][..i - 1] == rows[..i - 1];
      if TrimQuestionsOver(t, rows[..i - 1]).failed {
        FirstStop(t, rows, i - 1);
      }
    }
  }

  /** A rewrite is refused only when two rows' texts have the same trim. */
  lemma TrimQuestionsOverFails(t: Table<Question>, i: nat)
    requires t.WellFormed() && UniqueBy(t, QuestionText) && i <= |Rows(t)|
    requires TrimQuestionsOver(t, Rows(t)[..i]).failed
    ensures exists a, b :: a in t.rows && b in t.rows && a != b && Trim(t.rows[a].text) == Trim(t.rows[b].text)
  {
    var rows := Rows(t);
    FirstStop(t, rows, i);
    var j :| 0 <= j < i && !TrimQuestionsOver(t, rows[..j]).failed &&
             TrimQuestionStep(TrimQuestionsOver(t, rows[..j]), rows[j]).failed;
    FirstRefusal(t, j, TrimQuestionsOver(t, rows[..j]));
  }

  /** The question pass over all rows stops exactly when two rows' texts have the same trim:
      a refused rewrite meets such a pair, and a pass that went through would leave the pair
      with one text, which the unique texts it keeps rule out. */
  lemma TrimmedQuestionsFailIff(t: Table<Question>)
    requires t.WellFormed() && UniqueBy(t, QuestionText)
    ensures TrimmedQuestions(t).failed <==>
              exists a, b :: a in t.rows && b in t.rows && a != b && Trim(t.rows[a].text) == Trim(t.rows[b].text)
  {
    TrimmedQuestionsMeaning(t);
    if TrimmedQuestions(t).failed {
      assert Rows(t)[..|Rows(t)|] == Rows(t);
      TrimQuestionsOverFails(t, |Rows(t)|);
    }
  }

  /** The step that first refuses a rewrite meets another row holding the trim. */
  lemma FirstRefusal(t: Table<Question>, j: nat, prev: QuestionPass)
    requires t.WellFormed() && UniqueBy(t, QuestionText) && j < |Rows(t)|
    requires prev == TrimQuestionsOver(t, Rows(t)[..j]) && !prev.failed
    requires TrimQuestionStep(prev, Rows(t)[j]).failed
    ensures exists a, b :: a in t.rows && b in t.rows && a != b && Trim(t.rows[a].text) == Trim(t.rows[b].text)
  {
    var rows := Rows(t);
    var q := rows[j];
    assert TextTakenByOther(prev.table, q.id, Trim(q.fields.text));
    QuestionPassPrefix(t, j);
    QuestionPassRows(t, rows, j, prev);
    ClashMeansSameTrim(t, prev.table, q);
  }

  /** A text another row holds in the middle of the pass is that row's old text or its trim;
      so when it is the trim of the row `q`, the two old texts have the same trim. */
  lemma ClashMeansSameTrim(t: Table<Question>, now: Table<Question>, q: Row<Question>)
    requires q.id in t.rows && t.rows[q.id] == q.fields
    requires now.rows.Keys == t.rows.Keys
    requires forall id :: id in t.rows ==> SameOrTextTrimmed(t.rows[id], now.rows[id])
    requires TextTakenByOther(now, q.id, Trim(q.fields.text))
    ensures exists a, b :: a in t.rows && b in t.rows && a != b && Trim(t.rows[a].text) == Trim(t.rows[b].text)
  {
    var other :| other in now.rows && other != q.id && now.rows[other].text == Trim(q.fields.text);
    var before := t.rows[other].text;
    if now.rows[other] == t.rows[other] {
      TrimIdempotent(q.fields.text);
      assert Trim(before) == Trim(q.fields.text);
    } else {
      assert now.rows[other] == WithTrimmedText(t.rows[other]);
      assert Trim(before) == Trim(q.fields.text);
    }
    assert other in t.rows && q.id in t.rows && other != q.id && Trim(t.rows[other].text) == Trim(t.rows[q.id].text);
  }
}
