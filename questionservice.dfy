/** The question store logic: find-or-create of answers, the duplicate check and insert path of
    `createQuestion`, the name lookups against reference-table snapshots, and the maintenance
    passes that trim whitespace or empty the question and answer tables. */
module QuestionService {
  import opened Wrappers
  import opened Tables
  import opened Text
  import opened Sorting
  import opened TrimPass

  /** An incoming question (`QuestionCreateData`): the question text, the names of its
      difficulty, category and type, and its answer texts. */
  datatype QuestionData = QuestionData(
    question: string,
    difficulty: string,
    category: string,
    qtype: string,
    correctAnswer: string,
    incorrectAnswers: seq<string>)

  /** A stored question as a lookup with its relations included shows it. */
  datatype StoredQuestion = StoredQuestion(
    difficulty: string,
    category: string,
    qtype: string,
    correctAnswer: string,
    incorrectAnswers: seq<string>)

  /** What a lookup of the incoming question text finds: no row, a row one of whose required
      relations has no row any more, or a row with its relations. */
  datatype Prior = Absent | Broken | Present(stored: StoredQuestion)

  /** Errors `createQuestion` and the maintenance passes raise. */
  datatype ServiceError =
    | UnknownDifficulty(level: string)
    | UnknownCategory(name: string)
    | UnknownType(name: string)
    | AnswerUnavailable(text: string)
    | MissingRelation
    | Db(cause: DbError)

  /** What becomes of an answer insert apart from the unique check: the store accepts it, a
      concurrent writer inserts the same text first, or the store refuses it outright. */
  datatype InsertFate = Accepted | LostRace | Refused

  function FateAt(fates: seq<InsertFate>, i: nat): InsertFate {
    if i < |fates| then fates[i] else Accepted
  }

  /** The texts of the answer rows whose ids are in `ids`, in listing order: each comes from
      such a row, and every such row gives its text. */
  function LinkedTexts(rows: seq<Row<string>>, ids: set<nat>): (r: seq<string>)
    ensures forall t :: t in r ==> exists i :: 0 <= i < |rows| && rows[i].id in ids && rows[i].fields == t
    ensures forall i :: 0 <= i < |rows| && rows[i].id in ids ==> rows[i].fields in r
  {
    if rows == [] then []
    else
      var rest := LinkedTexts(rows[1..], ids);
      assert forall i :: 1 <= i < |rows| ==> rows[i] == rows[1..][i - 1];
      (if rows[0].id in ids then [rows[0].fields] else []) + rest
  }

  /** The positions of `rows` that hold a row whose id is in `ids`. */
  ghost function LinkedPositions(rows: seq<Row<string>>, ids: set<nat>): set<nat> {
    set i: nat | i < |rows| && rows[i].id in ids
  }

  /** The texts of rows listed one after the other are the texts of each part in turn. */
  lemma {:induction false} LinkedTextsAppend(a: seq<Row<string>>, b: seq<Row<string>>, ids: set<nat>)
    ensures LinkedTexts(a + b, ids) == LinkedTexts(a, ids) + LinkedTexts(b, ids)
  {
    if a != [] {
      assert (a + b)[1..] == a[1..] + b;
      LinkedTextsAppend(a[1..], b, ids);
    } else {
      assert a + b == b;
    }
  }

  /** There is one text for each linked row, duplicates included. */
  lemma {:induction false} LinkedTextsCount(rows: seq<Row<string>>, ids: set<nat>)
    ensures |LinkedTexts(rows, ids)| == |LinkedPositions(rows, ids)|
  {
    if rows == [] {
      assert LinkedPositions(rows, ids) == {};
    } else {
      var k := |rows| - 1;
      var init := rows[..k];
      LinkedTextsCount(init, ids);
      LinkedTextsAppend(init, [rows[k]], ids);
      assert init + [rows[k]] == rows;
      PositionsSnoc(rows, ids);
    }
  }

  /** The linked positions of `rows` are those of all but its last row, and the last position
      when that row is linked. */
  lemma PositionsSnoc(rows: seq<Row<string>>, ids: set<nat>)
    requires rows != []
    ensures LinkedPositions(rows, ids) ==
              LinkedPositions(rows[..|rows| - 1], ids) + (if rows[|rows| - 1].id in ids then {|rows| - 1} else {})
  {
    var init := rows[..|rows| - 1];
    assert forall i :: 0 <= i < |init| ==> init[i] == rows[i];
  }

  /** The question `q` with its difficulty, category, type and answers resolved, or None when a
      required relation has no row. The incorrect answers are exactly the texts of the linked
      answer rows that exist; a linked id with no row is skipped. */
  function StoredView(
    answers: Table<string>, categories: Table<Category>, types: Table<string>,
    difficulties: Table<string>, q: Question): (v: Option<StoredQuestion>)
    requires answers.WellFormed()
    ensures v.Some? <==> q.difficultyId in difficulties.rows && q.categoryId in categories.rows &&
                         q.typeId in types.rows && q.correctAnswerId in answers.rows
    ensures v.Some? ==> forall t :: t in v.value.incorrectAnswers <==>
              exists id :: id in q.incorrectAnswerIds && id in answers.rows && answers.rows[id] == t
  {
    if q.difficultyId in difficulties.rows && q.categoryId in categories.rows &&
       q.typeId in types.rows && q.correctAnswerId in answers.rows
    then
      var linked := LinkedTexts(Rows(answers), q.incorrectAnswerIds);
      LinkedTextsOfTable(answers, q.incorrectAnswerIds);
      Some(StoredQuestion(
        difficulties.rows[q.difficultyId], categories.rows[q.categoryId].name, types.rows[q.typeId],
        answers.rows[q.correctAnswerId], linked))
    else None
  }

  /** Over the rows of a table, the linked texts are those of the rows whose ids are linked. */
  lemma LinkedTextsOfTable(answers: Table<string>, ids: set<nat>)
    requires answers.WellFormed()
    ensures forall t :: t in LinkedTexts(Rows(answers), ids) <==>
              exists id :: id in ids && id in answers.rows && answers.rows[id] == t
  {
    var rows := Rows(answers);
    forall id | id in ids && id in answers.rows
      ensures answers.rows[id] in LinkedTexts(rows, ids)
    {
      assert Row(id, answers.rows[id]) in rows;
    }
  }

  /** The duplicate check's notion of "the same question": equal difficulty, category, type and
      correct answer, and equal incorrect answers once both lists are sorted. That is, the
      incorrect answers are compared as multisets: the order in which they arrive does not
      matter, while their number and multiplicities do. */
  predicate SameContent(s: StoredQuestion, n: QuestionData)
    ensures SameContent(s, n) <==>
              && s.difficulty == n.difficulty && s.category == n.category && s.qtype == n.qtype
              && s.correctAnswer == n.correctAnswer
              && multiset(s.incorrectAnswers) == multiset(n.incorrectAnswers)
  {
    SortedEqualIffPermutation(s.incorrectAnswers, n.incorrectAnswers);
    && s.difficulty == n.difficulty && s.category == n.category && s.qtype == n.qtype
    && s.correctAnswer == n.correctAnswer
    && SortStrings(s.incorrectAnswers) == SortStrings(n.incorrectAnswers)
  }

  /** Reordering the incoming incorrect answers never changes the outcome of the check. */
  lemma SameContentIgnoresOrder(s: StoredQuestion, n: QuestionData, reordered: seq<string>)
    requires multiset(reordered) == multiset(n.incorrectAnswers)
    ensures SameContent(s, n.(incorrectAnswers := reordered)) == SameContent(s, n)
  {
  }

  /** Whether `createQuestion` goes past the duplicate check: no question has the text, or the
      one that has it differs in content. */
  predicate GoesOn(p: Prior, n: QuestionData) {
    p.Absent? || (p.Present? && !SameContent(p.stored, n))
  }

  /** The comparison `createQuestion` runs against an existing question: field by field, then
      the lengths, then position by position over the sorted stored list, where a position past
      the end of the sorted incoming list counts as a difference. */
  method FindDiff(s: StoredQuestion, n: QuestionData) returns (foundDiff: bool)
    ensures foundDiff <==> !SameContent(s, n)
  {
    foundDiff := false;
    if s.difficulty != n.difficulty { foundDiff := true; }
    if s.category != n.category { foundDiff := true; }
    if s.qtype != n.qtype { foundDiff := true; }
    if s.correctAnswer != n.correctAnswer { foundDiff := true; }
    if |s.incorrectAnswers| != |n.incorrectAnswers| { foundDiff := true; }
    var existingSorted := SortStrings(s.incorrectAnswers);
    var newSorted := SortStrings(n.incorrectAnswers);
    var listsDiffer := CompareSorted(existingSorted, newSorted);
    if !foundDiff {
      assert |existingSorted| == |multiset(existingSorted)| == |s.incorrectAnswers|;
      assert |newSorted| == |multiset(newSorted)| == |n.incorrectAnswers|;
      DifferAt(existingSorted, newSorted);
    }
    foundDiff := foundDiff || listsDiffer;
  }

  /** Position `k` of the stored sorted list differs from the incoming one, or the incoming
      list has no such position. */
  predicate DiffersAt(existing: seq<string>, incoming: seq<string>, k: nat)
    requires k < |existing|
  {
    k >= |incoming| || existing[k] != incoming[k]
  }

  /** The loop of the comparison: walks the stored sorted list, and a position where the
      incoming sorted list holds another text, or nothing, is a difference. */
  method CompareSorted(existing: seq<string>, incoming: seq<string>) returns (differ: bool)
    ensures differ <==> exists k :: 0 <= k < |existing| && DiffersAt(existing, incoming, k)
  {
    differ := false;
    for i := 0 to |existing|
      invariant differ <==> exists k :: 0 <= k < i && DiffersAt(existing, incoming, k)
    {
      if DiffersAt(existing, incoming, i) {
        differ := true;
      }
    }
  }

  /** Two sequences of one length differ exactly when they differ at some position. */
  lemma DifferAt(a: seq<string>, b: seq<string>)
    requires |a| == |b|
    ensures a != b <==> exists k :: 0 <= k < |a| && DiffersAt(a, b, k)
  {
    if a != b {
      var k :| 0 <= k < |a| && a[k] != b[k];
      assert DiffersAt(a, b, k);
    }
  }

  /** The answer texts of `n` in the order `createQuestion` looks them up: the correct answer,
      then the incorrect ones. */
  function AnswerTexts(n: QuestionData): (texts: seq<string>)
    ensures |texts| == 1 + |n.incorrectAnswers| && texts[0] == n.correctAnswer && texts[1..] == n.incorrectAnswers
  {
    [n.correctAnswer] + n.incorrectAnswers
  }

  /** The answer table while the answers of one question are looked up, and whether a lookup
      has failed, which ends the run. */
  datatype Resolution = Resolution(table: Table<string>, failed: bool)

  /** What `findOrCreateAnswer` does to the answer table: nothing when a row holds `text`;
      otherwise one row holding it is added, by this call or by the writer that won the race,
      unless the store refuses the insert, which fails the lookup. */
  ghost function FindOrCreateStep(p: Resolution, text: string, fate: InsertFate): Resolution {
    if p.failed || HasKey(p.table, TextOf, text) then p
    else if fate == Refused then p.(failed := true)
    else p.(table := p.table.Inserted(text))
  }

  /** The lookups of `texts`, in order, starting from the answer table `t`; the lookup of
      `texts[k]` meets the fate `FateAt(fates, k)`. */
  ghost function ResolveOver(t: Table<string>, texts: seq<string>, fates: seq<InsertFate>): Resolution {
    if texts == [] then Resolution(t, false)
    else FindOrCreateStep(ResolveOver(t, texts[..|texts| - 1], fates), texts[|texts| - 1], FateAt(fates, |texts| - 1))
  }

  /** Looking up one more text is one more step. */
  lemma ResolveSnoc(t: Table<string>, texts: seq<string>, fates: seq<InsertFate>, i: nat)
    requires i < |texts|
    ensures ResolveOver(t, texts[..i + 1], fates) == FindOrCreateStep(ResolveOver(t, texts[..i], fates), texts[i], FateAt(fates, i))
  {
    assert texts[..i + 1][..i] == texts[..i];
  }

  /** Once a lookup has failed, the remaining texts change nothing. */
  lemma {:induction false} ResolveStops(t: Table<string>, texts: seq<string>, fates: seq<InsertFate>, j: nat, n: nat)
    requires j <= n <= |texts| && ResolveOver(t, texts[..j], fates).failed
    ensures ResolveOver(t, texts[..n], fates) == ResolveOver(t, texts[..j], fates)
    decreases n
  {
    if n > j {
      ResolveStops(t, texts, fates, j, n - 1);
      assert texts[..n][..n - 1] == texts[..n - 1];
    }
  }

  /** One lookup keeps the table well formed with unique texts and keeps every row it had. */
  lemma FindOrCreateKeeps(p: Resolution, text: string, fate: InsertFate)
    requires p.table.WellFormed() && UniqueBy(p.table, TextOf)
    ensures FindOrCreateStep(p, text, fate).table.WellFormed()
    ensures UniqueBy(FindOrCreateStep(p, text, fate).table, TextOf)
    ensures forall id :: id in p.table.rows ==>
              id in FindOrCreateStep(p, text, fate).table.rows && FindOrCreateStep(p, text, fate).table.rows[id] == p.table.rows[id]
  {
  }

  /** The lookups keep every row the table had and its unique texts, and add rows only for
      texts looked up. */
  lemma {:induction false} ResolveKeeps(t: Table<string>, texts: seq<string>, fates: seq<InsertFate>)
    requires t.WellFormed() && UniqueBy(t, TextOf)
    ensures ResolveOver(t, texts, fates).table.WellFormed() && UniqueBy(ResolveOver(t, texts, fates).table, TextOf)
    ensures forall id :: id in t.rows ==>
              id in ResolveOver(t, texts, fates).table.rows && ResolveOver(t, texts, fates).table.rows[id] == t.rows[id]
    ensures forall id :: id in ResolveOver(t, texts, fates).table.rows && id !in t.rows ==>
              ResolveOver(t, texts, fates).table.rows[id] in texts
  {
    if texts != [] {
      var init := texts[..|texts| - 1];
      ResolveKeeps(t, init, fates);
      var prev := ResolveOver(t, init, fates);
      FindOrCreateKeeps(prev, texts[|texts| - 1], FateAt(fates, |texts| - 1));
      assert forall x :: x in init ==> x in texts;
    }
  }

  /** Unless a lookup failed, every text looked up has a row afterwards; and a lookup fails
      only on a text no row held whose insert the store refused. */
  lemma {:induction false} ResolveCovers(t: Table<string>, texts: seq<string>, fates: seq<InsertFate>)
    requires t.WellFormed() && UniqueBy(t, TextOf)
    ensures !ResolveOver(t, texts, fates).failed ==>
              forall k :: 0 <= k < |texts| ==> HasKey(ResolveOver(t, texts, fates).table, TextOf, texts[k])
    ensures ResolveOver(t, texts, fates).failed ==>
              exists k :: 0 <= k < |texts| && FateAt(fates, k) == Refused && !HasKey(t, TextOf, texts[k])
  {
    if texts != [] {
      var i := |texts| - 1;
      var init := texts[..i];
      ResolveCovers(t, init, fates);
      ResolveKeeps(t, init, fates);
      var prev := ResolveOver(t, init, fates);
      var res := ResolveOver(t, texts, fates);
      FindOrCreateKeeps(prev, texts[i], FateAt(fates, i));
      if !res.failed {
        forall k | 0 <= k < |texts| ensures HasKey(res.table, TextOf, texts[k]) {
          if k == i && !HasKey(prev.table, TextOf, texts[i]) {
            assert TextOf(res.table.rows[prev.table.nextId]) == texts[i];
          }
        }
      } else if prev.failed {
        var k :| 0 <= k < |init| && FateAt(fates, k) == Refused && !HasKey(t, TextOf, init[k]);
        assert init[k] == texts[k];
      } else {
        forall w | w in t.rows ensures TextOf(t.rows[w]) != texts[i] {
          assert w in prev.table.rows && prev.table.rows[w] == t.rows[w];
        }
      }
    }
  }

  /** The question service over one database, with the difficulty, category and type tables
      as they were read once when the service started. */
  class QuestionService {
    const db: Database
    const cachedDifficulties: seq<Row<string>>
    const cachedCategories: seq<Row<Category>>
    const cachedTypes: seq<Row<string>>

    /** Takes the reference-table snapshots; nothing later changes them. */
    constructor (db: Database)
      requires db.Valid()
      ensures this.db == db
      ensures cachedDifficulties == Rows(db.difficulties)
      ensures cachedCategories == Rows(db.categories)
      ensures cachedTypes == Rows(db.types)
    {
      this.db := db;
      cachedDifficulties := Rows(db.difficulties);
      cachedCategories := Rows(db.categories);
      cachedTypes := Rows(db.types);
    }

    /** `getCategoryByName`: the first snapshot row with that name, or None when the snapshot
        has none, whatever the table holds now. */
    function GetCategoryByName(name: string): (r: Option<Row<Category>>)
      ensures r.Some? ==> r.value in cachedCategories && r.value.fields.name == name
      ensures r.None? <==> forall i :: 0 <= i < |cachedCategories| ==> cachedCategories[i].fields.name != name
    {
      FirstWithKey(cachedCategories, CategoryName, name)
    }

    /** `getCategoryByOpentdbId`: the first snapshot row with that remote id, or None. */
    function GetCategoryByOpentdbId(opentdbId: int): (r: Option<Row<Category>>)
      ensures r.Some? ==> r.value in cachedCategories && r.value.fields.opentdbId == opentdbId
      ensures r.None? <==> forall i :: 0 <= i < |cachedCategories| ==> cachedCategories[i].fields.opentdbId != opentdbId
    {
      FirstWithKey(cachedCategories, CategoryOpentdbId, opentdbId)
    }

    /** What a lookup of `text` finds in the question table now: nothing exactly when no
        question has that text, and otherwise the view of the one that has it. */
    function PriorOf(text: string): (p: Prior)
      requires db.Valid()
      reads db
      ensures p.Absent? <==> !HasKey(db.questions, QuestionText, text)
      ensures !p.Absent? ==>
                exists id :: id in db.questions.rows && db.questions.rows[id].text == text &&
                             StoredView(db.answers, db.categories, db.types, db.difficulties, db.questions.rows[id]) ==
                             (if p.Present? then Some(p.stored) else None)
    {
      FindUnique(db.questions, QuestionText, text);
      match FirstWithKey(Rows(db.questions), QuestionText, text)
      case None => Absent
      case Some(row) =>
        match StoredView(db.answers, db.categories, db.types, db.difficulties, row.fields)
        case None => Broken
        case Some(s) => Present(s)
    }

    /** `findOrCreateAnswer`: the row holding `text`. An existing row is returned and nothing is
        written. Otherwise exactly one row with that text is added, by this call or by a writer
        that won the race, and the re-lookup finds it; only when the store refuses the insert
        outright does the re-lookup fail too, and then the call errors and nothing changes. */
    method FindOrCreateAnswer(text: string, fate: InsertFate) returns (r: Result<Row<string>, ServiceError>)
      requires db.Valid()
      modifies db
      ensures db.Valid()
      ensures Resolution(db.answers, r.Err?) == FindOrCreateStep(Resolution(old(db.answers), false), text, fate)
      ensures r.Ok? ==> r.value.fields == text && r.value.id in db.answers.rows && db.answers.rows[r.value.id] == text
      ensures r.Err? ==> r.error == AnswerUnavailable(text)
      ensures db.questions == old(db.questions) && db.categories == old(db.categories)
      ensures db.types == old(db.types) && db.difficulties == old(db.difficulties) && db.connected == old(db.connected)
    {
      FindUnique(db.answers, TextOf, text);
      var found := FirstWithKey(Rows(db.answers), TextOf, text);
      if found.Some? {
        return Ok(found.value);
      }
      var created: Result<Row<string>, DbError> := Err(UniqueViolation);
      if fate == LostRace {
        // the concurrent writer's insert lands first
        ghost var raced := db.answers.nextId;
        var _ := db.CreateAnswer(text);
        assert TextOf(db.answers.rows[raced]) == text;
      }
      if fate != Refused {
        created := db.CreateAnswer(text);
      }
      if created.Ok? {
        return Ok(created.value);
      }
      FindUnique(db.answers, TextOf, text);
      var again := FirstWithKey(Rows(db.answers), TextOf, text);
      if again.None? {
        return Err(AnswerUnavailable(text));
      }
      return Ok(again.value);
    }

    /** The concurrent answer lookups of `createQuestion`, run one after another: the row for
        each text, in order, until one lookup fails. */
    method ResolveAnswers(texts: seq<string>, fates: seq<InsertFate>) returns (r: Result<seq<Row<string>>, ServiceError>)
      requires db.Valid()
      modifies db
      ensures db.Valid()
      ensures Resolution(db.answers, r.Err?) == ResolveOver(old(db.answers), texts, fates)
      ensures r.Ok? ==> |r.value| == |texts|
      ensures r.Ok? ==> forall k :: 0 <= k < |texts| ==> r.value[k].id in db.answers.rows && db.answers.rows[r.value[k].id] == texts[k]
      ensures r.Err? ==> r.error.AnswerUnavailable?
      ensures db.questions == old(db.questions) && db.categories == old(db.categories)
      ensures db.types == old(db.types) && db.difficulties == old(db.difficulties) && db.connected == old(db.connected)
    {
      ghost var start := db.answers;
      var rows: seq<Row<string>> := [];
      for i := 0 to |texts|
        invariant db.Valid()
        invariant ResolveOver(start, texts[..i], fates) == Resolution(db.answers, false)
        invariant |rows| == i
        invariant forall k :: 0 <= k < i ==> rows[k].id in db.answers.rows && db.answers.rows[rows[k].id] == texts[k]
        invariant db.questions == old(db.questions) && db.categories == old(db.categories)
        invariant db.types == old(db.types) && db.difficulties == old(db.difficulties) && db.connected == old(db.connected)
      {
        ResolveSnoc(start, texts, fates, i);
        FindOrCreateKeeps(Resolution(db.answers, false), texts[i], FateAt(fates, i));
        var a := FindOrCreateAnswer(texts[i], FateAt(fates, i));
        if a.Err? {
          ResolveStops(start, texts, fates, i + 1, |texts|);
          assert texts[..|texts|] == texts;
          return Err(a.error);
        }
        rows := rows + [a.value];
      }
      assert texts[..|texts|] == texts;
      return Ok(rows);
    }

    /** The answer rows `q` links: the one holding the correct answer of `n`, and exactly those
        holding one of its incorrect answers. */
    ghost predicate LinksAnswers(q: Question, n: QuestionData, answers: Table<string>) {
      && q.correctAnswerId in answers.rows && answers.rows[q.correctAnswerId] == n.correctAnswer
      && forall id :: id in q.incorrectAnswerIds <==> id in answers.rows && answers.rows[id] in n.incorrectAnswers
    }

    /** The last part of `createQuestion`, once the difficulty, category and type are known:
        finds or creates the answers, correct answer first, then inserts the question linking
        them, which the store refuses when the text is taken or a linked row is gone. */
    method InsertQuestion(n: QuestionData, difficultyId: nat, categoryId: nat, typeId: nat, fates: seq<InsertFate>)
      returns (r: Result<Row<Question>, ServiceError>)
      requires db.Valid()
      modifies db
      ensures db.Valid()
      ensures db.answers == ResolveOver(old(db.answers), AnswerTexts(n), fates).table
      ensures ResolveOver(old(db.answers), AnswerTexts(n), fates).failed ==> r.Err? && r.error.AnswerUnavailable?
      ensures !ResolveOver(old(db.answers), AnswerTexts(n), fates).failed ==>
                (r.Ok? <==> !HasKey(old(db.questions), QuestionText, n.question) &&
                            difficultyId in db.difficulties.rows && categoryId in db.categories.rows && typeId in db.types.rows)
      ensures !ResolveOver(old(db.answers), AnswerTexts(n), fates).failed && r.Err? ==> r.error.Db?
      ensures r.Err? ==> db.questions == old(db.questions)
      ensures r.Ok? ==> r.value.id == old(db.questions.nextId) && db.questions == old(db.questions).Inserted(r.value.fields)
      ensures r.Ok? ==> r.value.fields.text == n.question && r.value.fields.difficultyId == difficultyId &&
                        r.value.fields.categoryId == categoryId && r.value.fields.typeId == typeId
      ensures r.Ok? ==> LinksAnswers(r.value.fields, n, db.answers)
      ensures db.categories == old(db.categories) && db.types == old(db.types)
      ensures db.difficulties == old(db.difficulties) && db.connected == old(db.connected)
    {
      var all := ResolveAnswers(AnswerTexts(n), fates);
      if all.Err? {
        return Err(all.error);
      }
      var correct := all.value[0];
      var incorrect := all.value[1..];
      var q := Question(n.question, difficultyId, categoryId, typeId,
                        correct.id, set k | 0 <= k < |incorrect| :: incorrect[k].id);
      LinkedIdsAreTheIncomingTexts(db.answers, incorrect, n.incorrectAnswers);
      var created := db.CreateQuestion(q);
      if created.Err? {
        return Err(Db(created.error));
      }
      return Ok(created.value);
    }

    /** The duplicate check of `createQuestion`: a stored question with the text of `n` and the
        same content stops it with null (None), and one whose required relations are missing
        stops it with an error; otherwise it goes on, whether or not the text is stored. */
    method CheckExisting(n: QuestionData) returns (stop: Option<Result<Option<Row<Question>>, ServiceError>>)
      requires db.Valid()
      ensures stop == Some(Ok(None)) <==> PriorOf(n.question).Present? && SameContent(PriorOf(n.question).stored, n)
      ensures stop == Some(Err(MissingRelation)) <==> PriorOf(n.question).Broken?
      ensures stop.None? <==> GoesOn(PriorOf(n.question), n)
      ensures stop.Some? ==> stop.value == Ok(None) || stop.value == Err(MissingRelation)
    {
      FindUnique(db.questions, QuestionText, n.question);
      var existing := FirstWithKey(Rows(db.questions), QuestionText, n.question);
      if existing.None? {
        return None;
      }
      var stored := StoredView(db.answers, db.categories, db.types, db.difficulties, existing.value.fields);
      if stored.None? {
        return Some(Err(MissingRelation));
      }
      var foundDiff := FindDiff(stored.value, n);
      if !foundDiff {
        return Some(Ok(None));
      }
      return None;
    }

    /** Whether `createQuestion` got as far as looking up the answers. */
    predicate ReachedAnswers(r: Result<Option<Row<Question>>, ServiceError>) {
      (r.Ok? && r.value.Some?) || (r.Err? && (r.error.AnswerUnavailable? || r.error.Db?))
    }

    /** `createQuestion`. A stored question with the same text and the same content makes it
        return null (None) without writing. Otherwise the difficulty, category and type names
        are looked up in that order in the snapshots, and an unknown one is an error raised
        before any answer is touched. Then the answers are found or created, correct answer
        first, and the question is inserted linking the snapshot rows and exactly those answers.
        A stored question with the same text but different content is never overwritten: the
        insert meets the unique text and fails. */
    method CreateQuestion(n: QuestionData, fates: seq<InsertFate>) returns (r: Result<Option<Row<Question>>, ServiceError>)
      requires db.Valid()
      modifies db
      ensures db.Valid()
      ensures CreateOutcome(old(PriorOf(n.question)), n, fates, r, old(db.answers), old(db.questions),
                            db.answers, db.questions, db.difficulties, db.categories, db.types)
      ensures db.categories == old(db.categories) && db.types == old(db.types)
      ensures db.difficulties == old(db.difficulties) && db.connected == old(db.connected)
    {
      ghost var prior := PriorOf(n.question);
      var stop := CheckExisting(n);
      if stop.Some? {
        StoppedOutcome(prior, n, fates, stop.value, db.answers, db.questions, db.difficulties, db.categories, db.types);
        return stop.value;
      }
      r := LookUpAndInsert(n, fates);
      WentOnOutcome(prior, n, fates, r, old(db.answers), old(db.questions),
                    db.answers, db.questions, db.difficulties, db.categories, db.types);
    }

    /** What `createQuestion` promises, from what a lookup of the text found (`prior`), the
        answer and question tables it started from (`answers0`, `questions0`), the ones it
        leaves (`answers`, `questions`) and the reference tables:
        - it returns null (None) exactly when a stored question has the same content;
        - a stored question with a missing relation is an error;
        - past the duplicate check it ends as `LookUpOutcome` says, so a stored question with
          the same text and other content is never overwritten;
        - the answer table changes exactly by the answer lookups, when it got that far;
        - the question table changes only by an insert, and only when no question had the
          text, which adds the question `Inserts` describes. */
    ghost predicate CreateOutcome(
      prior: Prior, n: QuestionData, fates: seq<InsertFate>, r: Result<Option<Row<Question>>, ServiceError>,
      answers0: Table<string>, questions0: Table<Question>, answers: Table<string>, questions: Table<Question>,
      difficulties: Table<string>, categories: Table<Category>, types: Table<string>)
    {
      && (r == Ok(None) <==> prior.Present? && SameContent(prior.stored, n))
      && (prior.Broken? ==> r == Err(MissingRelation))
      && (GoesOn(prior, n) ==> LookUpOutcome(n, fates, r, answers0, questions0, difficulties, categories, types))
      && answers == (if ReachedAnswers(r) then ResolveOver(answers0, AnswerTexts(n), fates).table else answers0)
      && (r.Err? || r == Ok(None) ==> questions == questions0)
      && (r.Ok? && r.value.Some? ==> prior.Absent? && Inserts(r.value.value, n, questions0, questions, answers))
    }

    /** The duplicate check's stops meet the promise of `createQuestion`, writing nothing. */
    lemma StoppedOutcome(
      prior: Prior, n: QuestionData, fates: seq<InsertFate>, r: Result<Option<Row<Question>>, ServiceError>,
      answers: Table<string>, questions: Table<Question>,
      difficulties: Table<string>, categories: Table<Category>, types: Table<string>)
      requires r == Ok(None) || r == Err(MissingRelation)
      requires r == Ok(None) <==> prior.Present? && SameContent(prior.stored, n)
      requires r == Err(MissingRelation) <==> prior.Broken?
      ensures CreateOutcome(prior, n, fates, r, answers, questions, answers, questions, difficulties, categories, types)
    {
    }

    /** Going on past the duplicate check meets the promise of `createQuestion`, given what
        `LookUpAndInsert` promises. */
    lemma WentOnOutcome(
      prior: Prior, n: QuestionData, fates: seq<InsertFate>, r: Result<Option<Row<Question>>, ServiceError>,
      answers0: Table<string>, questions0: Table<Question>, answers: Table<string>, questions: Table<Question>,
      difficulties: Table<string>, categories: Table<Category>, types: Table<string>)
      requires GoesOn(prior, n) && (prior.Absent? <==> !HasKey(questions0, QuestionText, n.question))
      requires r != Ok(None)
      requires LookUpOutcome(n, fates, r, answers0, questions0, difficulties, categories, types)
      requires answers == if ReachedAnswers(r) then ResolveOver(answers0, AnswerTexts(n), fates).table else answers0
      requires r.Err? ==> questions == questions0
      requires r.Ok? ==> Inserts(r.value.value, n, questions0, questions, answers)
      ensures CreateOutcome(prior, n, fates, r, answers0, questions0, answers, questions, difficulties, categories, types)
    {
    }

    /** `createQuestion` after the duplicate check: the difficulty, category and type names are
        looked up in that order in the snapshots, and an unknown one is an error raised before
        any answer is touched; then `InsertQuestion` does the rest. */
    method LookUpAndInsert(n: QuestionData, fates: seq<InsertFate>) returns (r: Result<Option<Row<Question>>, ServiceError>)
      requires db.Valid()
      modifies db
      ensures db.Valid()
      ensures r != Ok(None)
      ensures LookUpOutcome(n, fates, r, old(db.answers), old(db.questions), db.difficulties, db.categories, db.types)
      ensures db.answers == if ReachedAnswers(r) then ResolveOver(old(db.answers), AnswerTexts(n), fates).table else old(db.answers)
      ensures r.Err? ==> db.questions == old(db.questions)
      ensures HasKey(old(db.questions), QuestionText, n.question) ==> r.Err?
      ensures r.Ok? ==> Inserts(r.value.value, n, old(db.questions), db.questions, db.answers)
      ensures db.categories == old(db.categories) && db.types == old(db.types)
      ensures db.difficulties == old(db.difficulties) && db.connected == old(db.connected)
    {
      var difficulty := FirstWithKey(cachedDifficulties, TextOf, n.difficulty);
      if difficulty.None? {
        return Err(UnknownDifficulty(n.difficulty));
      }
      var category := GetCategoryByName(n.category);
      if category.None? {
        return Err(UnknownCategory(n.category));
      }
      var qtype := FirstWithKey(cachedTypes, TextOf, n.qtype);
      if qtype.None? {
        return Err(UnknownType(n.qtype));
      }
      var created := InsertQuestion(n, difficulty.value.id, category.value.id, qtype.value.id, fates);
      if created.Err? {
        return Err(created.error);
      }
      return Ok(Some(created.value));
    }

    /** How `createQuestion` ends once past the duplicate check, from the answer and question
        tables `answers` and `questions` it started with: an unknown difficulty, category or
        type name, looked up in that order, is its error; with all three known, a failed answer
        lookup is its error, and it inserts exactly when every answer lookup succeeded, no
        question has the text and the three snapshot rows are still in `difficulties`,
        `categories` and `types`. */
    ghost predicate LookUpOutcome(
      n: QuestionData, fates: seq<InsertFate>, r: Result<Option<Row<Question>>, ServiceError>,
      answers: Table<string>, questions: Table<Question>,
      difficulties: Table<string>, categories: Table<Category>, types: Table<string>)
    {
      var difficulty := FirstWithKey(cachedDifficulties, TextOf, n.difficulty);
      var category := GetCategoryByName(n.category);
      var qtype := FirstWithKey(cachedTypes, TextOf, n.qtype);
      var resolved := ResolveOver(answers, AnswerTexts(n), fates);
      && (difficulty.None? ==> r == Err(UnknownDifficulty(n.difficulty)))
      && (difficulty.Some? && category.None? ==> r == Err(UnknownCategory(n.category)))
      && (difficulty.Some? && category.Some? && qtype.None? ==> r == Err(UnknownType(n.qtype)))
      && (difficulty.Some? && category.Some? && qtype.Some? ==>
            && (resolved.failed ==> r.Err? && r.error.AnswerUnavailable?)
            && (r.Ok? <==> && !resolved.failed && !HasKey(questions, QuestionText, n.question)
                           && difficulty.value.id in difficulties.rows && category.value.id in categories.rows
                           && qtype.value.id in types.rows))
    }

    /** `row` is the question `createQuestion` adds for `n`: it is the next row of the question
        table, with the text of `n`, the first snapshot rows naming its difficulty, category
        and type, and the answer rows `LinksAnswers` describes. */
    ghost predicate Inserts(row: Row<Question>, n: QuestionData, before: Table<Question>, after: Table<Question>, answers: Table<string>) {
      && !HasKey(before, QuestionText, n.question)
      && row.id == before.nextId && after == before.Inserted(row.fields)
      && row.fields.text == n.question
      && FirstWithKey(cachedDifficulties, TextOf, n.difficulty) == Some(Row(row.fields.difficultyId, n.difficulty))
      && GetCategoryByName(n.category).Some? && GetCategoryByName(n.category).value.id == row.fields.categoryId
      && FirstWithKey(cachedTypes, TextOf, n.qtype) == Some(Row(row.fields.typeId, n.qtype))
      && LinksAnswers(row.fields, n, answers)
    }

    /** `deleteAllQuestions`: empties the question table, then the answer table. */
    method DeleteAllQuestions()
      requires db.Valid()
      modifies db
      ensures db.Valid()
      ensures db.questions == Table(map[], old(db.questions.nextId)) && db.answers == Table(map[], old(db.answers.nextId))
      ensures db.categories == old(db.categories) && db.types == old(db.types)
      ensures db.difficulties == old(db.difficulties) && db.connected == old(db.connected)
    {
      db.DeleteAllQuestions();
      db.DeleteAllAnswers();
    }

    /** One iteration of `trimWhitespaceFromAllAnswers` on the row `a` as it was read: an
        untrimmed text is rewritten to its trim, and when the store refuses that because
        another row holds the trim, the row is deleted. Reports whether the text was untrimmed. */
    method TrimAnswerRow(a: Row<string>) returns (untrimmed: bool)
      requires db.Valid() && AnswerPending(db.answers, a)
      modifies db
      ensures db.Valid()
      ensures untrimmed <==> Trim(a.fields) != a.fields
      ensures db.answers == TrimAnswerStep(old(db.answers), a)
      ensures db.questions == old(db.questions) && db.categories == old(db.categories)
      ensures db.types == old(db.types) && db.difficulties == old(db.difficulties) && db.connected == old(db.connected)
    {
      var trimmed := Trim(a.fields);
      untrimmed := trimmed != a.fields;
      if untrimmed {
        var updated := db.UpdateAnswer(a.id, trimmed);
        if updated.Fail? {
          db.DeleteAnswer(a.id);
        }
      }
    }

    /** `trimWhitespaceFromAllAnswers`: the answer pass over the rows as they were at the
        start, counting the untrimmed ones. `TrimmedAnswersMeaning` says what the resulting
        table is. */
    method TrimWhitespaceFromAllAnswers() returns (trimmedCount: nat)
      requires db.Valid()
      modifies db
      ensures db.Valid()
      ensures db.answers == TrimmedAnswers(old(db.answers))
      ensures trimmedCount == CountUntrimmed(Rows(old(db.answers)), TextOf)
      ensures db.questions == old(db.questions) && db.categories == old(db.categories)
      ensures db.types == old(db.types) && db.difficulties == old(db.difficulties) && db.connected == old(db.connected)
    {
      var answers := Rows(db.answers);
      ghost var start := db.answers;
      trimmedCount := 0;
      for i := 0 to |answers|
        invariant db.Valid()
        invariant db.answers == TrimAnswersOver(start, answers[..i])
        invariant trimmedCount == CountUntrimmed(answers[..i], TextOf)
        invariant db.questions == old(db.questions) && db.categories == old(db.categories)
        invariant db.types == old(db.types) && db.difficulties == old(db.difficulties) && db.connected == old(db.connected)
      {
        AnswersOverSnoc(start, answers, i);
        AnswerPendingAt(start, i);
        var untrimmed := TrimAnswerRow(answers[i]);
        CountUntrimmedSnoc(answers, i, TextOf, untrimmed);
        if untrimmed {
          trimmedCount := trimmedCount + 1;
        }
      }
      assert answers[..|answers|] == answers;
    }

    /** One iteration of `trimWhitespaceFromAllQuestions` on the row `q` as it was read: an
        untrimmed text is rewritten to its trim, which the store refuses when another row
        holds the trim. Reports whether the text was untrimmed, and the refusal. */
    method TrimQuestionRow(q: Row<Question>) returns (untrimmed: bool, r: Outcome<DbError>)
      requires db.Valid() && QuestionPending(QuestionPass(db.questions, false), q)
      modifies db
      ensures db.Valid()
      ensures untrimmed <==> Trim(q.fields.text) != q.fields.text
      ensures QuestionPass(db.questions, r.Fail?) == TrimQuestionStep(QuestionPass(old(db.questions), false), q)
      ensures r.Fail? ==> r.error == UniqueViolation
      ensures db.answers == old(db.answers) && db.categories == old(db.categories)
      ensures db.types == old(db.types) && db.difficulties == old(db.difficulties) && db.connected == old(db.connected)
    {
      var trimmed := Trim(q.fields.text);
      untrimmed := trimmed != q.fields.text;
      r := Pass;
      if untrimmed {
        r := db.UpdateQuestionText(q.id, trimmed);
      }
    }

    /** The body of the question loop at row `i`, in terms of the whole pass: the pass over one
        more row, the count over one more row, and, when the rewrite is refused, the end
        result of the pass. */
    method AdvanceQuestionPass(ghost start: Table<Question>, questions: seq<Row<Question>>, i: nat, count: nat)
      returns (next: nat, r: Outcome<DbError>)
      requires db.Valid() && start.WellFormed() && UniqueBy(start, QuestionText)
      requires questions == Rows(start) && i < |questions|
      requires TrimQuestionsOver(start, questions[..i]) == QuestionPass(db.questions, false)
      requires count == CountUntrimmed(questions[..i], QuestionText)
      modifies db
      ensures db.Valid()
      ensures r.Pass? ==> TrimQuestionsOver(start, questions[..i + 1]) == QuestionPass(db.questions, false)
      ensures r.Pass? ==> next == CountUntrimmed(questions[..i + 1], QuestionText)
      ensures r.Fail? ==> TrimQuestionsOver(start, questions) == QuestionPass(db.questions, true) && r.error == UniqueViolation
      ensures db.answers == old(db.answers) && db.categories == old(db.categories)
      ensures db.types == old(db.types) && db.difficulties == old(db.difficulties) && db.connected == old(db.connected)
    {
      QuestionPendingAt(start, i);
      var untrimmed;
      untrimmed, r := TrimQuestionRow(questions[i]);
      CountUntrimmedSnoc(questions, i, QuestionText, untrimmed);
      QuestionPassAdvance(start, questions, i, QuestionPass(db.questions, r.Fail?));
      next := if untrimmed then count + 1 else count;
    }

    /** `trimWhitespaceFromAllQuestions`: the question pass over the rows as they were at the
        start, counting the untrimmed ones. There is no fallback: the first rewrite refused by
        the unique text ends the pass with that error, keeping the rewrites done before it.
        `TrimmedQuestionsMeaning` says what the resulting table is. */
    method TrimWhitespaceFromAllQuestions() returns (r: Result<nat, ServiceError>)
      requires db.Valid()
      modifies db
      ensures db.Valid()
      ensures QuestionPass(db.questions, r.Err?) == TrimmedQuestions(old(db.questions))
      ensures r.Ok? ==> r.value == CountUntrimmed(Rows(old(db.questions)), QuestionText)
      ensures r.Err? ==> r.error == Db(UniqueViolation)
      ensures db.answers == old(db.answers) && db.categories == old(db.categories)
      ensures db.types == old(db.types) && db.difficulties == old(db.difficulties) && db.connected == old(db.connected)
    {
      var questions := Rows(db.questions);
      ghost var start := db.questions;
      var trimmedCount := 0;
      for i := 0 to |questions|
        invariant db.Valid()
        invariant TrimQuestionsOver(start, questions[..i]) == QuestionPass(db.questions, false)
        invariant trimmedCount == CountUntrimmed(questions[..i], QuestionText)
        invariant db.answers == old(db.answers) && db.categories == old(db.categories)
        invariant db.types == old(db.types) && db.difficulties == old(db.difficulties) && db.connected == old(db.connected)
      {
        var updated;
        trimmedCount, updated := AdvanceQuestionPass(start, questions, i, trimmedCount);
        if updated.Fail? {
          return Err(Db(updated.error));
        }
      }
      assert questions[..|questions|] == questions;
      return Ok(trimmedCount);
    }
  }

  /** After the rows for `texts` are resolved in order, the ids linked are exactly those of the
      answer rows whose text is one of `texts`. */
  lemma LinkedIdsAreTheIncomingTexts(answers: Table<string>, resolved: seq<Row<string>>, texts: seq<string>)
    requires UniqueBy(answers, TextOf)
    requires |resolved| == |texts|
    requires forall k :: 0 <= k < |texts| ==> resolved[k].id in answers.rows && answers.rows[resolved[k].id] == texts[k]
    ensures forall id :: id in (set k | 0 <= k < |resolved| :: resolved[k].id) <==>
              id in answers.rows && answers.rows[id] in texts
  {
    forall id | id in answers.rows && answers.rows[id] in texts
      ensures id in (set k | 0 <= k < |resolved| :: resolved[k].id)
    {
      var k :| 0 <= k < |texts| && texts[k] == answers.rows[id];
      assert TextOf(answers.rows[resolved[k].id]) == TextOf(answers.rows[id]);
    }
  }
}
