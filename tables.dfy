/** The relational store the trivia service writes to, as in-memory tables with unique keys.
    Rows are identified by an id drawn from a per-table counter; `Rows` lists a table in id
    order, which stands for `findMany()`, and `FirstWithKey` picks the first listed row whose
    key matches, which stands for `findFirst`, `findUnique` and `filter(...)[0]`. */
module Tables {
  import opened Wrappers

  datatype Category = Category(name: string, opentdbId: int)

  datatype Question = Question(
    text: string,
    difficultyId: nat,
    categoryId: nat,
    typeId: nat,
    correctAnswerId: nat,
    incorrectAnswerIds: set<nat>)

  /** A row as a query returns it: its id and its fields. */
  datatype Row<T> = Row(id: nat, fields: T)

  /** A table: its rows by id, and the id the next insert will receive. */
  datatype Table<T> = Table(rows: map<nat, T>, nextId: nat) {
    /** Every row id was handed out by an earlier insert. */
    ghost predicate WellFormed() {
      forall id :: id in rows ==> id < nextId
    }

    function Inserted(v: T): Table<T> {
      Table(rows[nextId := v], nextId + 1)
    }
  }

  /** Errors the store reports. */
  datatype DbError = UniqueViolation | ForeignKeyViolation

  /** The key of an answer, type or difficulty row is its single text column. */
  function TextOf(s: string): string { s }
  function QuestionText(q: Question): string { q.text }
  function CategoryName(c: Category): string { c.name }
  function CategoryOpentdbId(c: Category): int { c.opentdbId }

  /** No two rows of `t` share a key. */
  ghost predicate UniqueBy<T, K>(t: Table<T>, key: T -> K) {
    forall i, j :: i in t.rows && j in t.rows && key(t.rows[i]) == key(t.rows[j]) ==> i == j
  }

  /** Some row of `t` has key `k`. */
  ghost predicate HasKey<T, K>(t: Table<T>, key: T -> K, k: K) {
    exists id :: id in t.rows && key(t.rows[id]) == k
  }

  /** The rows of `rows` with ids below `n`, in ascending id order. */
  function RowsBelow<T>(rows: map<nat, T>, n: nat): (r: seq<Row<T>>)
    ensures forall i :: 0 <= i < |r| ==> r[i].id < n && r[i].id in rows && rows[r[i].id] == r[i].fields
    ensures forall i, j :: 0 <= i < j < |r| ==> r[i].id < r[j].id
    ensures forall id :: id in rows && id < n ==> Row(id, rows[id]) in r
  {
    if n == 0 then []
    else RowsBelow(rows, n - 1) + (if n - 1 in rows then [Row(n - 1, rows[n - 1])] else [])
  }

  /** `findMany()`: every row of the table, in ascending id order. */
  function Rows<T>(t: Table<T>): (r: seq<Row<T>>)
    requires t.WellFormed()
    ensures forall i :: 0 <= i < |r| ==> r[i].id in t.rows && t.rows[r[i].id] == r[i].fields
    ensures forall i, j :: 0 <= i < j < |r| ==> r[i].id < r[j].id
    ensures forall id :: id in t.rows ==> Row(id, t.rows[id]) in r
  {
    RowsBelow(t.rows, t.nextId)
  }

  /** The first row in `rows` whose key is `k`, or None when there is none. */
  function FirstWithKey<T, K(==)>(rows: seq<Row<T>>, key: T -> K, k: K): (r: Option<Row<T>>)
    ensures r.None? <==> forall i :: 0 <= i < |rows| ==> key(rows[i].fields) != k
    ensures r.Some? ==> exists i :: 0 <= i < |rows| && rows[i] == r.value && key(rows[i].fields) == k &&
                                    forall j :: 0 <= j < i ==> key(rows[j].fields) != k
  {
    if rows == [] then None
    else if key(rows[0].fields) == k then Some(rows[0])
    else
      var r := FirstWithKey(rows[1..], key, k);
      assert r.Some? ==> exists i :: 0 <= i < |rows| && rows[i] == r.value && key(rows[i].fields) == k &&
                                     forall j :: 0 <= j < i ==> key(rows[j].fields) != k by {
        if r.Some? {
          var i :| 0 <= i < |rows| - 1 && rows[1..][i] == r.value && key(rows[1..][i].fields) == k &&
                   forall j :: 0 <= j < i ==> key(rows[1..][j].fields) != k;
          assert forall j :: 0 <= j < i + 1 ==> key(rows[j].fields) != k by {
            forall j | 0 < j < i + 1 ensures key(rows[j].fields) != k { assert rows[j] == rows[1..][j - 1]; }
          }
        }
      }
      r
  }

  /** On a table with a unique key, looking a key up finds the one row holding it, and finds
      nothing exactly when no row holds it. */
  lemma FindUnique<T, K>(t: Table<T>, key: T -> K, k: K)
    requires t.WellFormed() && UniqueBy(t, key)
    ensures FirstWithKey(Rows(t), key, k).None? <==> !HasKey(t, key, k)
    ensures forall id :: id in t.rows && key(t.rows[id]) == k ==>
              FirstWithKey(Rows(t), key, k) == Some(Row(id, t.rows[id]))
  {
    var rows := Rows(t);
    var r := FirstWithKey(rows, key, k);
    if r.Some? {
      var i :| 0 <= i < |rows| && rows[i] == r.value && key(rows[i].fields) == k;
      assert rows[i].id in t.rows && t.rows[rows[i].id] == rows[i].fields;
    } else {
      forall id | id in t.rows ensures key(t.rows[id]) != k {
        assert Row(id, t.rows[id]) in rows;
      }
    }
  }

  /** Looking a key up on behalf of the row `id` finds another row exactly when some other row
      holds that key. */
  lemma FindOther<T, K>(t: Table<T>, key: T -> K, id: nat, k: K)
    requires t.WellFormed() && UniqueBy(t, key) && id in t.rows
    ensures var f := FirstWithKey(Rows(t), key, k);
            (f.Some? && f.value.id != id) <==> exists other :: other in t.rows && other != id && key(t.rows[other]) == k
  {
    FindUnique(t, key, k);
  }

  /** Inserting a row whose key no row holds keeps the table well formed and the key unique. */
  lemma InsertedUnique<T, K>(t: Table<T>, key: T -> K, v: T)
    requires t.WellFormed() && UniqueBy(t, key) && !HasKey(t, key, key(v))
    ensures t.Inserted(v).WellFormed() && UniqueBy(t.Inserted(v), key)
  {
    var r := t.Inserted(v);
    forall i, j | i in r.rows && j in r.rows && key(r.rows[i]) == key(r.rows[j]) ensures i == j {
      if i != t.nextId && j != t.nextId {
        assert key(t.rows[i]) == key(t.rows[j]);
      }
    }
  }

  /** Rewriting the row `id` to a value whose key no other row holds keeps the table well
      formed and the key unique. */
  lemma RewrittenUnique<T, K>(t: Table<T>, key: T -> K, id: nat, v: T)
    requires t.WellFormed() && UniqueBy(t, key) && id in t.rows
    requires !exists other :: other in t.rows && other != id && key(t.rows[other]) == key(v)
    ensures Table(t.rows[id := v], t.nextId).WellFormed() && UniqueBy(Table(t.rows[id := v], t.nextId), key)
  {
    var r := Table(t.rows[id := v], t.nextId);
    forall i, j | i in r.rows && j in r.rows && key(r.rows[i]) == key(r.rows[j]) ensures i == j {
      if i != id && j != id {
        assert key(t.rows[i]) == key(t.rows[j]);
      }
    }
  }

  /** The contents of the five tables. */
  datatype Store = Store(
    answers: Table<string>,
    questions: Table<Question>,
    categories: Table<Category>,
    types: Table<string>,
    difficulties: Table<string>)

  ghost function StoreOf(db: Database): Store
    reads db
  {
    Store(db.answers, db.questions, db.categories, db.types, db.difficulties)
  }

  /** The persistence collaborator: five tables with their unique keys, and the operations the
      trivia code issues against them. Each operation is one atomic write. */
  class Database {
    var answers: Table<string>
    var questions: Table<Question>
    var categories: Table<Category>
    var types: Table<string>
    var difficulties: Table<string>
    var connected: bool

    /** Every table is well formed and keeps its unique constraints: answer text, question
        text, category name and remote id, type name and difficulty level. */
    ghost predicate Valid()
      reads this
    {
      && answers.WellFormed() && UniqueBy(answers, TextOf)
      && questions.WellFormed() && UniqueBy(questions, QuestionText)
      && categories.WellFormed() && UniqueBy(categories, CategoryName) && UniqueBy(categories, CategoryOpentdbId)
      && types.WellFormed() && UniqueBy(types, TextOf)
      && difficulties.WellFormed() && UniqueBy(difficulties, TextOf)
    }

    constructor (
      answers: Table<string>, questions: Table<Question>, categories: Table<Category>,
      types: Table<string>, difficulties: Table<string>)
      requires answers.WellFormed() && UniqueBy(answers, TextOf)
      requires questions.WellFormed() && UniqueBy(questions, QuestionText)
      requires categories.WellFormed() && UniqueBy(categories, CategoryName) && UniqueBy(categories, CategoryOpentdbId)
      requires types.WellFormed() && UniqueBy(types, TextOf)
      requires difficulties.WellFormed() && UniqueBy(difficulties, TextOf)
      ensures Valid() && connected
      ensures this.answers == answers && this.questions == questions && this.categories == categories
      ensures this.types == types && this.difficulties == difficulties
    {
      this.answers, this.questions, this.categories := answers, questions, categories;
      this.types, this.difficulties := types, difficulties;
      connected := true;
    }

    /** `answer.create`: refused when the text is already taken. */
    method CreateAnswer(text: string) returns (r: Result<Row<string>, DbError>)
      requires Valid()
      modifies this
      ensures Valid()
      ensures HasKey(old(answers), TextOf, text) ==> r == Err(UniqueViolation) && answers == old(answers)
      ensures !HasKey(old(answers), TextOf, text) ==>
                r == Ok(Row(old(answers.nextId), text)) && answers == old(answers).Inserted(text)
      ensures questions == old(questions) && categories == old(categories)
      ensures types == old(types) && difficulties == old(difficulties) && connected == old(connected)
    {
      FindUnique(answers, TextOf, text);
      if FirstWithKey(Rows(answers), TextOf, text).Some? {
        return Err(UniqueViolation);
      }
      InsertedUnique(answers, TextOf, text);
      r := Ok(Row(answers.nextId, text));
      answers := answers.Inserted(text);
    }

    /** `answer.update` of one row's text: refused when another row holds that text. */
    method UpdateAnswer(id: nat, text: string) returns (r: Outcome<DbError>)
      requires Valid() && id in answers.rows
      modifies this
      ensures Valid()
      ensures r.Fail? <==> exists other :: other in old(answers.rows) && other != id && old(answers.rows[other]) == text
      ensures r.Fail? ==> r.error == UniqueViolation && answers == old(answers)
      ensures r.Pass? ==> answers == Table(old(answers.rows)[id := text], old(answers.nextId))
      ensures questions == old(questions) && categories == old(categories)
      ensures types == old(types) && difficulties == old(difficulties) && connected == old(connected)
    {
      FindOther(answers, TextOf, id, text);
      var found := FirstWithKey(Rows(answers), TextOf, text);
      if found.Some? && found.value.id != id {
        return Fail(UniqueViolation);
      }
      RewrittenUnique(answers, TextOf, id, text);
      answers := Table(answers.rows[id := text], answers.nextId);
      r := Pass;
    }

    /** `answer.delete` of one row. */
    method DeleteAnswer(id: nat)
      requires Valid() && id in answers.rows
      modifies this
      ensures Valid()
      ensures answers == Table(old(answers.rows) - {id}, old(answers.nextId))
      ensures questions == old(questions) && categories == old(categories)
      ensures types == old(types) && difficulties == old(difficulties) && connected == old(connected)
    {
      answers := Table(answers.rows - {id}, answers.nextId);
    }

    /** `answer.deleteMany()` with no filter. */
    method DeleteAllAnswers()
      requires Valid()
      modifies this
      ensures Valid()
      ensures answers == Table(map[], old(answers.nextId))
      ensures questions == old(questions) && categories == old(categories)
      ensures types == old(types) && difficulties == old(difficulties) && connected == old(connected)
    {
      answers := Table(map[], answers.nextId);
    }

    /** `question.create`: refused when the text is taken or a referenced row is missing. */
    method CreateQuestion(q: Question) returns (r: Result<Row<Question>, DbError>)
      requires Valid()
      modifies this
      ensures Valid()
      ensures r.Err? ==> questions == old(questions)
      ensures r.Ok? <==> !HasKey(old(questions), QuestionText, q.text) && References(q)
      ensures r.Ok? ==> r.value == Row(old(questions.nextId), q) && questions == old(questions).Inserted(q)
      ensures answers == old(answers) && categories == old(categories)
      ensures types == old(types) && difficulties == old(difficulties) && connected == old(connected)
    {
      FindUnique(questions, QuestionText, q.text);
      if FirstWithKey(Rows(questions), QuestionText, q.text).Some? {
        return Err(UniqueViolation);
      }
      if !References(q) {
        return Err(ForeignKeyViolation);
      }
      InsertedUnique(questions, QuestionText, q);
      r := Ok(Row(questions.nextId, q));
      questions := questions.Inserted(q);
    }

    /** Every row `q` links to exists. */
    predicate References(q: Question)
      reads this
    {
      && q.difficultyId in difficulties.rows && q.categoryId in categories.rows && q.typeId in types.rows
      && q.correctAnswerId in answers.rows && q.incorrectAnswerIds <= answers.rows.Keys
    }

    /** `question.update` of one row's text: refused when another row holds that text. */
    method UpdateQuestionText(id: nat, text: string) returns (r: Outcome<DbError>)
      requires Valid() && id in questions.rows
      modifies this
      ensures Valid()
      ensures r.Fail? <==> exists other :: other in old(questions.rows) && other != id && old(questions.rows[other]).text == text
      ensures r.Fail? ==> r.error == UniqueViolation && questions == old(questions)
      ensures r.Pass? ==> questions == Table(old(questions.rows)[id := old(questions.rows[id]).(text := text)], old(questions.nextId))
      ensures answers == old(answers) && categories == old(categories)
      ensures types == old(types) && difficulties == old(difficulties) && connected == old(connected)
    {
      var v := questions.rows[id].(text := text);
      FindOther(questions, QuestionText, id, text);
      var found := FirstWithKey(Rows(questions), QuestionText, text);
      if found.Some? && found.value.id != id {
        return Fail(UniqueViolation);
      }
      RewrittenUnique(questions, QuestionText, id, v);
      questions := Table(questions.rows[id := v], questions.nextId);
      r := Pass;
    }

    /** `question.deleteMany()` with no filter. */
    method DeleteAllQuestions()
      requires Valid()
      modifies this
      ensures Valid()
      ensures questions == Table(map[], old(questions.nextId))
      ensures answers == old(answers) && categories == old(categories)
      ensures types == old(types) && difficulties == old(difficulties) && connected == old(connected)
    {
      questions := Table(map[], questions.nextId);
    }

    /** `category.upsert` keyed by remote id with an empty update: an existing row is returned
        untouched; otherwise a row is created, which the name constraint may refuse. */
    method UpsertCategory(name: string, opentdbId: int) returns (r: Result<Row<Category>, DbError>)
      requires Valid()
      modifies this
      ensures Valid()
      ensures HasKey(old(categories), CategoryOpentdbId, opentdbId) ==>
                categories == old(categories) && r.Ok? && r.value.id in categories.rows &&
                categories.rows[r.value.id] == r.value.fields && r.value.fields.opentdbId == opentdbId
      ensures !HasKey(old(categories), CategoryOpentdbId, opentdbId) && HasKey(old(categories), CategoryName, name) ==>
                r == Err(UniqueViolation) && categories == old(categories)
      ensures !HasKey(old(categories), CategoryOpentdbId, opentdbId) && !HasKey(old(categories), CategoryName, name) ==>
                r == Ok(Row(old(categories.nextId), Category(name, opentdbId))) &&
                categories == old(categories).Inserted(Category(name, opentdbId))
      ensures answers == old(answers) && questions == old(questions)
      ensures types == old(types) && difficulties == old(difficulties) && connected == old(connected)
    {
      FindUnique(categories, CategoryOpentdbId, opentdbId);
      var existing := FirstWithKey(Rows(categories), CategoryOpentdbId, opentdbId);
      if existing.Some? {
        return Ok(existing.value);
      }
      FindUnique(categories, CategoryName, name);
      if FirstWithKey(Rows(categories), CategoryName, name).Some? {
        return Err(UniqueViolation);
      }
      InsertedUnique(categories, CategoryName, Category(name, opentdbId));
      InsertedUnique(categories, CategoryOpentdbId, Category(name, opentdbId));
      r := Ok(Row(categories.nextId, Category(name, opentdbId)));
      categories := categories.Inserted(Category(name, opentdbId));
    }

    /** `type.upsert` keyed by the type name with an empty update. */
    method UpsertType(name: string) returns (r: Row<string>)
      requires Valid()
      modifies this
      ensures Valid()
      ensures r.id in types.rows && types.rows[r.id] == name == r.fields
      ensures types == if HasKey(old(types), TextOf, name) then old(types) else old(types).Inserted(name)
      ensures answers == old(answers) && questions == old(questions) && categories == old(categories)
      ensures difficulties == old(difficulties) && connected == old(connected)
    {
      FindUnique(types, TextOf, name);
      var existing := FirstWithKey(Rows(types), TextOf, name);
      if existing.Some? {
        return existing.value;
      }
      InsertedUnique(types, TextOf, name);
      r := Row(types.nextId, name);
      types := types.Inserted(name);
    }

    /** `difficulty.upsert` keyed by the level with an empty update. */
    method UpsertDifficulty(level: string) returns (r: Row<string>)
      requires Valid()
      modifies this
      ensures Valid()
      ensures r.id in difficulties.rows && difficulties.rows[r.id] == level == r.fields
      ensures difficulties == if HasKey(old(difficulties), TextOf, level) then old(difficulties) else old(difficulties).Inserted(level)
      ensures answers == old(answers) && questions == old(questions) && categories == old(categories)
      ensures types == old(types) && connected == old(connected)
    {
      FindUnique(difficulties, TextOf, level);
      var existing := FirstWithKey(Rows(difficulties), TextOf, level);
      if existing.Some? {
        return existing.value;
      }
      InsertedUnique(difficulties, TextOf, level);
      r := Row(difficulties.nextId, level);
      difficulties := difficulties.Inserted(level);
    }

    /** `$disconnect()`. */
    method Disconnect()
      modifies this
      ensures !connected
      ensures answers == old(answers) && questions == old(questions) && categories == old(categories)
      ensures types == old(types) && difficulties == old(difficulties)
    {
      connected := false;
    }
  }
}
