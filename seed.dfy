/** The one-shot seeder: copies the remote category list into the category table, then stores
    a batch of remote questions with their types, difficulties and answers. The two remote
    documents are inputs. Every store write may throw; the first error ends the run, and the
    connection is closed whatever happened. */
module Seed {
  import opened Wrappers
  import opened Tables

  /** A category as the remote category list reports it. */
  datatype OtdbCategory = OtdbCategory(id: int, name: string)

  /** A question as the remote question batch reports it. */
  datatype OtdbQuestion = OtdbQuestion(
    category: string,
    qtype: string,
    difficulty: string,
    question: string,
    correctAnswer: string,
    incorrectAnswers: seq<string>)

  /** Every row `t` had is still in `r`, unchanged. */
  ghost predicate Grows<T>(t: Table<T>, r: Table<T>) {
    forall id :: id in t.rows ==> id in r.rows && r.rows[id] == t.rows[id]
  }

  // ----- The category loop -----

  /** The category table while the remote categories are upserted, and whether an upsert
      has thrown, which ends the run. */
  datatype CategoryPass = CategoryPass(table: Table<Category>, failed: bool)

  /** `category.upsert` keyed by the remote id with an empty update: a row with that id is
      left alone; otherwise a row with the remote name and id is created, which the name
      constraint refuses when another row holds the name. */
  ghost function UpsertCategoryStep(p: CategoryPass, c: OtdbCategory): CategoryPass {
    if p.failed || HasKey(p.table, CategoryOpentdbId, c.id) then p
    else if HasKey(p.table, CategoryName, c.name) then p.(failed := true)
    else p.(table := p.table.Inserted(Category(c.name, c.id)))
  }

  /** The upserts of `cats`, in order, starting from the category table `t`. */
  ghost function UpsertCategoriesOver(t: Table<Category>, cats: seq<OtdbCategory>): CategoryPass {
    if cats == [] then CategoryPass(t, false)
    else UpsertCategoryStep(UpsertCategoriesOver(t, cats[..|cats| - 1]), cats[|cats| - 1])
  }

  lemma CategoriesSnoc(t: Table<Category>, cats: seq<OtdbCategory>, i: nat)
    requires i < |cats|
    ensures UpsertCategoriesOver(t, cats[..i + 1]) == UpsertCategoryStep(UpsertCategoriesOver(t, cats[..i]), cats[i])
  {
    assert cats[..i + 1][..i] == cats[..i];
  }

  /** Once an upsert has thrown, the remaining categories change nothing. */
  lemma {:induction false} CategoriesStop(t: Table<Category>, cats: seq<OtdbCategory>, j: nat, n: nat)
    requires j <= n <= |cats| && UpsertCategoriesOver(t, cats[..j]).failed
    ensures UpsertCategoriesOver(t, cats[..n]) == UpsertCategoriesOver(t, cats[..j])
    decreases n
  {
    if n > j {
      CategoriesStop(t, cats, j, n - 1);
      assert cats[..n][..n - 1] == cats[..n - 1];
    }
  }

  /** The category loop keeps both unique constraints, never changes a row that was there,
      and creates rows only from remote categories, with the remote name and id. */
  lemma {:induction false} CategoriesKeep(t: Table<Category>, cats: seq<OtdbCategory>)
    requires t.WellFormed() && UniqueBy(t, CategoryName) && UniqueBy(t, CategoryOpentdbId)
    ensures var r := UpsertCategoriesOver(t, cats).table;
      r.WellFormed() && UniqueBy(r, CategoryName) && UniqueBy(r, CategoryOpentdbId)
    ensures Grows(t, UpsertCategoriesOver(t, cats).table)
    ensures var r := UpsertCategoriesOver(t, cats).table;
      forall id :: id in r.rows && id !in t.rows ==>
        exists k :: 0 <= k < |cats| && r.rows[id] == Category(cats[k].name, cats[k].id)
  {
    if cats != [] {
      var init := cats[..|cats| - 1];
      var c := cats[|cats| - 1];
      CategoriesKeep(t, init);
      var prev := UpsertCategoriesOver(t, init);
      var r := UpsertCategoriesOver(t, cats).table;
      forall id | id in r.rows && id !in t.rows
        ensures exists k :: 0 <= k < |cats| && r.rows[id] == Category(cats[k].name, cats[k].id)
      {
        if id in prev.table.rows {
          var k :| 0 <= k < |init| && prev.table.rows[id] == Category(init[k].name, init[k].id);
          assert init[k] == cats[k];
        } else {
          assert r.rows[id] == Category(c.name, c.id);
        }
      }
    }
  }

  /** Unless an upsert threw, every remote id has a row afterwards; and the loop throws only
      at a remote category whose id has no row while another row holds its name. */
  lemma {:induction false} CategoriesCover(t: Table<Category>, cats: seq<OtdbCategory>)
    requires t.WellFormed() && UniqueBy(t, CategoryName) && UniqueBy(t, CategoryOpentdbId)
    ensures var p := UpsertCategoriesOver(t, cats);
      !p.failed ==> forall k :: 0 <= k < |cats| ==> HasKey(p.table, CategoryOpentdbId, cats[k].id)
    ensures var p := UpsertCategoriesOver(t, cats);
      p.failed ==>
        exists k :: 0 <= k < |cats| && !HasKey(p.table, CategoryOpentdbId, cats[k].id) && HasKey(p.table, CategoryName, cats[k].name)
  {
    if cats != [] {
      var i := |cats| - 1;
      var init := cats[..i];
      CategoriesCover(t, init);
      CategoriesKeep(t, init);
      var prev := UpsertCategoriesOver(t, init);
      var p := UpsertCategoriesOver(t, cats);
      if !p.failed {
        forall k | 0 <= k < |cats| ensures HasKey(p.table, CategoryOpentdbId, cats[k].id) {
          if k < i {
            assert init[k] == cats[k];
            var w :| w in prev.table.rows && CategoryOpentdbId(prev.table.rows[w]) == cats[k].id;
            assert w in p.table.rows && p.table.rows[w] == prev.table.rows[w];
          } else if !HasKey(prev.table, CategoryOpentdbId, cats[i].id) {
            assert CategoryOpentdbId(p.table.rows[prev.table.nextId]) == cats[i].id;
          }
        }
      } else if prev.failed {
        var k :| 0 <= k < |init| &&
          !HasKey(prev.table, CategoryOpentdbId, init[k].id) && HasKey(prev.table, CategoryName, init[k].name);
        assert init[k] == cats[k];
      } else {
        assert !HasKey(p.table, CategoryOpentdbId, cats[i].id) && HasKey(p.table, CategoryName, cats[i].name);
      }
    }
  }

  // ----- Creating the answers of one question -----

  /** The answer table while the answers of one question are created, and whether a create
      has thrown. */
  datatype AnswerPass = AnswerPass(table: Table<string>, failed: bool)

  /** `answer.create`: a fresh row, refused when the text is already taken. */
  ghost function CreateAnswerStep(p: AnswerPass, text: string): AnswerPass {
    if p.failed then p
    else if HasKey(p.table, TextOf, text) then p.(failed := true)
    else p.(table := p.table.Inserted(text))
  }

  /** The creates of `texts`, in order, starting from `p`. */
  ghost function CreateAnswersOver(p: AnswerPass, texts: seq<string>): AnswerPass {
    if texts == [] then p
    else CreateAnswerStep(CreateAnswersOver(p, texts[..|texts| - 1]), texts[|texts| - 1])
  }

  lemma AnswersSnoc(p: AnswerPass, texts: seq<string>, i: nat)
    requires i < |texts|
    ensures CreateAnswersOver(p, texts[..i + 1]) == CreateAnswerStep(CreateAnswersOver(p, texts[..i]), texts[i])
  {
    assert texts[..i + 1][..i] == texts[..i];
  }

  /** Creating `c` and then `rest` is creating `[c] + rest`. */
  lemma {:induction false} AnswersCons(p: AnswerPass, c: string, rest: seq<string>)
    ensures CreateAnswersOver(p, [c] + rest) == CreateAnswersOver(CreateAnswerStep(p, c), rest)
    decreases |rest|
  {
    if rest == [] {
      assert [c] + rest == [c];
      assert [c][..0] == [];
    } else {
      var m := |rest| - 1;
      AnswersCons(p, c, rest[..m]);
      assert ([c] + rest)[..|rest|] == [c] + rest[..m];
    }
  }

  /** Once a create has thrown, the remaining texts change nothing. */
  lemma {:induction false} AnswersStop(p: AnswerPass, texts: seq<string>, j: nat, n: nat)
    requires j <= n <= |texts| && CreateAnswersOver(p, texts[..j]).failed
    ensures CreateAnswersOver(p, texts[..n]) == CreateAnswersOver(p, texts[..j])
    decreases n
  {
    if n > j {
      AnswersStop(p, texts, j, n - 1);
      assert texts[..n][..n - 1] == texts[..n - 1];
    }
  }

  /** Creating from a pass that has already thrown changes nothing. */
  lemma {:induction false} AnswersFailedStays(p: AnswerPass, texts: seq<string>)
    requires p.failed
    ensures CreateAnswersOver(p, texts) == p
  {
    if texts != [] {
      AnswersFailedStays(p, texts[..|texts| - 1]);
    }
  }

  /** `r` is `t` with one fresh row per text of `texts`, in order, at the ids `t` hands out
      next. */
  ghost predicate FreshRows(t: Table<string>, r: Table<string>, texts: seq<string>) {
    && r.nextId == t.nextId + |texts|
    && (forall id :: id in r.rows <==> id in t.rows || t.nextId <= id < r.nextId)
    && Grows(t, r)
    && (forall k :: 0 <= k < |texts| ==> t.nextId + k in r.rows && r.rows[t.nextId + k] == texts[k])
  }

  /** A text collides when a row already holds it or an earlier text of the same batch
      repeats it. */
  ghost predicate Clash(t: Table<string>, texts: seq<string>, k: nat)
    requires k < |texts|
  {
    HasKey(t, TextOf, texts[k]) || texts[k] in texts[..k]
  }

  /** Unless a create threw, the batch added exactly one fresh row per text, in order. */
  lemma {:induction false} CreateAnswersFresh(t: Table<string>, texts: seq<string>)
    requires t.WellFormed()
    ensures var p := CreateAnswersOver(AnswerPass(t, false), texts);
      !p.failed ==> FreshRows(t, p.table, texts)
  {
    if texts != [] {
      var i := |texts| - 1;
      CreateAnswersFresh(t, texts[..i]);
      var prev := CreateAnswersOver(AnswerPass(t, false), texts[..i]);
      var p := CreateAnswersOver(AnswerPass(t, false), texts);
      if !p.failed {
        assert !prev.failed;
        forall k | 0 <= k < |texts| ensures t.nextId + k in p.table.rows && p.table.rows[t.nextId + k] == texts[k] {
          if k < i {
            assert texts[..i][k] == texts[k];
          }
        }
      }
    }
  }

  /** In a table made of `t` and a fresh batch, a text has a row exactly when `t` had one or
      the batch holds it. */
  lemma FreshHasKey(t: Table<string>, r: Table<string>, texts: seq<string>, x: string)
    requires t.WellFormed() && FreshRows(t, r, texts)
    ensures HasKey(r, TextOf, x) <==> HasKey(t, TextOf, x) || x in texts
  {
    if HasKey(r, TextOf, x) {
      var id :| id in r.rows && TextOf(r.rows[id]) == x;
      if id !in t.rows {
        assert r.rows[t.nextId + (id - t.nextId)] == texts[id - t.nextId];
      }
    }
    if x in texts {
      var k :| 0 <= k < |texts| && texts[k] == x;
      assert TextOf(r.rows[t.nextId + k]) == x;
    }
  }

  /** A batch of creates throws exactly when one of its texts collides. */
  lemma {:induction false} CreateAnswersFailIff(t: Table<string>, texts: seq<string>)
    requires t.WellFormed()
    ensures CreateAnswersOver(AnswerPass(t, false), texts).failed <==>
              exists k :: 0 <= k < |texts| && Clash(t, texts, k)
  {
    if texts != [] {
      var i := |texts| - 1;
      var init := texts[..i];
      CreateAnswersFailIff(t, init);
      CreateAnswersFresh(t, init);
      var prev := CreateAnswersOver(AnswerPass(t, false), init);
      assert forall k :: 0 <= k < i ==> (Clash(t, init, k) <==> Clash(t, texts, k)) by {
        forall k | 0 <= k < i ensures Clash(t, init, k) <==> Clash(t, texts, k) {
          assert init[k] == texts[k] && init[..k] == texts[..k];
        }
      }
      if prev.failed {
        var k :| 0 <= k < i && Clash(t, init, k);
        assert Clash(t, texts, k);
      } else {
        FreshHasKey(t, prev.table, init, texts[i]);
        assert texts[..i] == init;
        assert (exists k :: 0 <= k < |texts| && Clash(t, texts, k)) <==> Clash(t, texts, i);
      }
    }
  }

  /** The creates keep the answer table well formed with unique texts and keep every row. */
  lemma {:induction false} CreateAnswersKeep(p: AnswerPass, texts: seq<string>)
    requires p.table.WellFormed() && UniqueBy(p.table, TextOf)
    ensures var r := CreateAnswersOver(p, texts).table;
      r.WellFormed() && UniqueBy(r, TextOf) && Grows(p.table, r) && p.table.nextId <= r.nextId
  {
    if texts != [] {
      CreateAnswersKeep(p, texts[..|texts| - 1]);
    }
  }

  // ----- One question -----

  /** The tables are well formed and keep their unique constraints. */
  ghost predicate StoreValid(s: Store) {
    && s.answers.WellFormed() && UniqueBy(s.answers, TextOf)
    && s.questions.WellFormed() && UniqueBy(s.questions, QuestionText)
    && s.categories.WellFormed() && UniqueBy(s.categories, CategoryName) && UniqueBy(s.categories, CategoryOpentdbId)
    && s.types.WellFormed() && UniqueBy(s.types, TextOf)
    && s.difficulties.WellFormed() && UniqueBy(s.difficulties, TextOf)
  }

  /** The store while the questions are seeded, and whether a write has thrown. */
  datatype SeedPass = SeedPass(store: Store, failed: bool)

  /** `upsert` keyed by a text column with an empty update. */
  ghost function Upserted(t: Table<string>, name: string): (r: Table<string>)
    ensures HasKey(r, TextOf, name)
  {
    if HasKey(t, TextOf, name) then t
    else assert TextOf(t.Inserted(name).rows[t.nextId]) == name; t.Inserted(name)
  }

  /** An upsert keeps every row unchanged and creates a row, holding the name, only when no
      row held it. */
  lemma UpsertedMeaning(t: Table<string>, name: string)
    requires t.WellFormed() && UniqueBy(t, TextOf)
    ensures Upserted(t, name).WellFormed() && UniqueBy(Upserted(t, name), TextOf)
    ensures Grows(t, Upserted(t, name))
    ensures forall id :: id in Upserted(t, name).rows && id !in t.rows ==>
              !HasKey(t, TextOf, name) && Upserted(t, name).rows[id] == name
    ensures HasKey(t, TextOf, name) ==> Upserted(t, name) == t
  {
  }

  /** The id of the row holding key `k`. */
  ghost function KeyId<T, K>(t: Table<T>, key: T -> K, k: K): (id: nat)
    requires HasKey(t, key, k)
    ensures id in t.rows && key(t.rows[id]) == k
  {
    var id :| id in t.rows && key(t.rows[id]) == k; id
  }

  /** The answer texts of `q` in creation order: the correct answer, then the incorrect ones. */
  function AllAnswers(q: OtdbQuestion): (texts: seq<string>)
    ensures |texts| == 1 + |q.incorrectAnswers| && texts[0] == q.correctAnswer && texts[1..] == q.incorrectAnswers
  {
    [q.correctAnswer] + q.incorrectAnswers
  }

  /** The question row the seeder inserts, linking the answers created at `first` onward:
      the correct answer at `first`, the incorrect ones right after it. */
  function NewQuestion(q: OtdbQuestion, typeId: nat, difficultyId: nat, categoryId: nat, first: nat): Question {
    Question(q.question, difficultyId, categoryId, typeId, first, IdRange(first + 1, |q.incorrectAnswers|))
  }

  /** The `n` ids from `lo` on. */
  function IdRange(lo: nat, n: nat): (ids: set<nat>)
    ensures forall id :: id in ids <==> lo <= id < lo + n
  {
    if n == 0 then {} else IdRange(lo, n - 1) + {lo + n - 1}
  }

  /** What the seeder does once a question's type, difficulty and category rows are known:
      creates its answers, then inserts the question linking them, which the text
      constraint refuses when the text is taken. */
  ghost function LinkStep(s: Store, q: OtdbQuestion, typeId: nat, difficultyId: nat, categoryId: nat): SeedPass {
    var created := CreateAnswersOver(AnswerPass(s.answers, false), AllAnswers(q));
    var s2 := s.(answers := created.table);
    if created.failed || HasKey(s.questions, QuestionText, q.question) then SeedPass(s2, true)
    else SeedPass(s2.(questions := s.questions.Inserted(NewQuestion(q, typeId, difficultyId, categoryId, s.answers.nextId))), false)
  }

  /** What the seeder does for one question: upserts its type and difficulty, skips it when
      no category has its name, and otherwise creates its answers and the question. */
  ghost function SeedQuestionStep(p: SeedPass, q: OtdbQuestion): SeedPass {
    if p.failed then p
    else
      var s := p.store;
      var types := Upserted(s.types, q.qtype);
      var difficulties := Upserted(s.difficulties, q.difficulty);
      var s1 := s.(types := types, difficulties := difficulties);
      if !HasKey(s.categories, CategoryName, q.category) then SeedPass(s1, false)
      else LinkStep(s1, q, KeyId(types, TextOf, q.qtype), KeyId(difficulties, TextOf, q.difficulty),
                    KeyId(s.categories, CategoryName, q.category))
  }

  /** The questions `qs`, seeded in order from `p`. */
  ghost function SeedQuestionsOver(p: SeedPass, qs: seq<OtdbQuestion>): SeedPass {
    if qs == [] then p
    else SeedQuestionStep(SeedQuestionsOver(p, qs[..|qs| - 1]), qs[|qs| - 1])
  }

  lemma QuestionsSnoc(p: SeedPass, qs: seq<OtdbQuestion>, i: nat)
    requires i < |qs|
    ensures SeedQuestionsOver(p, qs[..i + 1]) == SeedQuestionStep(SeedQuestionsOver(p, qs[..i]), qs[i])
  {
    assert qs[..i + 1][..i] == qs[..i];
  }

  /** Once a write has thrown, the remaining questions change nothing. */
  lemma {:induction false} QuestionsStop(p: SeedPass, qs: seq<OtdbQuestion>, j: nat, n: nat)
    requires j <= n <= |qs| && SeedQuestionsOver(p, qs[..j]).failed
    ensures SeedQuestionsOver(p, qs[..n]) == SeedQuestionsOver(p, qs[..j])
    decreases n
  {
    if n > j {
      QuestionsStop(p, qs, j, n - 1);
      assert qs[..n][..n - 1] == qs[..n - 1];
    }
  }

  /** Seeding one question keeps the store valid, never touches the category table, never
      changes an existing row, upserts the type and difficulty even when the question is
      then skipped, and leaves answers and questions alone when it is skipped. */
  lemma SeedQuestionKeeps(s: Store, q: OtdbQuestion)
    requires StoreValid(s)
    ensures var r := SeedQuestionStep(SeedPass(s, false), q).store;
      && StoreValid(r) && r.categories == s.categories
      && Grows(s.answers, r.answers) && Grows(s.questions, r.questions)
      && Grows(s.types, r.types) && Grows(s.difficulties, r.difficulties)
    ensures var r := SeedQuestionStep(SeedPass(s, false), q).store;
      && HasKey(r.types, TextOf, q.qtype) && HasKey(r.difficulties, TextOf, q.difficulty)
      && (forall id :: id in r.types.rows && id !in s.types.rows ==> r.types.rows[id] == q.qtype)
      && (forall id :: id in r.difficulties.rows && id !in s.difficulties.rows ==> r.difficulties.rows[id] == q.difficulty)
    ensures var r := SeedQuestionStep(SeedPass(s, false), q);
      !HasKey(s.categories, CategoryName, q.category) ==>
        !r.failed && r.store.answers == s.answers && r.store.questions == s.questions
  {
    UpsertedMeaning(s.types, q.qtype);
    UpsertedMeaning(s.difficulties, q.difficulty);
    CreateAnswersKeep(AnswerPass(s.answers, false), AllAnswers(q));
    if HasKey(s.categories, CategoryName, q.category) {
      var created := CreateAnswersOver(AnswerPass(s.answers, false), AllAnswers(q));
      var r := SeedQuestionStep(SeedPass(s, false), q).store;
      if !created.failed && !HasKey(s.questions, QuestionText, q.question) {
        assert r.questions == s.questions.Inserted(r.questions.rows[s.questions.nextId]);
        assert UniqueBy(r.questions, QuestionText) by {
          forall i, j | i in r.questions.rows && j in r.questions.rows &&
                        QuestionText(r.questions.rows[i]) == QuestionText(r.questions.rows[j])
            ensures i == j
          {
            if i != s.questions.nextId && j != s.questions.nextId {
              assert i in s.questions.rows && j in s.questions.rows;
            }
          }
        }
      }
    }
  }

  /** Seeding a question throws exactly when its category is known and one of its answer
      texts collides or its text is already taken. */
  lemma SeedQuestionFails(s: Store, q: OtdbQuestion)
    requires StoreValid(s)
    ensures SeedQuestionStep(SeedPass(s, false), q).failed <==>
              HasKey(s.categories, CategoryName, q.category) &&
              ((exists k :: 0 <= k < |AllAnswers(q)| && Clash(s.answers, AllAnswers(q), k)) ||
               HasKey(s.questions, QuestionText, q.question))
  {
    CreateAnswersFailIff(s.answers, AllAnswers(q));
  }

  /** A kept question that went through gets exactly 1 + n fresh answer rows, correct answer
      first and then the incorrect ones in order, and a new question row with its text that
      links its type, difficulty and category rows and exactly the answers just created. */
  lemma SeedQuestionLinks(s: Store, q: OtdbQuestion)
    requires StoreValid(s)
    requires HasKey(s.categories, CategoryName, q.category)
    requires !SeedQuestionStep(SeedPass(s, false), q).failed
    ensures var r := SeedQuestionStep(SeedPass(s, false), q).store;
      FreshRows(s.answers, r.answers, AllAnswers(q))
    ensures var r := SeedQuestionStep(SeedPass(s, false), q).store;
      var id := s.questions.nextId;
      && !HasKey(s.questions, QuestionText, q.question)
      && r.questions.nextId == id + 1 && r.questions.rows.Keys == s.questions.rows.Keys + {id}
      && r.questions.rows[id].text == q.question
      && r.types.rows[r.questions.rows[id].typeId] == q.qtype
      && r.difficulties.rows[r.questions.rows[id].difficultyId] == q.difficulty
      && r.categories.rows[r.questions.rows[id].categoryId].name == q.category
      && r.answers.rows[r.questions.rows[id].correctAnswerId] == q.correctAnswer
      && r.questions.rows[id].correctAnswerId !in s.answers.rows
      && (forall a :: a in r.questions.rows[id].incorrectAnswerIds <==> a in r.answers.rows && a !in s.answers.rows && a != r.questions.rows[id].correctAnswerId)
      && (forall k :: 0 <= k < |q.incorrectAnswers| ==> r.answers.rows[s.answers.nextId + 1 + k] == q.incorrectAnswers[k])
  {
    var texts := AllAnswers(q);
    CreateAnswersFresh(s.answers, texts);
    var r := SeedQuestionStep(SeedPass(s, false), q).store;
    assert r.answers.rows[s.answers.nextId + 0] == texts[0];
    forall k | 0 <= k < |q.incorrectAnswers| ensures r.answers.rows[s.answers.nextId + 1 + k] == q.incorrectAnswers[k] {
      assert texts[1 + k] == q.incorrectAnswers[k];
    }
  }

  /** The question loop keeps the store valid, never touches the category table and never
      changes an existing row of any table. */
  lemma {:induction false} SeedQuestionsKeep(s: Store, qs: seq<OtdbQuestion>)
    requires StoreValid(s)
    ensures var r := SeedQuestionsOver(SeedPass(s, false), qs).store;
      && StoreValid(r) && r.categories == s.categories
      && Grows(s.answers, r.answers) && Grows(s.questions, r.questions)
      && Grows(s.types, r.types) && Grows(s.difficulties, r.difficulties)
  {
    if qs != [] {
      var init := qs[..|qs| - 1];
      SeedQuestionsKeep(s, init);
      var prev := SeedQuestionsOver(SeedPass(s, false), init);
      if !prev.failed {
        SeedQuestionKeeps(prev.store, qs[|qs| - 1]);
        assert prev == SeedPass(prev.store, false);
      }
    }
  }

  // ----- The seeder -----

  /** The category loop: upserts every remote category in order; the first throw ends it. */
  method UpsertCategories(db: Database, cats: seq<OtdbCategory>) returns (r: Outcome<DbError>)
    requires db.Valid()
    modifies db
    ensures db.Valid()
    ensures CategoryPass(db.categories, r.Fail?) == UpsertCategoriesOver(old(db.categories), cats)
    ensures db.answers == old(db.answers) && db.questions == old(db.questions)
    ensures db.types == old(db.types) && db.difficulties == old(db.difficulties) && db.connected == old(db.connected)
  {
    ghost var start := db.categories;
    for i := 0 to |cats|
      invariant db.Valid()
      invariant UpsertCategoriesOver(start, cats[..i]) == CategoryPass(db.categories, false)
      invariant db.answers == old(db.answers) && db.questions == old(db.questions)
      invariant db.types == old(db.types) && db.difficulties == old(db.difficulties) && db.connected == old(db.connected)
    {
      CategoriesSnoc(start, cats, i);
      var u := db.UpsertCategory(cats[i].name, cats[i].id);
      if u.Err? {
        CategoriesStop(start, cats, i + 1, |cats|);
        assert cats[..|cats|] == cats;
        return Fail(u.error);
      }
    }
    assert cats[..|cats|] == cats;
    return Pass;
  }

  /** The incorrect-answer loop: creates one fresh row per text, in order, collecting the ids
      of the rows; the first throw ends it. */
  method CreateIncorrectAnswers(db: Database, texts: seq<string>) returns (ids: set<nat>, r: Outcome<DbError>)
    requires db.Valid()
    modifies db
    ensures db.Valid()
    ensures AnswerPass(db.answers, r.Fail?) == CreateAnswersOver(AnswerPass(old(db.answers), false), texts)
    ensures r.Pass? ==> ids == IdRange(old(db.answers.nextId), |texts|)
    ensures StoreOf(db) == old(StoreOf(db)).(answers := db.answers) && db.connected == old(db.connected)
  {
    ghost var start := db.answers;
    ids := {};
    for i := 0 to |texts|
      invariant db.Valid()
      invariant CreateAnswersOver(AnswerPass(start, false), texts[..i]) == AnswerPass(db.answers, false)
      invariant db.answers.nextId == start.nextId + i && ids == IdRange(start.nextId, i)
      invariant StoreOf(db) == old(StoreOf(db)).(answers := db.answers) && db.connected == old(db.connected)
    {
      AnswersSnoc(AnswerPass(start, false), texts, i);
      var a := db.CreateAnswer(texts[i]);
      if a.Err? {
        AnswersStop(AnswerPass(start, false), texts, i + 1, |texts|);
        assert texts[..|texts|] == texts;
        return ids, Fail(a.error);
      }
      ids := ids + {a.value.id};
    }
    assert texts[..|texts|] == texts;
    r := Pass;
  }

  /** The answers of one question: the correct one, then the incorrect ones; on success the
      ids are those of the new rows, the correct answer's first. */
  method CreateQuestionAnswers(db: Database, q: OtdbQuestion) returns (correctId: nat, ids: set<nat>, r: Outcome<DbError>)
    requires db.Valid()
    modifies db
    ensures db.Valid()
    ensures AnswerPass(db.answers, r.Fail?) == CreateAnswersOver(AnswerPass(old(db.answers), false), AllAnswers(q))
    ensures r.Pass? ==> correctId == old(db.answers.nextId) && ids == IdRange(correctId + 1, |q.incorrectAnswers|)
    ensures r.Pass? ==> correctId in db.answers.rows && ids <= db.answers.rows.Keys
    ensures StoreOf(db) == old(StoreOf(db)).(answers := db.answers) && db.connected == old(db.connected)
  {
    ghost var before := db.answers;
    AnswersCons(AnswerPass(before, false), q.correctAnswer, q.incorrectAnswers);
    var correct := db.CreateAnswer(q.correctAnswer);
    if correct.Err? {
      AnswersFailedStays(AnswerPass(before, true), q.incorrectAnswers);
      return 0, {}, Fail(correct.error);
    }
    correctId := correct.value.id;
    ids, r := CreateIncorrectAnswers(db, q.incorrectAnswers);
    if r.Pass? {
      CreateAnswersFresh(before, AllAnswers(q));
      assert before.nextId + 0 in db.answers.rows;
      forall id | id in ids ensures id in db.answers.rows {
        assert before.nextId + (id - before.nextId) in db.answers.rows;
      }
    }
  }

  /** The end of the per-question body, once its type, difficulty and category rows are
      known: the answers, then the question linking them. */
  method LinkQuestion(db: Database, q: OtdbQuestion, typeId: nat, difficultyId: nat, categoryId: nat)
    returns (r: Outcome<DbError>)
    requires db.Valid()
    requires typeId in db.types.rows && difficultyId in db.difficulties.rows && categoryId in db.categories.rows
    modifies db
    ensures db.Valid() && db.connected == old(db.connected)
    ensures SeedPass(StoreOf(db), r.Fail?) == LinkStep(old(StoreOf(db)), q, typeId, difficultyId, categoryId)
  {
    ghost var s := StoreOf(db);
    var correctId, ids, made := CreateQuestionAnswers(db, q);
    if made.Fail? {
      return Fail(made.error);
    }
    var question := Question(q.question, difficultyId, categoryId, typeId, correctId, ids);
    assert question == NewQuestion(q, typeId, difficultyId, categoryId, s.answers.nextId);
    assert db.References(question);
    var c := db.CreateQuestion(question);
    if c.Err? {
      return Fail(c.error);
    }
    r := Pass;
  }

  /** The per-question body: upserts the type and the difficulty, looks the category up by
      name in the live table, skips the question when there is none, and otherwise creates
      its answers and the question. */
  method SeedQuestion(db: Database, q: OtdbQuestion) returns (r: Outcome<DbError>)
    requires db.Valid()
    modifies db
    ensures db.Valid() && db.connected == old(db.connected)
    ensures SeedPass(StoreOf(db), r.Fail?) == SeedQuestionStep(SeedPass(old(StoreOf(db)), false), q)
  {
    var qtype := db.UpsertType(q.qtype);
    var difficulty := db.UpsertDifficulty(q.difficulty);
    FindUnique(db.categories, CategoryName, q.category);
    var category := FirstWithKey(Rows(db.categories), CategoryName, q.category);
    if category.None? {
      return Pass;
    }
    assert category.value.id == KeyId(db.categories, CategoryName, q.category);
    r := LinkQuestion(db, q, qtype.id, difficulty.id, category.value.id);
  }

  /** The question loop: seeds every question in order; the first throw ends it. */
  method SeedQuestions(db: Database, qs: seq<OtdbQuestion>) returns (r: Outcome<DbError>)
    requires db.Valid()
    modifies db
    ensures db.Valid() && db.connected == old(db.connected)
    ensures SeedPass(StoreOf(db), r.Fail?) == SeedQuestionsOver(SeedPass(old(StoreOf(db)), false), qs)
  {
    ghost var start := SeedPass(StoreOf(db), false);
    for i := 0 to |qs|
      invariant db.Valid() && db.connected == old(db.connected)
      invariant SeedQuestionsOver(start, qs[..i]) == SeedPass(StoreOf(db), false)
    {
      QuestionsSnoc(start, qs, i);
      var s := SeedQuestion(db, qs[i]);
      if s.Fail? {
        QuestionsStop(start, qs, i + 1, |qs|);
        assert qs[..|qs|] == qs;
        return s;
      }
    }
    assert qs[..|qs|] == qs;
    r := Pass;
  }

  /** `main`: the category loop, then the question loop unless the first threw; the
      connection is closed in every case. */
  method Run(db: Database, cats: seq<OtdbCategory>, qs: seq<OtdbQuestion>) returns (r: Outcome<DbError>)
    requires db.Valid()
    modifies db
    ensures db.Valid() && !db.connected
    ensures var c := UpsertCategoriesOver(old(db.categories), cats);
      c.failed ==> r.Fail? && StoreOf(db) == old(StoreOf(db)).(categories := c.table)
    ensures var c := UpsertCategoriesOver(old(db.categories), cats);
      !c.failed ==> SeedPass(StoreOf(db), r.Fail?) == SeedQuestionsOver(SeedPass(old(StoreOf(db)).(categories := c.table), false), qs)
  {
    r := UpsertCategories(db, cats);
    if r.Pass? {
      r := SeedQuestions(db, qs);
    }
    db.Disconnect();
  }
}
