/**
 * The adaptive-practice progress store: the `adaptive_test_progress` table, one row per
 * (student, course, question) with a streak of correct answers, a mastered flag and an
 * active-set flag, and the HTTP handler that lists it, seeds it (`init`) and records answers
 * (`answer`).
 *
 * The table is a map from the row's primary key to the row. `AdaptiveStore` holds it and its
 * methods update it as the handler's SQL statements do; `InitSpec` and `AnswerSpec` state the
 * resulting table and reply as functions of the old table, and the lemmas state what the
 * handler promises about them. The two random draws of the handler are inputs: the indices
 * `random.sample` returns and the id `random.choice` returns.
 */
module AdaptiveProgress {
  import opened Wrappers

  type QuestionId = string

  /** Primary key of a progress row. */
  datatype Key = Key(studentId: string, courseId: string, questionId: QuestionId)

  /** A progress row: `correct_streak`, `is_mastered`, `is_in_active_set`. */
  datatype Progress = Progress(correctStreak: nat, isMastered: bool, isInActiveSet: bool)

  type Table = map<Key, Progress>

  /** A correct answer that brings the streak to this many masters the question. */
  const MasteryStreak: nat := 3

  /** How many questions `init` seeds at most. */
  const InitialSetSize: nat := 20

  /** The row every INSERT of the handler writes: no streak, not mastered, active. */
  const Fresh: Progress := Progress(0, false, true)

  /** The handler's replies. */
  datatype Response =
    | Preflight                                       // OPTIONS: 200, CORS headers, empty body
    | MissingIds                                      // GET without studentId or courseId: 400
    | Listing(progress: map<QuestionId, Progress>)    // GET: 200 with the pair's rows
    | Initialized(selected: seq<QuestionId>)          // init on a pair without rows: 200 "Initialized"
    | AlreadyInitialized                              // init on a pair with rows: 200 "Already initialized"
    | Mastered(activeSet: set<QuestionId>)            // answer that masters: 200 mastered = true
    | Updated                                         // any other answer: 200 updated = true
    | MethodNotAllowed                                // anything else: 405
    | Raised                                          // an INSERT hit the primary key: exception, nothing committed

  /** The request: the HTTP method, and for POST the `action` and the fields of the JSON body. */
  datatype Request =
    | Options
    | Get(studentId: Option<string>, courseId: Option<string>)
    | Post(action: Option<string>, body: Body)
    | OtherMethod

  datatype Body = Body(studentId: string, courseId: string, questionId: QuestionId,
                       isCorrect: bool, allQuestionIds: seq<QuestionId>)

  function Min(a: nat, b: nat): nat {
    if a <= b then a else b
  }

  predicate Distinct<T(==)>(xs: seq<T>) {
    forall i, j :: 0 <= i < j < |xs| ==> xs[i] != xs[j]
  }

  function ToSet<T>(xs: seq<T>): set<T> {
    set x | x in xs
  }

  /** A query parameter Python treats as given: present and not the empty string. */
  predicate Given(p: Option<string>) {
    p.Some? && p.value != ""
  }

  // ---------------------------------------------------------------- views of one pair

  /** The questions of the pair that have a row (`SELECT COUNT(*) ... WHERE student_id AND course_id`). */
  function QuestionsOf(t: Table, s: string, c: string): (r: set<QuestionId>)
    ensures forall q :: q in r <==> Key(s, c, q) in t
  {
    var r := set k | k in t && k.studentId == s && k.courseId == c :: k.questionId;
    assert forall q :: Key(s, c, q) in t ==> q in r by {
      forall q | Key(s, c, q) in t ensures q in r {
        var k := Key(s, c, q);
        assert k in t && k.studentId == s && k.courseId == c;
      }
    }
    r
  }

  /** The pair's active questions (`... AND is_in_active_set = TRUE`). */
  function ActiveIds(t: Table, s: string, c: string): (r: set<QuestionId>)
    ensures forall q :: q in r <==> Key(s, c, q) in t && t[Key(s, c, q)].isInActiveSet
  {
    set q | q in QuestionsOf(t, s, c) && t[Key(s, c, q)].isInActiveSet
  }

  /** The pair's mastered questions; the client shows their number. */
  function MasteredIds(t: Table, s: string, c: string): (r: set<QuestionId>)
    ensures forall q :: q in r <==> Key(s, c, q) in t && t[Key(s, c, q)].isMastered
  {
    set q | q in QuestionsOf(t, s, c) && t[Key(s, c, q)].isMastered
  }

  /** The pair's questions that are mastered or active (`... AND (is_mastered OR is_in_active_set)`). */
  function UsedIds(t: Table, s: string, c: string): (r: set<QuestionId>)
    ensures r == ActiveIds(t, s, c) + MasteredIds(t, s, c)
  {
    set q | q in QuestionsOf(t, s, c) && (t[Key(s, c, q)].isMastered || t[Key(s, c, q)].isInActiveSet)
  }

  /** The pair's rows by question, as the GET listing returns them. */
  function PairRecords(t: Table, s: string, c: string): (r: map<QuestionId, Progress>)
    ensures r.Keys == QuestionsOf(t, s, c)
    ensures forall q :: q in r ==> r[q] == t[Key(s, c, q)]
  {
    map q | q in QuestionsOf(t, s, c) :: t[Key(s, c, q)]
  }

  /** The ids of `all`, in order and with repeats, that are not in `used`. */
  function Available(all: seq<QuestionId>, used: set<QuestionId>): (r: seq<QuestionId>)
    ensures forall x :: x in r <==> x in all && x !in used
  {
    if all == [] then []
    else (if all[0] in used then [] else [all[0]]) + Available(all[1..], used)
  }

  // ---------------------------------------------------------------- init

  /** What `random.sample(all, min(20, len(all)))` returns, as positions in `all`: that many distinct ones. */
  predicate IsSample(sample: seq<nat>, n: nat) {
    && |sample| == Min(InitialSetSize, n)
    && (forall i :: 0 <= i < |sample| ==> sample[i] < n)
    && Distinct(sample)
  }

  function Pick(all: seq<QuestionId>, sample: seq<nat>): (r: seq<QuestionId>)
    requires forall i :: 0 <= i < |sample| ==> sample[i] < |all|
    ensures |r| == |sample| && forall i :: 0 <= i < |r| ==> r[i] == all[sample[i]]
  {
    seq(|sample|, i requires 0 <= i < |sample| => all[sample[i]])
  }

  /** The table after inserting a fresh row of the pair for each of `ids`, one after the other. */
  function Seed(t: Table, s: string, c: string, ids: seq<QuestionId>): Table
  {
    if ids == [] then t else Seed(t, s, c, ids[..|ids| - 1])[Key(s, c, ids[|ids| - 1]) := Fresh]
  }

  /** The reply and the table after `init`. */
  function InitSpec(t: Table, s: string, c: string, all: seq<QuestionId>, sample: seq<nat>): (Response, Table)
    requires IsSample(sample, |all|)
  {
    if QuestionsOf(t, s, c) != {} then (AlreadyInitialized, t)
    else
      var selected := Pick(all, sample);
      if Distinct(selected) then (Initialized(selected), Seed(t, s, c, selected)) else (Raised, t)
  }

  // ---------------------------------------------------------------- answer

  function Lookup(t: Table, k: Key): Option<Progress> {
    if k in t then Some(t[k]) else None
  }

  /** The row the answer's upsert leaves: the INSERT when there is no row, the UPDATE when there is one. */
  function Upsert(row: Option<Progress>, isCorrect: bool): Progress {
    if isCorrect then
      var streak := (if row.Some? then row.value.correctStreak else 0) + 1;
      var mastered := streak >= MasteryStreak;
      if row.Some? then Progress(streak, mastered, if mastered then false else row.value.isInActiveSet)
      else Progress(streak, mastered, true)
    else if row.Some? then row.value.(correctStreak := 0)
    else Fresh
  }

  /** The table after the upsert of the answered row. */
  function AfterUpsert(t: Table, s: string, c: string, q: QuestionId, isCorrect: bool): Table {
    t[Key(s, c, q) := Upsert(Lookup(t, Key(s, c, q)), isCorrect)]
  }

  /** The answer is correct and brings the streak to the mastery threshold. */
  predicate Masters(t: Table, s: string, c: string, q: QuestionId, isCorrect: bool) {
    isCorrect && Upsert(Lookup(t, Key(s, c, q)), true).isMastered
  }

  /** The ids `random.choice` draws from after a mastery: those of `all` neither mastered nor active. */
  function Candidates(t: Table, s: string, c: string, q: QuestionId, all: seq<QuestionId>): seq<QuestionId> {
    Available(all, UsedIds(AfterUpsert(t, s, c, q, true), s, c))
  }

  /** What `random.choice` may return: only after a mastery, one of the candidates whenever there is one. */
  predicate ValidChoice(t: Table, s: string, c: string, q: QuestionId, isCorrect: bool,
                        all: seq<QuestionId>, choice: Option<QuestionId>) {
    if Masters(t, s, c, q, isCorrect) then
      (choice.None? <==> Candidates(t, s, c, q, all) == [])
      && (choice.Some? ==> choice.value in Candidates(t, s, c, q, all))
    else choice.None?
  }

  /** The reply and the table after `answer`, given the id `random.choice` drew, if any. */
  function AnswerSpec(t: Table, s: string, c: string, q: QuestionId, isCorrect: bool,
                      choice: Option<QuestionId>): (Response, Table)
  {
    var t1 := AfterUpsert(t, s, c, q, isCorrect);
    if !Masters(t, s, c, q, isCorrect) then (Updated, t1)
    else match choice
      case None => (Mastered(ActiveIds(t1, s, c)), t1)
      case Some(n) =>
        if Key(s, c, n) in t1 then (Raised, t)
        else (Mastered(ActiveIds(t1, s, c) + {n}), t1[Key(s, c, n) := Fresh])
  }

  // ---------------------------------------------------------------- how one row changes the views

  /** Writing one row of the pair adds its question to the pair and moves it in or out of the active and mastered sets. */
  lemma WriteRowViews(t: Table, s: string, c: string, q: QuestionId, p: Progress)
    ensures QuestionsOf(t[Key(s, c, q) := p], s, c) == QuestionsOf(t, s, c) + {q}
    ensures ActiveIds(t[Key(s, c, q) := p], s, c) == (ActiveIds(t, s, c) - {q}) + (if p.isInActiveSet then {q} else {})
    ensures MasteredIds(t[Key(s, c, q) := p], s, c) == (MasteredIds(t, s, c) - {q}) + (if p.isMastered then {q} else {})
  {
    var t1 := t[Key(s, c, q) := p];
    assert forall x :: x != q ==> Key(s, c, x) != Key(s, c, q);
  }

  /** In every row of the pair exactly one of the two flags is set: active and learning, or mastered and retired. */
  ghost predicate Consistent(t: Table, s: string, c: string) {
    forall k :: k in t && k.studentId == s && k.courseId == c ==> t[k].isMastered != t[k].isInActiveSet
  }

  /** Under `Consistent` every question with a row is used, and it is active or mastered, never both. */
  lemma ConsistentViews(t: Table, s: string, c: string)
    requires Consistent(t, s, c)
    ensures UsedIds(t, s, c) == QuestionsOf(t, s, c)
    ensures ActiveIds(t, s, c) !! MasteredIds(t, s, c)
    ensures |QuestionsOf(t, s, c)| == |ActiveIds(t, s, c)| + |MasteredIds(t, s, c)|
  {
    forall q | q in QuestionsOf(t, s, c) ensures q in UsedIds(t, s, c) {
      var k := Key(s, c, q);
      assert k in t && k.studentId == s && k.courseId == c;
    }
    forall q | q in ActiveIds(t, s, c) ensures q !in MasteredIds(t, s, c) {
      var k := Key(s, c, q);
      assert k in t && k.studentId == s && k.courseId == c;
    }
  }

  /** A sequence without repeats has as many distinct elements as it is long. */
  lemma {:induction false} DistinctCard<T>(xs: seq<T>)
    requires Distinct(xs)
    ensures |ToSet(xs)| == |xs|
  {
    if xs != [] {
      var init := xs[..|xs| - 1];
      assert Distinct(init);
      DistinctCard(init);
      assert ToSet(xs) == ToSet(init) + {xs[|xs| - 1]} by {
        assert xs == init + [xs[|xs| - 1]];
      }
      assert xs[|xs| - 1] !in init;
    }
  }

  // ---------------------------------------------------------------- what init promises

  /** Seeding inserts a fresh row of the pair for exactly the given ids and leaves every other row as it was. */
  lemma {:induction false} SeedRows(t: Table, s: string, c: string, ids: seq<QuestionId>)
    ensures forall k :: k in Seed(t, s, c, ids) <==> k in t || (k.studentId == s && k.courseId == c && k.questionId in ids)
    ensures forall k :: k in Seed(t, s, c, ids) ==>
              Seed(t, s, c, ids)[k] == if k.studentId == s && k.courseId == c && k.questionId in ids then Fresh else t[k]
  {
    if ids != [] {
      var init := ids[..|ids| - 1];
      SeedRows(t, s, c, init);
      assert ids == init + [ids[|ids| - 1]];
      assert forall x :: x in ids <==> x in init || x == ids[|ids| - 1];
    }
  }

  /**
   * The first `init` of a pair, with the client's distinct question ids, inserts exactly
   * min(20, |all|) rows: distinct ids drawn from `all`, each fresh, together the pair's whole
   * active set, and the reply lists exactly those ids. Rows of other pairs are untouched.
   */
  lemma InitSeedsSample(t: Table, s: string, c: string, all: seq<QuestionId>, sample: seq<nat>)
    requires IsSample(sample, |all|) && Distinct(all)
    requires QuestionsOf(t, s, c) == {}
    ensures var out := InitSpec(t, s, c, all, sample);
            && out.0.Initialized?
            && |out.0.selected| == Min(InitialSetSize, |all|)
            && Distinct(out.0.selected)
            && (forall q :: q in out.0.selected ==> q in all)
            && QuestionsOf(out.1, s, c) == ToSet(out.0.selected)
            && (forall q :: q in out.0.selected ==> out.1[Key(s, c, q)] == Fresh)
            && ActiveIds(out.1, s, c) == ToSet(out.0.selected)
            && MasteredIds(out.1, s, c) == {}
            && (forall k: Key :: k.studentId != s || k.courseId != c ==> (k in out.1 <==> k in t) && (k in t ==> out.1[k] == t[k]))
  {
    var selected := Pick(all, sample);
    assert Distinct(selected);
    SeedRows(t, s, c, selected);
    var t1 := Seed(t, s, c, selected);
    forall q | q in selected ensures q in all {
      var i :| 0 <= i < |selected| && selected[i] == q;
      assert all[sample[i]] == q;
    }
    forall q | q in selected ensures Key(s, c, q) in t1 && t1[Key(s, c, q)] == Fresh {
      assert Key(s, c, q).questionId in selected;
    }
    assert QuestionsOf(t1, s, c) == ToSet(selected);
  }

  /**
   * `init` twice is `init` once: when the first call did not raise, the second changes nothing,
   * and it replies "Already initialized" unless the first seeded nothing (an empty `all`).
   */
  lemma InitIdempotent(t: Table, s: string, c: string, all: seq<QuestionId>, sample1: seq<nat>, sample2: seq<nat>)
    requires IsSample(sample1, |all|) && IsSample(sample2, |all|)
    requires InitSpec(t, s, c, all, sample1).0 != Raised
    ensures var t1 := InitSpec(t, s, c, all, sample1).1;
            && InitSpec(t1, s, c, all, sample2).1 == t1
            && InitSpec(t1, s, c, all, sample2).0 == (if QuestionsOf(t1, s, c) == {} then Initialized([]) else AlreadyInitialized)
            && (QuestionsOf(t1, s, c) == {} <==> QuestionsOf(t, s, c) == {} && all == [])
  {
    if QuestionsOf(t, s, c) == {} {
      var selected := Pick(all, sample1);
      SeedRows(t, s, c, selected);
      var t1 := Seed(t, s, c, selected);
      if all != [] {
        assert Key(s, c, selected[0]) in t1;
      } else {
        assert selected == [];
      }
    }
  }

  // ---------------------------------------------------------------- what answer promises

  /**
   * A correct answer sets the streak to the old streak plus one (one without a row) and the
   * mastered flag exactly when the streak reaches 3; the reply says mastered exactly then. A
   * mastering answer clears the active flag, any other keeps it, and a missing row is inserted
   * active. (`Raised` leaves the table as it was.)
   */
  lemma CorrectAnswerRow(t: Table, s: string, c: string, q: QuestionId, choice: Option<QuestionId>)
    ensures var out := AnswerSpec(t, s, c, q, true, choice); var k := Key(s, c, q);
            && (out.0 == Raised ==> out.1 == t)
            && (out.0 != Raised ==>
                  && k in out.1
                  && out.1[k].correctStreak == (if k in t then t[k].correctStreak else 0) + 1
                  && out.1[k].isMastered == (out.1[k].correctStreak >= MasteryStreak)
                  && out.0.Mastered? == out.1[k].isMastered
                  && (out.1[k].isMastered ==> !out.1[k].isInActiveSet)
                  && (!out.1[k].isMastered ==> out.1[k].isInActiveSet == (k !in t || t[k].isInActiveSet)))
  {
  }

  /**
   * A wrong answer replies "updated", sets the streak to 0 and keeps both flags of an existing
   * row; a missing row is inserted with no streak, not mastered, active.
   */
  lemma WrongAnswerRow(t: Table, s: string, c: string, q: QuestionId, choice: Option<QuestionId>)
    ensures var out := AnswerSpec(t, s, c, q, false, choice); var k := Key(s, c, q);
            && out.0 == Updated
            && out.1.Keys == t.Keys + {k}
            && out.1[k].correctStreak == 0
            && (k in t ==> out.1[k].isMastered == t[k].isMastered && out.1[k].isInActiveSet == t[k].isInActiveSet)
            && (k !in t ==> out.1[k] == Fresh)
  {
  }

  /**
   * On mastery at most one row is inserted: one for a question of `all` that had no row at
   * all (so it was neither mastered nor active), fresh and active; the reply's active set is the
   * old active set without the mastered question, plus that one. With no candidate nothing is
   * inserted.
   */
  lemma Replenishment(t: Table, s: string, c: string, q: QuestionId, all: seq<QuestionId>, choice: Option<QuestionId>)
    requires Masters(t, s, c, q, true)
    requires ValidChoice(t, s, c, q, true, all, choice)
    ensures var out := AnswerSpec(t, s, c, q, true, choice); var t1 := AfterUpsert(t, s, c, q, true);
            out.0 != Raised ==>
              && out.0 == Mastered(ActiveIds(out.1, s, c))
              && (choice.None? ==> out.1 == t1 && out.0.activeSet == ActiveIds(t, s, c) - {q})
              && (choice.Some? ==>
                    var n := choice.value;
                    && n in all && n != q
                    && n !in MasteredIds(t, s, c) && n !in ActiveIds(t, s, c) && Key(s, c, n) !in t
                    && out.1.Keys == t1.Keys + {Key(s, c, n)}
                    && out.1[Key(s, c, n)] == Fresh
                    && out.0.activeSet == (ActiveIds(t, s, c) - {q}) + {n})
  {
    var t1 := AfterUpsert(t, s, c, q, true);
    WriteRowViews(t, s, c, q, t1[Key(s, c, q)]);
    if choice.Some? {
      var n := choice.value;
      assert n !in UsedIds(t1, s, c);
      assert q in MasteredIds(t1, s, c);
      if Key(s, c, n) !in t1 {
        WriteRowViews(t1, s, c, n, Fresh);
      }
    }
  }

  /**
   * When the answered question was active, mastering it keeps the number of active questions
   * when a replacement exists and lowers it by one when none does.
   */
  lemma ActiveCountAfterMastery(t: Table, s: string, c: string, q: QuestionId, all: seq<QuestionId>, choice: Option<QuestionId>)
    requires q in ActiveIds(t, s, c)
    requires Masters(t, s, c, q, true)
    requires ValidChoice(t, s, c, q, true, all, choice)
    ensures var out := AnswerSpec(t, s, c, q, true, choice);
            out.0 != Raised ==>
              |out.0.activeSet| == if choice.Some? then |ActiveIds(t, s, c)| else |ActiveIds(t, s, c)| - 1
  {
    Replenishment(t, s, c, q, all, choice);
  }

  /**
   * An answer changes only the answered row and at most one inserted row, and nothing outside
   * its (student, course) pair.
   */
  lemma AnswerFrame(t: Table, s: string, c: string, q: QuestionId, isCorrect: bool, choice: Option<QuestionId>)
    ensures var out := AnswerSpec(t, s, c, q, isCorrect, choice);
            && t.Keys <= out.1.Keys
            && (out.1.Keys - t.Keys) <= {Key(s, c, q)} + (if choice.Some? then {Key(s, c, choice.value)} else {})
            && (forall k :: k in t && k != Key(s, c, q) && (choice.None? || k != Key(s, c, choice.value)) ==> out.1[k] == t[k])
            && (forall k: Key :: k.studentId != s || k.courseId != c ==> (k in out.1 <==> k in t) && (k in t ==> out.1[k] == t[k]))
  {
  }

  /**
   * If the client answers only questions of the active set (it draws them from there), every
   * row stays active-and-learning or mastered-and-retired, the replacement insert never hits an
   * existing row, and the mastered set only grows, by the answered question when it masters.
   */
  lemma AnswerKeepsConsistent(t: Table, s: string, c: string, q: QuestionId, isCorrect: bool,
                              all: seq<QuestionId>, choice: Option<QuestionId>)
    requires Consistent(t, s, c)
    requires q in ActiveIds(t, s, c)
    requires ValidChoice(t, s, c, q, isCorrect, all, choice)
    ensures var out := AnswerSpec(t, s, c, q, isCorrect, choice);
            && out.0 != Raised
            && Consistent(out.1, s, c)
            && MasteredIds(out.1, s, c) == MasteredIds(t, s, c) + (if Masters(t, s, c, q, isCorrect) then {q} else {})
  {
    var k := Key(s, c, q);
    var t1 := AfterUpsert(t, s, c, q, isCorrect);
    UpsertKeepsConsistent(t, s, c, q, isCorrect);
    if !Masters(t, s, c, q, isCorrect) {
      assert AnswerSpec(t, s, c, q, isCorrect, choice) == (Updated, t1);
    } else if choice.None? {
      assert AnswerSpec(t, s, c, q, isCorrect, choice) == (Mastered(ActiveIds(t1, s, c)), t1);
    } else {
      var n := choice.value;
      assert n !in UsedIds(t1, s, c);
      InsertFreshKeepsConsistent(t1, s, c, n);
      assert AnswerSpec(t, s, c, q, isCorrect, choice) == (Mastered(ActiveIds(t1, s, c) + {n}), t1[Key(s, c, n) := Fresh]);
    }
  }

  /** In a consistent pair a question without a row in the active or mastered set has no row at all. */
  lemma UnusedHasNoRow(t: Table, s: string, c: string, n: QuestionId)
    requires Consistent(t, s, c)
    requires n !in UsedIds(t, s, c)
    ensures Key(s, c, n) !in t
  {
    ConsistentViews(t, s, c);
  }

  /** Inserting a fresh row for a question the pair does not use hits no existing row, keeps the pair consistent and masters nothing. */
  lemma InsertFreshKeepsConsistent(t: Table, s: string, c: string, n: QuestionId)
    requires Consistent(t, s, c)
    requires n !in UsedIds(t, s, c)
    ensures Key(s, c, n) !in t
    ensures Consistent(t[Key(s, c, n) := Fresh], s, c)
    ensures MasteredIds(t[Key(s, c, n) := Fresh], s, c) == MasteredIds(t, s, c)
  {
    var t2 := t[Key(s, c, n) := Fresh];
    UnusedHasNoRow(t, s, c, n);
    WriteRowViews(t, s, c, n, Fresh);
    forall k' | k' in t2 && k'.studentId == s && k'.courseId == c ensures t2[k'].isMastered != t2[k'].isInActiveSet {
      if k' != Key(s, c, n) {
        assert k' in t;
      }
    }
  }

  /** The upsert of an active, unmastered row keeps the pair consistent, and the row is mastered afterwards exactly when the answer masters it. */
  lemma UpsertKeepsConsistent(t: Table, s: string, c: string, q: QuestionId, isCorrect: bool)
    requires Consistent(t, s, c)
    requires q in ActiveIds(t, s, c)
    ensures Consistent(AfterUpsert(t, s, c, q, isCorrect), s, c)
    ensures MasteredIds(AfterUpsert(t, s, c, q, isCorrect), s, c)
            == MasteredIds(t, s, c) + (if Masters(t, s, c, q, isCorrect) then {q} else {})
  {
    var k := Key(s, c, q);
    assert k in t && k.studentId == s && k.courseId == c;
    assert !t[k].isMastered && t[k].isInActiveSet;
    var t1 := AfterUpsert(t, s, c, q, isCorrect);
    assert t1[k].isMastered != t1[k].isInActiveSet;
    assert t1[k].isMastered == Masters(t, s, c, q, isCorrect);
    WriteRowViews(t, s, c, q, t1[k]);
    forall k' | k' in t1 && k'.studentId == s && k'.courseId == c ensures t1[k'].isMastered != t1[k'].isInActiveSet {
      if k' != k {
        assert k' in t;
      }
    }
  }

  // ---------------------------------------------------------------- the size of the active set

  /**
   * The invariant the handler keeps for a pair whose client sends the same distinct
   * `allQuestionIds` every time: rows only for those ids, each active or mastered, and an
   * active set of 20 questions, or of every unmastered question when fewer remain.
   */
  ghost predicate Balanced(t: Table, s: string, c: string, all: seq<QuestionId>) {
    && Consistent(t, s, c)
    && QuestionsOf(t, s, c) <= ToSet(all)
    && |ActiveIds(t, s, c)| == if |ToSet(all)| - |MasteredIds(t, s, c)| >= InitialSetSize as int then InitialSetSize as int
                               else |ToSet(all)| - |MasteredIds(t, s, c)|
  }

  /** The first successful `init` of a pair, with distinct ids, leaves it balanced. */
  lemma InitBalanced(t: Table, s: string, c: string, all: seq<QuestionId>, sample: seq<nat>)
    requires IsSample(sample, |all|) && Distinct(all)
    requires QuestionsOf(t, s, c) == {}
    ensures Balanced(InitSpec(t, s, c, all, sample).1, s, c, all)
  {
    InitSeedsSample(t, s, c, all, sample);
    var out := InitSpec(t, s, c, all, sample);
    DistinctCard(all);
    DistinctCard(out.0.selected);
    forall k | k in out.1 && k.studentId == s && k.courseId == c ensures out.1[k].isMastered != out.1[k].isInActiveSet {
      assert k == Key(s, c, k.questionId);
      assert k.questionId in out.0.selected;
    }
  }

  /** No candidate is left exactly when every id of `all` is used. */
  lemma NoCandidateIffAllUsed(all: seq<QuestionId>, used: set<QuestionId>)
    ensures Available(all, used) == [] <==> ToSet(all) <= used
  {
    if Available(all, used) != [] {
      assert Available(all, used)[0] in Available(all, used);
    }
  }

  /** A subset is no larger, and a proper subset is smaller. */
  lemma {:induction false} SubsetCard<T>(a: set<T>, b: set<T>, x: T)
    requires a <= b && x in b && x !in a
    ensures |a| < |b|
  {
    SubsetCardLe(a, b - {x});
    assert b == (b - {x}) + {x};
  }

  lemma {:induction false} SubsetCardLe<T>(a: set<T>, b: set<T>)
    requires a <= b
    ensures |a| <= |b|
    decreases |a|
  {
    if a != {} {
      var y :| y in a;
      SubsetCardLe(a - {y}, b - {y});
    }
  }

  /** A non-mastering answer to an active question leaves the pair's questions, active set and mastered set as they were. */
  lemma UpdateKeepsViews(t: Table, s: string, c: string, q: QuestionId, isCorrect: bool)
    requires Consistent(t, s, c)
    requires q in ActiveIds(t, s, c)
    requires !Masters(t, s, c, q, isCorrect)
    ensures var t1 := AfterUpsert(t, s, c, q, isCorrect);
            && QuestionsOf(t1, s, c) == QuestionsOf(t, s, c)
            && ActiveIds(t1, s, c) == ActiveIds(t, s, c)
            && MasteredIds(t1, s, c) == MasteredIds(t, s, c)
  {
    var t1 := AfterUpsert(t, s, c, q, isCorrect);
    UpsertKeepsConsistent(t, s, c, q, isCorrect);
    WriteRowViews(t, s, c, q, t1[Key(s, c, q)]);
  }

  /** A mastering answer to an active question moves it from the active to the mastered set and uses nothing new. */
  lemma MasteryViews(t: Table, s: string, c: string, q: QuestionId)
    requires Consistent(t, s, c)
    requires q in ActiveIds(t, s, c)
    requires Masters(t, s, c, q, true)
    ensures var t1 := AfterUpsert(t, s, c, q, true);
            && Consistent(t1, s, c)
            && QuestionsOf(t1, s, c) == QuestionsOf(t, s, c)
            && UsedIds(t1, s, c) == QuestionsOf(t, s, c)
            && ActiveIds(t1, s, c) == ActiveIds(t, s, c) - {q}
            && MasteredIds(t1, s, c) == MasteredIds(t, s, c) + {q}
  {
    var t1 := AfterUpsert(t, s, c, q, true);
    UpsertKeepsConsistent(t, s, c, q, true);
    WriteRowViews(t, s, c, q, t1[Key(s, c, q)]);
    ConsistentViews(t1, s, c);
  }

  /**
   * On a balanced pair, an answer to an active question keeps it balanced: a replacement
   * exists exactly while more than 20 questions are unmastered, so the active set stays at 20
   * until the unmastered questions run short and then shrinks with each mastery.
   */
  lemma AnswerKeepsBalanced(t: Table, s: string, c: string, q: QuestionId, isCorrect: bool,
                            all: seq<QuestionId>, choice: Option<QuestionId>)
    requires Balanced(t, s, c, all)
    requires q in ActiveIds(t, s, c)
    requires ValidChoice(t, s, c, q, isCorrect, all, choice)
    ensures Balanced(AnswerSpec(t, s, c, q, isCorrect, choice).1, s, c, all)
  {
    if !Masters(t, s, c, q, isCorrect) {
      UpdateKeepsViews(t, s, c, q, isCorrect);
      UpsertKeepsConsistent(t, s, c, q, isCorrect);
    } else if choice.Some? {
      ReplacedKeepsBalanced(t, s, c, q, all, choice.value);
    } else {
      UnreplacedKeepsBalanced(t, s, c, q, all);
    }
  }

  /** Mastery with a replacement: the active set keeps its 20 questions. */
  lemma ReplacedKeepsBalanced(t: Table, s: string, c: string, q: QuestionId, all: seq<QuestionId>, n: QuestionId)
    requires Balanced(t, s, c, all)
    requires q in ActiveIds(t, s, c)
    requires Masters(t, s, c, q, true)
    requires n in Candidates(t, s, c, q, all)
    ensures Balanced(AnswerSpec(t, s, c, q, true, Some(n)).1, s, c, all)
  {
    ReplacementViews(t, s, c, q, all, n);
    ReplacedCounts(t, s, c, q, all, n);
  }

  /** The pair's views after a mastery with a replacement. */
  lemma ReplacementViews(t: Table, s: string, c: string, q: QuestionId, all: seq<QuestionId>, n: QuestionId)
    requires Consistent(t, s, c)
    requires q in ActiveIds(t, s, c)
    requires Masters(t, s, c, q, true)
    requires n in Candidates(t, s, c, q, all)
    ensures n in ToSet(all) && n !in QuestionsOf(t, s, c)
    ensures var t2 := AnswerSpec(t, s, c, q, true, Some(n)).1;
            && Consistent(t2, s, c)
            && QuestionsOf(t2, s, c) == QuestionsOf(t, s, c) + {n}
            && ActiveIds(t2, s, c) == (ActiveIds(t, s, c) - {q}) + {n}
            && MasteredIds(t2, s, c) == MasteredIds(t, s, c) + {q}
  {
    var t1 := AfterUpsert(t, s, c, q, true);
    MasteryViews(t, s, c, q);
    InsertFreshKeepsConsistent(t1, s, c, n);
    WriteRowViews(t1, s, c, n, Fresh);
  }

  /** The counting half of `ReplacedKeepsBalanced`: a free id exists, so the active set was full. */
  lemma ReplacedCounts(t: Table, s: string, c: string, q: QuestionId, all: seq<QuestionId>, n: QuestionId)
    requires Balanced(t, s, c, all)
    requires q in ActiveIds(t, s, c)
    requires n in ToSet(all) && n !in QuestionsOf(t, s, c)
    ensures var a := (ActiveIds(t, s, c) - {q}) + {n};
            var m := MasteredIds(t, s, c) + {q};
            |a| == if |ToSet(all)| - |m| >= InitialSetSize as int then InitialSetSize as int else |ToSet(all)| - |m|
  {
    ConsistentViews(t, s, c);
    SubsetCard(QuestionsOf(t, s, c), ToSet(all), n);
    assert q !in MasteredIds(t, s, c);
    assert n !in ActiveIds(t, s, c);
    assert |(ActiveIds(t, s, c) - {q}) + {n}| == |ActiveIds(t, s, c)|;
    assert |MasteredIds(t, s, c) + {q}| == |MasteredIds(t, s, c)| + 1;
  }

  /** Mastery without a replacement: every id is in use, so the active set is every unmastered question, one fewer now. */
  lemma UnreplacedKeepsBalanced(t: Table, s: string, c: string, q: QuestionId, all: seq<QuestionId>)
    requires Balanced(t, s, c, all)
    requires q in ActiveIds(t, s, c)
    requires Masters(t, s, c, q, true)
    requires Candidates(t, s, c, q, all) == []
    ensures Balanced(AnswerSpec(t, s, c, q, true, None).1, s, c, all)
  {
    var t1 := AfterUpsert(t, s, c, q, true);
    ConsistentViews(t, s, c);
    MasteryViews(t, s, c, q);
    NoCandidateIffAllUsed(all, UsedIds(t1, s, c));
    assert QuestionsOf(t, s, c) == ToSet(all);
  }

  /**
   * On a balanced pair the practice is over, every question mastered (the client compares the
   * mastered count with the number of questions), exactly when the active set is empty.
   */
  lemma CompletionIffNoActive(t: Table, s: string, c: string, all: seq<QuestionId>)
    requires Balanced(t, s, c, all)
    ensures |MasteredIds(t, s, c)| == |ToSet(all)| <==> ActiveIds(t, s, c) == {}
    ensures ActiveIds(t, s, c) == {} ==> MasteredIds(t, s, c) == ToSet(all)
  {
    assert MasteredIds(t, s, c) <= ToSet(all);
    SubsetCardLe(MasteredIds(t, s, c), ToSet(all));
    if ActiveIds(t, s, c) == {} && MasteredIds(t, s, c) != ToSet(all) {
      var x :| x in ToSet(all) && x !in MasteredIds(t, s, c);
      SubsetCard(MasteredIds(t, s, c), ToSet(all), x);
    }
  }

  /**
   * No guard keeps a mastered question mastered: after three correct answers a wrong one and
   * a right one leave the question with a streak of 1, unmastered and out of the active set.
   */
  lemma MasteryCanBeLost(s: string, c: string, q: QuestionId)
    ensures var t0: Table := map[Key(s, c, q) := Fresh];
            var t1 := AnswerSpec(t0, s, c, q, true, None).1;
            var t2 := AnswerSpec(t1, s, c, q, true, None).1;
            var t3 := AnswerSpec(t2, s, c, q, true, None).1;
            var t4 := AnswerSpec(t3, s, c, q, false, None).1;
            var t5 := AnswerSpec(t4, s, c, q, true, None).1;
            && t3[Key(s, c, q)] == Progress(3, true, false)
            && t5[Key(s, c, q)] == Progress(1, false, false)
  {
  }

  // ---------------------------------------------------------------- the store

  class AdaptiveStore {
    var rows: Table

    constructor ()
      ensures rows == map[]
    {
      rows := map[];
    }

    /** GET: the pair's rows, or 400 when either id is missing. */
    method List(studentId: Option<string>, courseId: Option<string>) returns (r: Response)
      ensures r == if Given(studentId) && Given(courseId)
                   then Listing(PairRecords(rows, studentId.value, courseId.value)) else MissingIds
    {
      if !Given(studentId) || !Given(courseId) {
        return MissingIds;
      }
      r := Listing(PairRecords(rows, studentId.value, courseId.value));
    }

    /** POST `init`: seeds the drawn ids when the pair has no row yet. */
    method Init(s: string, c: string, all: seq<QuestionId>, sample: seq<nat>) returns (r: Response)
      requires IsSample(sample, |all|)
      modifies this
      ensures (r, rows) == InitSpec(old(rows), s, c, all, sample)
    {
      if QuestionsOf(rows, s, c) != {} {
        return AlreadyInitialized;
      }
      var selected := Pick(all, sample);
      var t := rows;
      for i := 0 to |selected|
        invariant t == Seed(rows, s, c, selected[..i])
        invariant forall q :: Key(s, c, q) in t <==> q in selected[..i]
        invariant Distinct(selected[..i])
      {
        var k := Key(s, c, selected[i]);
        if k in t {
          var j :| 0 <= j < i && selected[j] == selected[i];
          assert !Distinct(selected);
          return Raised;
        }
        ghost var done := selected[..i + 1];
        assert done[..i] == selected[..i] && done[i] == selected[i];
        assert done == selected[..i] + [selected[i]];
        assert selected[i] !in selected[..i];
        assert Seed(rows, s, c, done) == t[k := Fresh];
        t := t[k := Fresh];
      }
      assert selected[..|selected|] == selected;
      rows := t;
      r := Initialized(selected);
    }

    /**
     * POST `answer`: updates the answered row and, when the answer masters the question,
     * activates one question of `all` that is neither mastered nor active, drawn at random.
     * `choice` is the id drawn.
     */
    method Answer(s: string, c: string, q: QuestionId, isCorrect: bool, all: seq<QuestionId>)
      returns (r: Response, ghost choice: Option<QuestionId>)
      modifies this
      ensures ValidChoice(old(rows), s, c, q, isCorrect, all, choice)
      ensures (r, rows) == AnswerSpec(old(rows), s, c, q, isCorrect, choice)
    {
      var k := Key(s, c, q);
      var row := Lookup(rows, k);
      var t := rows;
      choice := None;
      if isCorrect {
        var newStreak := (if row.Some? then row.value.correctStreak else 0) + 1;
        var isMastered := newStreak >= MasteryStreak;
        t := t[k := if row.Some? then Progress(newStreak, isMastered, if isMastered then false else row.value.isInActiveSet)
                    else Progress(newStreak, isMastered, true)];
        if isMastered {
          var active := ActiveIds(t, s, c);
          var used := UsedIds(t, s, c);
          var available := Available(all, used);
          if available != [] {
            var j :| 0 <= j < |available|;
            var newId := available[j];
            choice := Some(newId);
            if Key(s, c, newId) in t {
              return Raised, choice;
            }
            t := t[Key(s, c, newId) := Fresh];
            active := active + {newId};
          }
          rows := t;
          return Mastered(active), choice;
        }
      } else {
        t := t[k := if row.Some? then row.value.(correctStreak := 0) else Fresh];
      }
      rows := t;
      r := Updated;
    }

    /** The handler: dispatch on the HTTP method and the action. `sample` is what `random.sample` draws for an `init`. */
    method Handle(req: Request, sample: seq<nat>) returns (r: Response)
      requires req.Post? && req.action == Some("init") ==> IsSample(sample, |req.body.allQuestionIds|)
      modifies this
      ensures req.Options? || req.OtherMethod? ==> r == (if req.Options? then Preflight else MethodNotAllowed) && rows == old(rows)
      ensures req.Get? ==>
                && rows == old(rows)
                && r == if Given(req.studentId) && Given(req.courseId)
                        then Listing(PairRecords(old(rows), req.studentId.value, req.courseId.value)) else MissingIds
      ensures req.Post? && req.action != Some("init") && req.action != Some("answer") ==>
                r == MethodNotAllowed && rows == old(rows)
      ensures req.Post? && req.action == Some("init") ==>
                (r, rows) == InitSpec(old(rows), req.body.studentId, req.body.courseId, req.body.allQuestionIds, sample)
      ensures req.Post? && req.action == Some("answer") ==>
                exists choice :: ValidChoice(old(rows), req.body.studentId, req.body.courseId, req.body.questionId,
                                             req.body.isCorrect, req.body.allQuestionIds, choice)
                              && (r, rows) == AnswerSpec(old(rows), req.body.studentId, req.body.courseId,
                                                         req.body.questionId, req.body.isCorrect, choice)
    {
      match req
      case Options => r := Preflight;
      case OtherMethod => r := MethodNotAllowed;
      case Get(sid, cid) => r := List(sid, cid);
      case Post(action, body) =>
        if action == Some("init") {
          r := Init(body.studentId, body.courseId, body.allQuestionIds, sample);
        } else if action == Some("answer") {
          ghost var choice;
          r, choice := Answer(body.studentId, body.courseId, body.questionId, body.isCorrect, body.allQuestionIds);
        } else {
          r := MethodNotAllowed;
        }
    }
  }
}
