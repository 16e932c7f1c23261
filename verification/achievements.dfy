/** The server side of achievements: the per-user progress table, the monotone update
    that unlocks an achievement once, the event-driven check, and the list view that
    recomputes every achievement's progress. The database is passed in as values: the
    user's `user_achievements` rows as a map, the other tables as a `Store` snapshot. */
module Achievements {
  import opened Wrappers
  import opened QuizStore

  type AchievementId = string

  /** An ISO time stamp; only its presence matters to the decisions. */
  type Timestamp = string

  /** One `user_achievements` row of the current user. */
  datatype Row = Row(progress: real, maxProgress: real, unlockedAt: Option<Timestamp>)

  type Table = map<AchievementId, Row>

  predicate IsUnlocked(t: Table, id: AchievementId) {
    id in t && t[id].unlockedAt.Some?
  }

  /** What `updateAchievementProgress` returns. */
  datatype Report = Unlocked | Progressed(progress: real, maxProgress: real)

  datatype Update = Update(table: Table, report: Report)

  function Max(a: real, b: real): real {
    if a >= b then a else b
  }

  function Min(a: real, b: real): real {
    if a <= b then a else b
  }

  // ---------------------------------------------------------------------------
  // updateAchievementProgress
  // ---------------------------------------------------------------------------

  /** Stores `progress` for `id`: an existing row keeps the larger of its old and the new
      progress and is stamped with `now` the first time it reaches `maxProgress`; a new
      row is inserted, stamped if it already reaches `maxProgress`. */
  function UpdateProgress(t: Table, id: AchievementId, progress: real, maxProgress: real, now: Timestamp)
    : (u: Update)
    ensures u.table.Keys == t.Keys + {id}
    ensures forall k :: k in t && k != id ==> u.table[k] == t[k]
    ensures u.table[id].maxProgress == maxProgress
    ensures u.table[id].progress >= progress
    ensures id in t ==> u.table[id].progress >= t[id].progress
    ensures u.table[id].progress == progress || (id in t && u.table[id].progress == t[id].progress)
    ensures u.report.Unlocked? <==> !IsUnlocked(t, id) && u.table[id].progress >= maxProgress
    ensures u.report.Unlocked? ==> u.table[id].unlockedAt == Some(now)
    ensures !u.report.Unlocked? ==>
      u.table[id].unlockedAt == (if id in t then t[id].unlockedAt else None)
      && u.report.progress == u.table[id].progress && u.report.maxProgress == maxProgress
  {
    if id in t then
      var row := t[id];
      var newProgress := Max(row.progress, progress);
      if newProgress >= maxProgress && row.unlockedAt.None? then
        Update(t[id := Row(newProgress, maxProgress, Some(now))], Unlocked)
      else
        Update(t[id := Row(newProgress, maxProgress, row.unlockedAt)], Progressed(newProgress, maxProgress))
    else if progress >= maxProgress then
      Update(t[id := Row(progress, maxProgress, Some(now))], Unlocked)
    else
      Update(t[id := Row(progress, maxProgress, None)], Progressed(progress, maxProgress))
  }

  /** An unlock is never lost or re-dated, whatever progress is reported later. */
  lemma UnlockIsSticky(t: Table, id: AchievementId, k: AchievementId, progress: real, maxProgress: real, now: Timestamp)
    requires IsUnlocked(t, k)
    ensures IsUnlocked(UpdateProgress(t, id, progress, maxProgress, now).table, k)
    ensures UpdateProgress(t, id, progress, maxProgress, now).table[k].unlockedAt == t[k].unlockedAt
    ensures !UpdateProgress(t, id, progress, maxProgress, now).report.Unlocked? || k != id
  {
  }

  /** Repeating an update is a no-op and never reports a second unlock. */
  lemma UpdateIdempotent(t: Table, id: AchievementId, progress: real, maxProgress: real, now: Timestamp, later: Timestamp)
    ensures var u := UpdateProgress(t, id, progress, maxProgress, now);
      var v := UpdateProgress(u.table, id, progress, maxProgress, later);
      v.table == u.table && !v.report.Unlocked?
  {
  }

  /** Progress reports for one achievement, in the order they arrive, each with its time. */
  datatype Tick = Tick(progress: real, at: Timestamp)

  function Replay(t: Table, id: AchievementId, ticks: seq<Tick>, maxProgress: real): Table
  {
    if |ticks| == 0 then t
    else
      var last := ticks[|ticks| - 1];
      UpdateProgress(Replay(t, id, ticks[..|ticks| - 1], maxProgress), id, last.progress, maxProgress, last.at).table
  }

  function MaxOf(ticks: seq<Tick>): real
    requires |ticks| > 0
  {
    if |ticks| == 1 then ticks[0].progress
    else Max(MaxOf(ticks[..|ticks| - 1]), ticks[|ticks| - 1].progress)
  }

  predicate EverReached(ticks: seq<Tick>, maxProgress: real) {
    exists i :: 0 <= i < |ticks| && ticks[i].progress >= maxProgress
  }

  /** Reference reading of a row's history: starting with no row, the stored progress is
      the largest progress ever reported, and the row is unlocked exactly when some
      report reached `maxProgress`. */
  lemma {:induction false} ReplayIsRunningMax(t: Table, id: AchievementId, ticks: seq<Tick>, maxProgress: real)
    requires id !in t && |ticks| > 0
    ensures var r := Replay(t, id, ticks, maxProgress);
      id in r && r[id].progress == MaxOf(ticks)
      && (IsUnlocked(r, id) <==> EverReached(ticks, maxProgress))
  {
    var last := ticks[|ticks| - 1];
    var init := ticks[..|ticks| - 1];
    if |ticks| == 1 {
      assert ticks[0] == last;
    } else {
      ReplayIsRunningMax(t, id, init, maxProgress);
      var before := Replay(t, id, init, maxProgress);
      assert EverReached(ticks, maxProgress) <==> EverReached(init, maxProgress) || last.progress >= maxProgress by {
        if EverReached(ticks, maxProgress) {
          var i :| 0 <= i < |ticks| && ticks[i].progress >= maxProgress;
          if i < |init| {
            assert init[i] == ticks[i];
          }
        }
        if EverReached(init, maxProgress) {
          var i :| 0 <= i < |init| && init[i].progress >= maxProgress;
          assert ticks[i] == init[i];
        }
      }
      MaxReaches(init, maxProgress);
    }
  }

  lemma {:induction false} MaxReaches(ticks: seq<Tick>, maxProgress: real)
    requires |ticks| > 0
    ensures MaxOf(ticks) >= maxProgress <==> EverReached(ticks, maxProgress)
  {
    if |ticks| > 1 {
      var init := ticks[..|ticks| - 1];
      MaxReaches(init, maxProgress);
      if EverReached(init, maxProgress) {
        var i :| 0 <= i < |init| && init[i].progress >= maxProgress;
        assert ticks[i] == init[i];
      }
      if EverReached(ticks, maxProgress) {
        var i :| 0 <= i < |ticks| && ticks[i].progress >= maxProgress;
        if i < |init| {
          assert init[i] == ticks[i];
        }
      }
    }
  }

  // ---------------------------------------------------------------------------
  // Definitions, events and the rest of the database
  // ---------------------------------------------------------------------------

  /** The `condition` object; each type reads only its own field. */
  datatype Condition = Condition(
    count: int, category: string, score: int, categories: seq<string>, days: int, hours: real)

  datatype Achievement = Achievement(kind: string, condition: Condition)

  /** One `[id, definition]` pair of the definitions file, in file order. */
  datatype Entry = Entry(id: AchievementId, def: Achievement)

  predicate DistinctIds(defs: seq<Entry>) {
    forall i, j :: 0 <= i < j < |defs| ==> defs[i].id != defs[j].id
  }

  /** `eventData`; a missing flag is false and a missing category is `None`. */
  datatype Event = Event(solved: bool, category: Option<string>, usedHint: bool, loggedIn: bool, studyTimeUpdated: bool)

  datatype SolvedRow = SolvedRow(category: string, qid: string)

  /** The rest of the user's data. `None` stands for a missing `users` row (score), a
      failing query (the hint count, the login log) or a sum that is null or zero
      (study time). */
  datatype Store = Store(
    solved: seq<SolvedRow>,
    score: Option<int>,
    noHintCount: Option<nat>,
    loginDays: Option<seq<int>>,
    studyMs: Option<int>)

  /** The current instant and the current day number. */
  datatype Clock = Clock(now: Timestamp, today: int)

  const MsPerHour: real := 3600000.0

  // ---------------------------------------------------------------------------
  // Per-type progress formulas
  // ---------------------------------------------------------------------------

  predicate HasCategoryId(quiz: QuizData, row: SolvedRow, target: string) {
    var q := Find(quiz, row.category, row.qid);
    q.Some? && q.value.categoryId == Some(target)
  }

  /** category_solve: solved rows whose question exists and carries the target
      `categoryId`; rows pointing at missing questions count for nothing. */
  function CategoryCount(solved: seq<SolvedRow>, quiz: QuizData, target: string): (n: nat)
    ensures n <= |solved|
  {
    if |solved| == 0 then 0
    else
      CategoryCount(solved[..|solved| - 1], quiz, target)
      + (if HasCategoryId(quiz, solved[|solved| - 1], target) then 1 else 0)
  }

  lemma {:induction false} CategoryCountAppend(a: seq<SolvedRow>, b: seq<SolvedRow>, quiz: QuizData, target: string)
    ensures CategoryCount(a + b, quiz, target) == CategoryCount(a, quiz, target) + CategoryCount(b, quiz, target)
  {
    if |b| > 0 {
      var b' := b[..|b| - 1];
      assert (a + b)[..|a + b| - 1] == a + b';
      CategoryCountAppend(a, b', quiz, target);
    } else {
      assert a + b == a;
    }
  }

  /** The count depends only on which rows were solved, not on their order. */
  lemma CategoryCountOrderFree(a: seq<SolvedRow>, b: seq<SolvedRow>, quiz: QuizData, target: string)
    ensures CategoryCount(a + b, quiz, target) == CategoryCount(b + a, quiz, target)
  {
    CategoryCountAppend(a, b, quiz, target);
    CategoryCountAppend(b, a, quiz, target);
  }

  /** Rows whose question is missing from the bank are ignored. */
  lemma MissingQuestionIgnored(solved: seq<SolvedRow>, row: SolvedRow, quiz: QuizData, target: string)
    requires Find(quiz, row.category, row.qid).None?
    ensures CategoryCount(solved + [row], quiz, target) == CategoryCount(solved, quiz, target)
  {
    assert (solved + [row])[..|solved|] == solved;
  }

  /** all_categories in the list view: the truthy `categoryId`s of solved questions. */
  function SolvedCategoryIds(solved: seq<SolvedRow>, quiz: QuizData): (ids: set<string>)
    ensures forall c :: c in ids <==>
      exists i :: 0 <= i < |solved| && c != "" && HasCategoryId(quiz, solved[i], c)
  {
    set i, c | 0 <= i < |solved| && c == OrEmpty(Find(quiz, solved[i].category, solved[i].qid)) && c != ""
      && HasCategoryId(quiz, solved[i], c) :: c
  }

  function OrEmpty(q: Option<Question>): string {
    if q.Some? && q.value.categoryId.Some? then q.value.categoryId.value else ""
  }

  /** `required.filter(cat => present.has(cat)).length` */
  function CountPresent(required: seq<string>, present: set<string>): (n: nat)
    ensures n <= |required|
  {
    if |required| == 0 then 0
    else CountPresent(required[1..], present) + (if required[0] in present then 1 else 0)
  }

  /** The count reaches the number of required categories exactly when all are present. */
  lemma {:induction false} CountPresentFull(required: seq<string>, present: set<string>)
    ensures CountPresent(required, present) == |required| <==> forall c :: c in required ==> c in present
  {
    if |required| > 0 {
      CountPresentFull(required[1..], present);
      assert forall c :: c in required <==> c == required[0] || c in required[1..];
    }
  }

  /** all_categories in the event path compares against the solved rows' own category
      keys, not against question `categoryId`s. */
  function RowCategories(solved: seq<SolvedRow>): (cats: set<string>)
    ensures forall c :: c in cats <==> exists i :: 0 <= i < |solved| && solved[i].category == c
  {
    set i | 0 <= i < |solved| :: solved[i].category
  }

  // ---------------------------------------------------------------------------
  // Login streak over day numbers, newest first
  // ---------------------------------------------------------------------------

  /** The loop after today was found: walking the rows after the first, a row equal to the
      expected day extends the streak, an earlier one ends it, a later one is skipped. */
  function Scan(rest: seq<int>, expected: int): (k: nat)
    ensures k <= |rest|
  {
    if |rest| == 0 then 0
    else if rest[0] == expected then 1 + Scan(rest[1..], expected - 1)
    else if rest[0] < expected then 0
    else Scan(rest[1..], expected)
  }

  /** Streak over a non-empty history; 0 when today is absent. */
  function StreakOf(days: seq<int>, today: int): (k: nat)
    requires |days| > 0
    ensures today !in days ==> k == 0
    ensures today in days ==> 1 <= k <= |days|
  {
    if today in days then 1 + Scan(days[1..], today - 1) else 0
  }

  /** The event path: an empty history counts as a first login, streak 1. */
  function EventStreak(days: seq<int>, today: int): (k: nat)
    ensures |days| == 0 ==> k == 1
    ensures |days| > 0 ==> k == StreakOf(days, today)
  {
    if |days| == 0 then 1 else StreakOf(days, today)
  }

  /** The list path: an empty history, or a failing query, gives 0. */
  function ListStreak(days: Option<seq<int>>, today: int): (k: nat)
    ensures days.None? || |days.value| == 0 ==> k == 0
    ensures days.Some? && |days.value| > 0 ==> k == StreakOf(days.value, today)
  {
    if days.Some? && |days.value| > 0 then StreakOf(days.value, today) else 0
  }

  predicate Descending(days: seq<int>) {
    forall i, j :: 0 <= i < j < |days| ==> days[i] >= days[j]
  }

  /** `k` consecutive days ending with `last` are all present and the day before is not. */
  predicate RunBack(days: seq<int>, last: int, k: nat) {
    (forall d :: last - k < d <= last ==> d in days) && last - k !in days
  }

  /** The run length is determined by the days. */
  lemma RunBackUnique(days: seq<int>, last: int, k: nat, k': nat)
    requires RunBack(days, last, k) && RunBack(days, last, k')
    ensures k == k'
  {
  }

  lemma {:induction false} ScanIsRun(rest: seq<int>, expected: int)
    requires Descending(rest)
    ensures RunBack(rest, expected, Scan(rest, expected))
  {
    if |rest| > 0 {
      assert Descending(rest[1..]);
      assert forall d :: d in rest <==> d == rest[0] || d in rest[1..];
      if rest[0] == expected {
        ScanIsRun(rest[1..], expected - 1);
      } else if rest[0] < expected {
        assert forall d :: d in rest ==> d <= rest[0] by {
          forall d | d in rest ensures d <= rest[0] {
            var j :| 0 <= j < |rest| && rest[j] == d;
          }
        }
      } else {
        ScanIsRun(rest[1..], expected);
      }
    }
  }

  /** For a history in descending order (a day may repeat) containing today, the streak
      is exactly the number of consecutive days ending today that all appear in it. */
  lemma StreakIsRunEndingToday(days: seq<int>, today: int)
    requires |days| > 0 && Descending(days) && today in days
    ensures RunBack(days, today, StreakOf(days, today))
  {
    assert Descending(days[1..]);
    ScanIsRun(days[1..], today - 1);
    assert forall d :: d in days <==> d == days[0] || d in days[1..];
    var j :| 0 <= j < |days| && days[j] == today;
    assert days[0] >= today;
  }

  // ---------------------------------------------------------------------------
  // checkAchievements
  // ---------------------------------------------------------------------------

  /** The progress and target one achievement contributes to an event, or `None` when
      its branch records nothing. */
  function EventProgress(a: Achievement, ev: Event, db: Store, quiz: QuizData, today: int): (r: Option<(real, real)>)
    ensures a.kind == "solve_count" ==> (r.Some? <==> ev.solved)
    ensures a.kind == "solve_count" && r.Some? ==>
      r.value == (|db.solved| as real, a.condition.count as real)
    ensures a.kind == "category_solve" ==>
      (r.Some? <==> ev.solved && ev.category == Some(a.condition.category))
    ensures a.kind == "category_solve" && r.Some? ==>
      r.value == (CategoryCount(db.solved, quiz, a.condition.category) as real, a.condition.count as real)
    ensures a.kind == "score" ==>
      (r.Some? <==> db.score.Some? && db.score.value >= a.condition.score)
    ensures a.kind == "score" && r.Some? ==>
      r.value == (a.condition.score as real, a.condition.score as real)
    ensures a.kind == "all_categories" ==>
      (r.Some? <==> ev.solved && forall c :: c in a.condition.categories ==> c in RowCategories(db.solved))
    ensures a.kind == "all_categories" && r.Some? ==>
      r.value == (|a.condition.categories| as real, |a.condition.categories| as real)
    ensures a.kind == "login_streak" ==> (r.Some? <==> ev.loggedIn && db.loginDays.Some?)
    ensures a.kind == "login_streak" && r.Some? ==>
      r.value == (EventStreak(db.loginDays.value, today) as real, a.condition.days as real)
    ensures a.kind == "study_time" ==>
      (r.Some? <==> ev.studyTimeUpdated && db.studyMs.Some? && db.studyMs.value != 0)
    ensures a.kind == "study_time" && r.Some? ==>
      r.value == (db.studyMs.value as real / MsPerHour, a.condition.hours)
    ensures a.kind == "no_hint_solve" ==> (r.Some? <==> ev.solved && !ev.usedHint && db.noHintCount.Some?)
    ensures a.kind == "no_hint_solve" && r.Some? ==>
      r.value == (db.noHintCount.value as real, a.condition.count as real)
    ensures a.kind !in KnownKinds ==> r.None?
  {
    var c := a.condition;
    match a.kind
    case "solve_count" =>
      if ev.solved then Some((|db.solved| as real, c.count as real)) else None
    case "category_solve" =>
      if ev.solved && ev.category == Some(c.category) then
        Some((CategoryCount(db.solved, quiz, c.category) as real, c.count as real))
      else None
    case "score" =>
      if db.score.Some? && db.score.value >= c.score then Some((c.score as real, c.score as real)) else None
    case "all_categories" =>
      var cats := RowCategories(db.solved);
      if ev.solved && forall x :: x in c.categories ==> x in cats then
        Some((|c.categories| as real, |c.categories| as real))
      else None
    case "login_streak" =>
      if ev.loggedIn && db.loginDays.Some? then
        Some((EventStreak(db.loginDays.value, today) as real, c.days as real))
      else None
    case "study_time" =>
      if ev.studyTimeUpdated && db.studyMs.Some? && db.studyMs.value != 0 then
        Some((db.studyMs.value as real / MsPerHour, c.hours))
      else None
    case "no_hint_solve" =>
      if ev.solved && !ev.usedHint && db.noHintCount.Some? then
        Some((db.noHintCount.value as real, c.count as real))
      else None
    case _ => None
  }

  const KnownKinds: set<string> :=
    {"solve_count", "category_solve", "score", "all_categories", "login_streak", "study_time", "no_hint_solve"}

  datatype CheckResult = CheckResult(table: Table, unlocked: seq<Entry>)

  /** The ids of the definitions of one type. */
  function IdsOfKind(defs: seq<Entry>, kind: string): (ids: set<AchievementId>)
    ensures forall x :: x in ids ==> exists e :: e in defs && e.id == x && e.def.kind == kind
    decreases |defs|
  {
    if |defs| == 0 then {}
    else (if defs[0].def.kind == kind then {defs[0].id} else {}) + IdsOfKind(defs[1..], kind)
  }

  /** The loop of `checkAchievements`: walks the definitions in order, skipping every one
      whose type is not the event type, records the progress `progressOf` computes for
      the others (none: nothing is recorded), and returns those that this walk unlocked.
      The progress of a definition depends on the database snapshot only, never on the
      table being updated, so it is a function of the definition alone. */
  function Walk(defs: seq<Entry>, kind: string, progressOf: Entry -> Option<(real, real)>,
                t: Table, now: Timestamp): (r: CheckResult)
    ensures forall x :: x in r.unlocked ==> x in defs && x.def.kind == kind
    ensures r.table.Keys <= t.Keys + IdsOfKind(defs, kind)
    ensures t.Keys <= r.table.Keys
    ensures forall k :: k in t && k !in IdsOfKind(defs, kind) ==> r.table[k] == t[k]
    ensures forall k :: k in t ==> r.table[k].progress >= t[k].progress
    ensures forall k :: IsUnlocked(t, k) ==> IsUnlocked(r.table, k) && r.table[k].unlockedAt == t[k].unlockedAt
    decreases |defs|
  {
    if |defs| == 0 then CheckResult(t, [])
    else
      var e := defs[0];
      var step := if e.def.kind == kind then progressOf(e) else None;
      if step.None? then
        Walk(defs[1..], kind, progressOf, t, now)
      else
        var u := UpdateProgress(t, e.id, step.value.0, step.value.1, now);
        var rest := Walk(defs[1..], kind, progressOf, u.table, now);
        assert forall k :: IsUnlocked(t, k) ==> IsUnlocked(u.table, k) && u.table[k].unlockedAt == t[k].unlockedAt by {
          forall k | IsUnlocked(t, k) ensures IsUnlocked(u.table, k) && u.table[k].unlockedAt == t[k].unlockedAt {
            UnlockIsSticky(t, e.id, k, step.value.0, step.value.1, now);
          }
        }
        assert forall k :: k in t ==> u.table[k].progress >= t[k].progress;
        CheckResult(rest.table, (if u.report.Unlocked? then [e] else []) + rest.unlocked)
  }

  /** `checkAchievements` for one event: the walk with the event's progress. */
  function CheckAchievements(defs: seq<Entry>, kind: string, ev: Event, db: Store, quiz: QuizData,
                             t: Table, clock: Clock): (r: CheckResult)
    ensures forall x :: x in r.unlocked ==> x in defs && x.def.kind == kind
    ensures forall k :: k in t ==> k in r.table && r.table[k].progress >= t[k].progress
    ensures forall k :: IsUnlocked(t, k) ==> IsUnlocked(r.table, k) && r.table[k].unlockedAt == t[k].unlockedAt
  {
    Walk(defs, kind, (e: Entry) => EventProgress(e.def, ev, db, quiz, clock.today), t, clock.now)
  }

  /** The walk reports `x` exactly when it unlocked it. */
  predicate ReportedIffNew(x: Entry, kind: string, t: Table, r: CheckResult) {
    x in r.unlocked <==> x.def.kind == kind && !IsUnlocked(t, x.id) && IsUnlocked(r.table, x.id)
  }

  /** With distinct ids, the returned achievements are exactly the definitions of the
      event's type that were locked before the walk and are unlocked after it. */
  lemma {:induction false} CheckReportsNewUnlocks(defs: seq<Entry>, kind: string,
                                                  progressOf: Entry -> Option<(real, real)>, t: Table, now: Timestamp)
    requires DistinctIds(defs)
    ensures var r := Walk(defs, kind, progressOf, t, now);
      forall x :: x in defs ==> ReportedIffNew(x, kind, t, r)
    decreases |defs|
  {
    if |defs| > 0 {
      var e := defs[0];
      var tail := defs[1..];
      DistinctTail(defs);
      var step := if e.def.kind == kind then progressOf(e) else None;
      var r := Walk(defs, kind, progressOf, t, now);
      if step.None? {
        CheckReportsNewUnlocks(tail, kind, progressOf, t, now);
        SkipReportsHead(e, tail, kind, progressOf, t, now);
      } else {
        var u := UpdateProgress(t, e.id, step.value.0, step.value.1, now);
        CheckReportsNewUnlocks(tail, kind, progressOf, u.table, now);
        StepReportsHead(e, tail, kind, progressOf, t, now);
        forall x | x in tail ensures ReportedIffNew(x, kind, t, r) {
          assert ReportedIffNew(x, kind, u.table, Walk(tail, kind, progressOf, u.table, now));
        }
      }
      assert defs == [e] + tail;
    }
  }

  lemma DistinctTail(defs: seq<Entry>)
    requires |defs| > 0 && DistinctIds(defs)
    ensures DistinctIds(defs[1..]) && defs[0] !in defs[1..]
    ensures forall x :: x in defs[1..] ==> x.id != defs[0].id
  {
    var tail := defs[1..];
    forall x | x in tail ensures x.id != defs[0].id {
      var j :| 0 <= j < |tail| && tail[j] == x;
      assert defs[j + 1] == x;
    }
  }

  /** The head of the walk, when it records nothing for it. */
  lemma SkipReportsHead(e: Entry, tail: seq<Entry>, kind: string, progressOf: Entry -> Option<(real, real)>,
                        t: Table, now: Timestamp)
    requires e !in tail && forall x :: x in tail ==> x.id != e.id
    requires (if e.def.kind == kind then progressOf(e) else None).None?
    ensures var r := Walk([e] + tail, kind, progressOf, t, now);
      r == Walk(tail, kind, progressOf, t, now) && ReportedIffNew(e, kind, t, r)
  {
    var r := Walk([e] + tail, kind, progressOf, t, now);
    assert ([e] + tail)[1..] == tail;
    IdsOfKindAbsent(tail, kind, e.id);
    assert e.id in r.table ==> e.id in t && r.table[e.id] == t[e.id];
  }

  /** The head of the walk, when it records progress for it. */
  lemma StepReportsHead(e: Entry, tail: seq<Entry>, kind: string, progressOf: Entry -> Option<(real, real)>,
                        t: Table, now: Timestamp)
    requires e !in tail && forall x :: x in tail ==> x.id != e.id
    requires (if e.def.kind == kind then progressOf(e) else None).Some?
    ensures var step := progressOf(e).value;
      var u := UpdateProgress(t, e.id, step.0, step.1, now);
      var rest := Walk(tail, kind, progressOf, u.table, now);
      var r := Walk([e] + tail, kind, progressOf, t, now);
      && r.table == rest.table
      && r.unlocked == (if u.report.Unlocked? then [e] else []) + rest.unlocked
      && ReportedIffNew(e, kind, t, r)
      && forall x :: x in tail ==> (IsUnlocked(u.table, x.id) <==> IsUnlocked(t, x.id))
  {
    var step := progressOf(e).value;
    var u := UpdateProgress(t, e.id, step.0, step.1, now);
    var rest := Walk(tail, kind, progressOf, u.table, now);
    assert ([e] + tail)[1..] == tail;
    IdsOfKindAbsent(tail, kind, e.id);
    assert e !in rest.unlocked;
    assert rest.table[e.id] == u.table[e.id];
  }

  lemma {:induction false} IdsOfKindAbsent(defs: seq<Entry>, kind: string, id: AchievementId)
    requires forall x :: x in defs ==> x.id != id
    ensures id !in IdsOfKind(defs, kind)
  {
  }

  // ---------------------------------------------------------------------------
  // The list view
  // ---------------------------------------------------------------------------

  /** One achievement as the list reports it. */
  datatype View = View(progress: real, maxProgress: real, unlocked: bool, unlockedAt: Option<Timestamp>)

  /** Progress recomputed from the current data, starting from the stored row (or 0 of 1
      when there is none) for types the recomputation does not know. */
  function ListProgress(a: Achievement, stored: Option<Row>, db: Store, quiz: QuizData, today: int): (r: (real, real))
    ensures a.kind == "solve_count" ==> r == (|db.solved| as real, a.condition.count as real)
    ensures a.kind == "category_solve" ==>
      r == (CategoryCount(db.solved, quiz, a.condition.category) as real, a.condition.count as real)
    ensures a.kind == "category_solve" ==> 0.0 <= r.0 <= |db.solved| as real
    ensures a.kind == "score" ==> r.1 == a.condition.score as real
    ensures a.kind == "score" ==> r.0 <= r.1
    ensures a.kind == "score" ==> var score := if db.score.Some? then db.score.value else 0;
      score <= a.condition.score ==> r.0 == score as real
    ensures a.kind == "score" ==> var score := if db.score.Some? then db.score.value else 0;
      score >= a.condition.score ==> r.0 == a.condition.score as real
    ensures a.kind == "all_categories" ==>
      r == (CountPresent(a.condition.categories, SolvedCategoryIds(db.solved, quiz)) as real,
            |a.condition.categories| as real)
    ensures a.kind == "all_categories" ==> 0.0 <= r.0 <= r.1
    ensures a.kind == "all_categories" ==>
      (r.0 == r.1 <==> forall x :: x in a.condition.categories ==> x in SolvedCategoryIds(db.solved, quiz))
    ensures a.kind == "login_streak" ==> r == (ListStreak(db.loginDays, today) as real, a.condition.days as real)
    ensures a.kind == "study_time" ==> r.1 == a.condition.hours
    ensures a.kind == "study_time" ==>
      r.0 == (if db.studyMs.Some? then db.studyMs.value as real / MsPerHour else 0.0)
    ensures a.kind == "no_hint_solve" ==>
      r == ((if db.noHintCount.Some? then db.noHintCount.value else 0) as real, a.condition.count as real)
    ensures a.kind !in KnownKinds ==>
      r == (if stored.Some? then (stored.value.progress, stored.value.maxProgress) else (0.0, 1.0))
  {
    var c := a.condition;
    var current := if stored.Some? then (stored.value.progress, stored.value.maxProgress) else (0.0, 1.0);
    match a.kind
    case "solve_count" => (|db.solved| as real, c.count as real)
    case "category_solve" => (CategoryCount(db.solved, quiz, c.category) as real, c.count as real)
    case "score" =>
      var score := if db.score.Some? then db.score.value else 0;
      (Min(score as real, c.score as real), c.score as real)
    case "all_categories" =>
      var ids := SolvedCategoryIds(db.solved, quiz);
      CountPresentFull(c.categories, ids);
      (CountPresent(c.categories, ids) as real, |c.categories| as real)
    case "login_streak" => (ListStreak(db.loginDays, today) as real, c.days as real)
    case "study_time" =>
      var hours := if db.studyMs.Some? && db.studyMs.value != 0 then db.studyMs.value as real / MsPerHour else 0.0;
      (hours, c.hours)
    case "no_hint_solve" =>
      var n := if db.noHintCount.Some? then db.noHintCount.value else 0;
      (n as real, c.count as real)
    case _ => current
  }

  datatype ListItem = ListItem(table: Table, view: View)

  /** One step of the list loop: decides the reported unlock state and writes the
      recomputed progress back, except when an unlocked achievement has fallen back
      below its target. */
  function ListOne(e: Entry, t: Table, db: Store, quiz: QuizData, clock: Clock): (r: ListItem)
    ensures var p := ListProgress(e.def, if e.id in t then Some(t[e.id]) else None, db, quiz, clock.today);
      && r.view.progress == p.0 && r.view.maxProgress == p.1
      && (r.view.unlocked <==> p.0 >= p.1 || IsUnlocked(t, e.id))
    ensures IsUnlocked(t, e.id) ==> r.view.unlocked && r.view.unlockedAt == t[e.id].unlockedAt
    ensures r.view.unlocked ==> IsUnlocked(r.table, e.id)
    ensures forall k :: IsUnlocked(t, k) ==> IsUnlocked(r.table, k) && r.table[k].unlockedAt == t[k].unlockedAt
    ensures forall k :: k in t && k != e.id ==> k in r.table && r.table[k] == t[k]
  {
    var stored := if e.id in t then Some(t[e.id]) else None;
    var p := ListProgress(e.def, stored, db, quiz, clock.today);
    var wasUnlocked := IsUnlocked(t, e.id);
    if p.0 >= p.1 && !wasUnlocked then
      ListItem(UpdateProgress(t, e.id, p.0, p.1, clock.now).table, View(p.0, p.1, true, Some(clock.now)))
    else if p.0 < p.1 && wasUnlocked then
      ListItem(t, View(p.0, p.1, true, t[e.id].unlockedAt))
    else
      var unlockedAt := if wasUnlocked then t[e.id].unlockedAt else None;
      ListItem(UpdateProgress(t, e.id, p.0, p.1, clock.now).table, View(p.0, p.1, wasUnlocked, unlockedAt))
  }

  datatype ListResult = ListResult(table: Table, views: seq<(AchievementId, View)>)

  /** The `/list` handler: every definition, in order, with its view. The handler reads
      the stored rows once before the loop; each step here reads the table as earlier
      steps left it, which differs only at ids already visited, so with distinct ids
      every step sees its row as it was read. */
  function ListAll(defs: seq<Entry>, t: Table, db: Store, quiz: QuizData, clock: Clock): (r: ListResult)
    ensures |r.views| == |defs|
    ensures forall i :: 0 <= i < |defs| ==> r.views[i].0 == defs[i].id
    ensures forall k :: IsUnlocked(t, k) ==> IsUnlocked(r.table, k) && r.table[k].unlockedAt == t[k].unlockedAt
    ensures forall i :: 0 <= i < |defs| && IsUnlocked(t, defs[i].id) ==> r.views[i].1.unlocked
    ensures forall i :: 0 <= i < |defs| && r.views[i].1.unlocked ==> IsUnlocked(r.table, defs[i].id)
    decreases |defs|
  {
    if |defs| == 0 then ListResult(t, [])
    else
      var item := ListOne(defs[0], t, db, quiz, clock);
      var rest := ListAll(defs[1..], item.table, db, quiz, clock);
      ListResult(rest.table, [(defs[0].id, item.view)] + rest.views)
  }
}
