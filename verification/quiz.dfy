/** The player's quiz route (`routes/quiz.js`): the localhost rewriting applied to the
    question bank, `/checkAnswer` with its solved-set and score update, and the file
    download's candidate paths. The bank, the user's rows and the file system's
    `existsSync` are parameters. */
module Quiz {
  import opened Wrappers
  import opened JsText
  import opened FileNames
  import opened QuizStore
  import opened NetInterfaces
  import Achievements

  // ---------------------------------------------------------------------------
  // replaceLocalhostInQuizData
  // ---------------------------------------------------------------------------

  const LocalPrefix: string := "http://localhost:"

  /** `.replace(/http:\/\/localhost:(\d+)/g, "http://" + host + ":$1")`: scanning left to
      right, each "http://localhost:" followed by at least one digit is rewritten with
      the whole digit run kept; everything else is copied. */
  function ReplaceLocalhost(s: string, host: string): (r: string)
    ensures |host| >= |"localhost"| ==> |r| >= |s|
    ensures |host| <= |"localhost"| ==> |r| <= |s|
    ensures |s| > 0 && s[0] != 'h' ==> |r| > 0 && r[0] == s[0]
    decreases |s|
  {
    if |s| == 0 then ""
    else if StartsWith(s, LocalPrefix) && DigitRun(s[|LocalPrefix|..], 10) > 0 then
      var n := |LocalPrefix| + DigitRun(s[|LocalPrefix|..], 10);
      "http://" + host + ":" + s[|LocalPrefix|..n] + ReplaceLocalhost(s[n..], host)
    else [s[0]] + ReplaceLocalhost(s[1..], host)
  }

  /** A URL with a port is rewritten to the host with the same port digits. */
  lemma ReplacePort(digits: string, rest: string, host: string)
    requires |digits| > 0 && forall i :: 0 <= i < |digits| ==> IsDigit(digits[i])
    requires |rest| == 0 || !IsDigit(rest[0])
    ensures ReplaceLocalhost(LocalPrefix + digits + rest, host) ==
      "http://" + host + ":" + digits + ReplaceLocalhost(rest, host)
  {
    var s := LocalPrefix + digits + rest;
    assert s[|LocalPrefix|..] == digits + rest;
    DigitRunOfDigits(digits, rest);
    assert s[..|LocalPrefix|] == LocalPrefix;
    assert s[|LocalPrefix|..|LocalPrefix| + |digits|] == digits;
    assert s[|LocalPrefix| + |digits|..] == rest;
  }

  /** Rewriting to "localhost" itself changes nothing. */
  lemma {:induction false} ReplaceByLocalhostIsIdentity(s: string)
    ensures ReplaceLocalhost(s, "localhost") == s
    decreases |s|
  {
    if |s| > 0 {
      if StartsWith(s, LocalPrefix) && DigitRun(s[|LocalPrefix|..], 10) > 0 {
        var n := |LocalPrefix| + DigitRun(s[|LocalPrefix|..], 10);
        ReplaceByLocalhostIsIdentity(s[n..]);
        LocalPrefixRebuilt(s, n);
      } else {
        assert ReplaceLocalhost(s, "localhost") == [s[0]] + ReplaceLocalhost(s[1..], "localhost");
        ReplaceByLocalhostIsIdentity(s[1..]);
        assert s == [s[0]] + s[1..];
      }
    }
  }

  /** Putting "localhost" back in front of the port gives the matched text again. */
  lemma LocalPrefixRebuilt(s: string, n: nat)
    requires StartsWith(s, LocalPrefix) && |LocalPrefix| <= n <= |s|
    ensures "http://" + "localhost" + ":" + s[|LocalPrefix|..n] + s[n..] == s
  {
    assert "http://" + "localhost" + ":" == LocalPrefix == s[..|LocalPrefix|];
    assert s[..n] == s[..|LocalPrefix|] + s[|LocalPrefix|..n];
    assert s == s[..n] + s[n..];
  }

  /** Text that never mentions "http://localhost:" is left as it is. */
  lemma {:induction false} ReplaceWithoutPattern(s: string, host: string)
    requires !Contains(s, LocalPrefix)
    ensures ReplaceLocalhost(s, host) == s
    decreases |s|
  {
    if |s| > 0 {
      if StartsWith(s, LocalPrefix) {
        assert OccursAt(s, LocalPrefix, 0);
      }
      assert !Contains(s[1..], LocalPrefix) by {
        if Contains(s[1..], LocalPrefix) {
          var i :| 0 <= i <= |s[1..]| - |LocalPrefix| && OccursAt(s[1..], LocalPrefix, i);
          assert s[i + 1..i + 1 + |LocalPrefix|] == s[1..][i..i + |LocalPrefix|];
          assert OccursAt(s, LocalPrefix, i + 1);
        }
      }
      ReplaceWithoutPattern(s[1..], host);
      assert s == [s[0]] + s[1..];
    }
  }

  /** The stored answer as `/checkAnswer` sees it, after the rewrite. */
  function ExpectedAfter(e: Expected, host: string): (r: Expected)
    ensures r.Missing? <==> e.Missing?
    ensures e.Single? ==> r == Single(ReplaceLocalhost(e.text, host))
    ensures e.Several? ==> r.Several? && |r.texts| == |e.texts|
    ensures e.Several? ==> forall i :: 0 <= i < |e.texts| ==> r.texts[i] == ReplaceLocalhost(e.texts[i], host)
  {
    match e
    case Missing => Missing
    case Single(t) => Single(ReplaceLocalhost(t, host))
    case Several(ts) => Several(seq(|ts|, i requires 0 <= i < |ts| => ReplaceLocalhost(ts[i], host)))
  }

  /** With no address to substitute, `/checkAnswer` compares against the stored answer. */
  lemma ExpectedAfterLocalhost(e: Expected)
    ensures ExpectedAfter(e, "localhost") == e
  {
    match e
    case Missing =>
    case Single(t) => ReplaceByLocalhostIsIdentity(t);
    case Several(ts) =>
      forall i | 0 <= i < |ts| ensures ReplaceLocalhost(ts[i], "localhost") == ts[i] {
        ReplaceByLocalhostIsIdentity(ts[i]);
      }
  }

  // ---------------------------------------------------------------------------
  // Comparing answers
  // ---------------------------------------------------------------------------

  /** The flag comparison: the trimmed answer against the trimmed expected string, or
      against any of the expected strings. `None` is the TypeError thrown when `trim` is
      called on something that is not a string. */
  function FlagMatch(answer: Field, expected: Expected): (r: Option<bool>)
    ensures r.None? <==> expected.Missing? || (!answer.Text? && !(expected.Several? && |expected.texts| == 0))
    ensures r == Some(true) <==>
      answer.Text? && (
        || (expected.Single? && Trim(answer.s) == Trim(expected.text))
        || (expected.Several? && exists t :: t in expected.texts && Trim(answer.s) == Trim(t)))
  {
    match expected
    case Missing => None
    case Single(t) => if answer.Text? then Some(Trim(answer.s) == Trim(t)) else None
    case Several(ts) =>
      if |ts| == 0 then Some(false)
      else if answer.Text? then Some(MatchesAnyTrimmed(Trim(answer.s), ts))
      else None
  }

  /** The trimmed answer `a` equals one of the trimmed expected strings. */
  predicate MatchesAnyTrimmed(a: string, ts: seq<string>) {
    exists t :: t in ts && a == Trim(t)
  }

  /** White space around a flag never changes the verdict. */
  lemma FlagIgnoresSurroundingSpace(answer: string, expected: Expected)
    ensures FlagMatch(Text(Trim(answer)), expected) == FlagMatch(Text(answer), expected)
  {
    TrimIdempotent(answer);
  }

  /** The coordinate comparison, with `near(answer, expected, tolerance)` standing for
      `checkCoordinates`; only the expected side is trimmed here. */
  function CoordMatch(answer: Field, expected: Expected, tolerance: real, near: (Field, string, real) -> bool)
    : (r: Option<bool>)
    ensures r.None? <==> expected.Missing?
  {
    match expected
    case Missing => None
    case Single(t) => Some(near(answer, Trim(t), tolerance))
    case Several(ts) => Some(exists t :: t in ts && near(answer, Trim(t), tolerance))
  }

  const DefaultTolerance: real := 0.001

  // ---------------------------------------------------------------------------
  // checkAnswer
  // ---------------------------------------------------------------------------

  datatype Submission = Submission(category: string, qid: string, answer: Field, point: Option<int>)

  /** The user's rows: the solved (category, qid) pairs and the score, which SQL may hold
      as NULL. */
  datatype Account = Account(solved: set<(string, string)>, score: Option<int>)

  /** `DbError` is the 500 reply when the query for the solved row fails. */
  datatype Verdict = Unauthorized | QuestionNotFound | Crashed | Incorrect | DbError | AlreadySolved | Correct

  /** An achievement check the handler starts: the event type and its `eventData`. */
  datatype Notice = Notice(kind: string, event: Achievements.Event)

  datatype AnswerResult = AnswerResult(verdict: Verdict, account: Account, notices: seq<Notice>)

  /** `score = score + ?`: NULL on either side gives NULL. */
  function AddScore(score: Option<int>, point: Option<int>): (r: Option<int>)
    ensures r.Some? <==> score.Some? && point.Some?
    ensures r.Some? ==> r.value - score.value == point.value
  {
    if score.Some? && point.Some? then Some(score.value + point.value) else None
  }

  /** The checks started after a first correct answer. The source starts the score check
      only when the score query succeeds and finds the user's row (lines 225-226); no
      reply depends on it, so the model always lists it. */
  function NoticesFor(q: Question): (ns: seq<Notice>)
    ensures |ns| == if Truthy(q.categoryId) then 4 else 3
    ensures ns[0].kind == "solve_count" && ns[|ns| - 1].kind == "score"
    ensures (exists n :: n in ns && n.kind == "category_solve") <==> Truthy(q.categoryId)
    ensures forall n :: n in ns && n.kind == "category_solve" ==> n.event.category == q.categoryId
  {
    var solved := Achievements.Event(true, None, false, false, false);
    var byCategory :=
      if Truthy(q.categoryId) then [Notice("category_solve", solved.(category := q.categoryId))] else [];
    [Notice("solve_count", solved)] + byCategory + [Notice("all_categories", solved),
      Notice("score", Achievements.Event(false, None, false, false, false))]
  }

  /** The verdict of the comparison the question's answer type selects. */
  function Judge(q: Question, answer: Field, host: string, near: (Field, string, real) -> bool): (r: Option<bool>)
    ensures OrElse(q.answerType, "flag") != "coordinates" ==> r == FlagMatch(answer, ExpectedAfter(q.answer, host))
  {
    var expected := ExpectedAfter(q.answer, host);
    if OrElse(q.answerType, "flag") == "coordinates" then
      var tolerance :=
        if q.coordinateTolerance.Some? && q.coordinateTolerance.value != 0.0 then q.coordinateTolerance.value
        else DefaultTolerance;
      CoordMatch(answer, expected, tolerance, near)
    else FlagMatch(answer, expected)
  }

  /** `POST /checkAnswer`: 401 without a session, 404 for an unknown question, then the
      comparison; a first correct answer records the pair and adds the submitted
      `point` to the score. `lookupOk` says whether the query for the solved row
      succeeds. */
  function CheckAnswer(session: Option<string>, data: QuizData, host: string, sub: Submission, acct: Account,
                       lookupOk: bool, near: (Field, string, real) -> bool): (r: AnswerResult)
    ensures r.verdict == Unauthorized <==> !Truthy(session)
    ensures r.verdict == QuestionNotFound <==> Truthy(session) && Find(data, sub.category, sub.qid).None?
    ensures r.verdict != Correct ==> r.account == acct && r.notices == []
    ensures r.verdict == Correct ==>
      && (sub.category, sub.qid) !in acct.solved
      && r.account.solved == acct.solved + {(sub.category, sub.qid)}
      && r.account.score == AddScore(acct.score, sub.point)
      && r.notices == NoticesFor(Find(data, sub.category, sub.qid).value)
    ensures r.verdict in {Correct, AlreadySolved, DbError} <==>
      Truthy(session) && Find(data, sub.category, sub.qid).Some?
      && Judge(Find(data, sub.category, sub.qid).value, sub.answer, host, near) == Some(true)
    ensures r.verdict == DbError <==>
      !lookupOk && Truthy(session) && Find(data, sub.category, sub.qid).Some?
      && Judge(Find(data, sub.category, sub.qid).value, sub.answer, host, near) == Some(true)
    ensures r.verdict == AlreadySolved ==> (sub.category, sub.qid) in acct.solved
  {
    if !Truthy(session) then AnswerResult(Unauthorized, acct, [])
    else
      var q := Find(data, sub.category, sub.qid);
      if q.None? then AnswerResult(QuestionNotFound, acct, [])
      else
        var verdict := Judge(q.value, sub.answer, host, near);
        if verdict.None? then AnswerResult(Crashed, acct, [])
        else if !verdict.value then AnswerResult(Incorrect, acct, [])
        else if !lookupOk then AnswerResult(DbError, acct, [])
        else if (sub.category, sub.qid) in acct.solved then AnswerResult(AlreadySolved, acct, [])
        else
          var after := Account(acct.solved + {(sub.category, sub.qid)}, AddScore(acct.score, sub.point));
          AnswerResult(Correct, after, NoticesFor(q.value))
  }

  /** Submitting the same correct answer again reports it as already solved and changes
      nothing: a question scores at most once. */
  lemma SecondCorrectAnswerScoresNothing(session: Option<string>, data: QuizData, host: string, sub: Submission,
                                         acct: Account, lookupOk: bool, near: (Field, string, real) -> bool)
    requires CheckAnswer(session, data, host, sub, acct, lookupOk, near).verdict == Correct
    ensures var first := CheckAnswer(session, data, host, sub, acct, lookupOk, near);
      var second := CheckAnswer(session, data, host, sub, first.account, lookupOk, near);
      second.verdict == AlreadySolved && second.account == first.account && second.notices == []
  {
  }

  // ---------------------------------------------------------------------------
  // File download
  // ---------------------------------------------------------------------------

  /** `path.join` below the files directory: empty segments vanish and the others keep
      their order (`PathOfAppend`). */
  function PathOf(segments: seq<string>): (p: seq<string>)
    ensures forall s :: s in p <==> s in segments && s != ""
    ensures forall s :: multiset(p)[s] == if s == "" then 0 else multiset(segments)[s]
    ensures (forall i :: 0 <= i < |segments| ==> segments[i] != "") ==> p == segments
  {
    if |segments| == 0 then []
    else
      assert segments == [segments[0]] + segments[1..];
      (if segments[0] != "" then [segments[0]] else []) + PathOf(segments[1..])
  }

  /** Joining a concatenation joins each part, in order. */
  lemma {:induction false} PathOfAppend(a: seq<string>, b: seq<string>)
    ensures PathOf(a + b) == PathOf(a) + PathOf(b)
  {
    if |a| == 0 {
      assert a + b == b;
    } else {
      var head := if a[0] != "" then [a[0]] else [];
      assert (a + b)[0] == a[0];
      assert (a + b)[1..] == a[1..] + b;
      assert PathOf(a + b) == head + PathOf(a[1..] + b);
      assert PathOf(a) == head + PathOf(a[1..]);
      PathOfAppend(a[1..], b);
      ConcatAssoc(head, PathOf(a[1..]), PathOf(b));
    }
  }

  /** The old category names and the directories their files live in. */
  function MappedDirectory(category: string): Option<string> {
    if category == "Easy1" then Some("beginner1")
    else if category == "Easy2" then Some("beginner2")
    else None
  }

  /** The paths tried for `/file/:category/:filename`, in order. */
  function Candidates(category: string, filename: string): (c: seq<seq<string>>)
    ensures var cat := SanitizeFilename(category); var file := SanitizeFilename(filename);
      && |c| == (if MappedDirectory(cat).Some? then 3 else 2)
      && c[|c| - 2] == PathOf([cat, file])
      && c[|c| - 1] == PathOf([file])
      && (MappedDirectory(cat).Some? ==> c[0] == PathOf([MappedDirectory(cat).value, file]))
  {
    var cat := SanitizeFilename(category);
    var file := SanitizeFilename(filename);
    var base := [PathOf([cat, file]), PathOf([file])];
    match MappedDirectory(cat)
    case Some(dir) => [PathOf([dir, file])] + base
    case None => base
  }

  /** A segment `path.resolve` keeps as one step down. */
  predicate Plain(s: string) {
    s != "." && s != ".." && '/' !in s
  }

  /** A path that resolves inside the files directory. */
  predicate StaysInside(path: seq<string>) {
    forall s :: s in path ==> Plain(s)
  }

  datatype FileOutcome = Serve(path: seq<string>) | Forbidden | FileNotFound

  function FirstExisting(cands: seq<seq<string>>, exists_: seq<string> -> bool): (r: Option<nat>)
    ensures r.Some? ==>
      && r.value < |cands| && exists_(cands[r.value])
      && forall j :: 0 <= j < r.value ==> !exists_(cands[j])
    ensures r.None? ==> forall j :: 0 <= j < |cands| ==> !exists_(cands[j])
  {
    if |cands| == 0 then None
    else if exists_(cands[0]) then Some(0)
    else match FirstExisting(cands[1..], exists_)
      case None => None
      case Some(k) => Some(k + 1)
  }

  /** `GET /file/:category/:filename`: the first candidate that exists is sent, unless it
      would resolve outside the files directory. */
  function ServeFile(category: string, filename: string, exists_: seq<string> -> bool): (r: FileOutcome)
    ensures r.Serve? ==>
      var c := Candidates(category, filename);
      exists i :: 0 <= i < |c| && c[i] == r.path && exists_(c[i]) && forall j :: 0 <= j < i ==> !exists_(c[j])
    ensures r.FileNotFound? <==> forall p :: p in Candidates(category, filename) ==> !exists_(p)
  {
    ServeFirst(Candidates(category, filename), exists_)
  }

  /** Sends the first of the candidate paths `c` that exists, unless it leaves the files
      directory. */
  function ServeFirst(c: seq<seq<string>>, exists_: seq<string> -> bool): (r: FileOutcome)
    ensures r.Serve? ==>
      exists i :: 0 <= i < |c| && c[i] == r.path && exists_(c[i]) && forall j :: 0 <= j < i ==> !exists_(c[j])
    ensures r.FileNotFound? <==> forall p :: p in c ==> !exists_(p)
  {
    match FirstExisting(c, exists_)
    case None =>
      assert forall p :: p in c ==> !exists_(p) by {
        forall p | p in c ensures !exists_(p) {
          var j :| 0 <= j < |c| && c[j] == p;
        }
      }
      FileNotFound
    case Some(i) =>
      assert c[i] in c;
      if StaysInside(c[i]) then Serve(c[i]) else Forbidden
  }

  /** A sanitised name is a plain path segment. */
  lemma SanitizedIsPlain(name: string)
    ensures Plain(SanitizeFilename(name))
  {
    var s := SanitizeFilename(name);
    assert |s| > 0 ==> s[0] != '.';
    assert forall i :: 0 <= i < |s| ==> IsNameChar(s[i]);
  }

  lemma PlainSegmentsStayInside(a: string, b: string)
    requires Plain(a) && Plain(b)
    ensures StaysInside(PathOf([a, b])) && StaysInside(PathOf([b]))
  {
  }

  /** Every candidate path is made of plain segments. */
  lemma CandidatesStayInside(category: string, filename: string)
    ensures forall p :: p in Candidates(category, filename) ==> StaysInside(p)
  {
    var cat := SanitizeFilename(category);
    var file := SanitizeFilename(filename);
    SanitizedIsPlain(category);
    SanitizedIsPlain(filename);
    PlainSegmentsStayInside(cat, file);
    var c := Candidates(category, filename);
    if MappedDirectory(cat).Some? {
      var dir := MappedDirectory(cat).value;
      MappedIsPlain(cat);
      PlainSegmentsStayInside(dir, file);
    }
    forall p | p in c ensures StaysInside(p) {
      var i :| 0 <= i < |c| && c[i] == p;
      assert i == 0 || i == |c| - 2 || i == |c| - 1;
    }
  }

  /** The mapped directories are plain segments. */
  lemma MappedIsPlain(category: string)
    requires MappedDirectory(category).Some?
    ensures Plain(MappedDirectory(category).value)
  {
    var dir := MappedDirectory(category).value;
    assert dir == "beginner1" || dir == "beginner2";
    forall i | 0 <= i < |dir| ensures dir[i] != '/' {
      assert dir[i] in "beginner12";
    }
  }

  /** Sanitising both parameters makes the traversal check unreachable. */
  lemma NeverForbidden(category: string, filename: string, exists_: seq<string> -> bool)
    ensures ServeFile(category, filename, exists_) != Forbidden
  {
    CandidatesStayInside(category, filename);
    var c := Candidates(category, filename);
    var k := FirstExisting(c, exists_);
    if k.Some? {
      assert c[k.value] in c;
    }
  }
}
