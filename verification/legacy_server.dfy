/** The first, single-file version of the server (`server.js`): a session check, a
    case-insensitive answer check against a fixed answer table worth 10 points, and the
    score query. The users table maps a user id to its score column, which SQL may
    hold as NULL. */
module LegacyServer {
  import opened Wrappers
  import opened JsText

  /** `quizAnswers`: question id to answer. */
  type Answers = map<string, string>

  /** user id to the `score` column (`None` is NULL). */
  type Scores = map<string, Option<int>>

  const PointsPerAnswer: int := 10

  /** `String(answer)`: a string is itself, a missing field is "undefined", and any other
      JSON value is rendered as `rendered`. */
  function AsString(f: Field, rendered: string): (r: string)
    ensures f.Text? ==> r == f.s
    ensures f.Absent? ==> r == "undefined"
  {
    match f
    case Absent => "undefined"
    case Text(s) => s
    case NonText(_, _) => rendered
  }

  /** Trimmed and lower-cased, the form both sides are compared in. */
  function Normal(s: string): string {
    Lower(Trim(s))
  }

  datatype CheckReply =
    | Unauthorized                          // 401 from requireLogin
    | NoQuestion                            // correct: false, no such question
    | Right(point: int, score: Option<int>) // correct: true with the new score
    | Wrong(point: int, score: Option<int>) // correct: false, point 0
    | Crash                                 // `row.score` on a missing row throws inside the
                                            // database callback, which ends the process

  /** `POST /checkAnswer`: returns the reply and the scores table afterwards. */
  function CheckAnswer(session: Option<string>, answers: Answers, scores: Scores, qid: string,
                       answer: Field, rendered: string): (r: (CheckReply, Scores))
    ensures r.0 == Unauthorized <==> !Truthy(session)
    ensures r.0 == NoQuestion <==> Truthy(session) && !Truthy(if qid in answers then Some(answers[qid]) else None)
    ensures !r.0.Right? && !r.0.Crash? ==> r.1 == scores
    ensures r.0.Right? || r.0.Crash? <==>
      Truthy(session) && qid in answers && answers[qid] != ""
      && Normal(AsString(answer, rendered)) == Normal(answers[qid])
    ensures r.0.Right? ==>
      var id := session.value;
      && id in scores && r.0.point == PointsPerAnswer
      && r.1 == scores[id := AddPoints(scores[id], PointsPerAnswer)] && r.0.score == r.1[id]
    ensures r.0.Crash? ==> session.value !in scores && r.1 == scores
    ensures r.0.Wrong? ==>
      r.0.point == 0 && r.0.score == (if session.value in scores then scores[session.value] else Some(0))
  {
    if !Truthy(session) then (Unauthorized, scores)
    else
      var id := session.value;
      if qid !in answers || answers[qid] == "" then (NoQuestion, scores)
      else if Normal(AsString(answer, rendered)) == Normal(answers[qid]) then
        if id in scores then
          var after := scores[id := AddPoints(scores[id], PointsPerAnswer)];
          (Right(PointsPerAnswer, after[id]), after)
        else (Crash, scores)
      else (Wrong(0, if id in scores then scores[id] else Some(0)), scores)
  }

  /** `score = score + ?` on a column that may be NULL. */
  function AddPoints(score: Option<int>, point: int): (r: Option<int>)
    ensures r.Some? <==> score.Some?
    ensures r.Some? ==> r.value == score.value + point
  {
    match score
    case None => None
    case Some(v) => Some(v + point)
  }

  /** A correct answer raises a non-NULL score by exactly 10 and touches no other user. */
  lemma CorrectAddsTen(session: Option<string>, answers: Answers, scores: Scores, qid: string,
                       answer: Field, rendered: string)
    requires CheckAnswer(session, answers, scores, qid, answer, rendered).0.Right?
    ensures var (reply, after) := CheckAnswer(session, answers, scores, qid, answer, rendered);
      var id := session.value;
      && after.Keys == scores.Keys
      && (scores[id].Some? ==> after[id] == Some(scores[id].value + 10))
      && forall u :: u in scores && u != id ==> after[u] == scores[u]
  {
  }

  lemma LowerOfLower(s: string)
    ensures Lower(Lower(s)) == Lower(s)
  {
  }

  lemma {:induction false} TrimStartOfLower(s: string)
    ensures TrimStart(Lower(s)) == Lower(TrimStart(s))
    decreases |s|
  {
    if |s| > 0 {
      assert Lower(s)[1..] == Lower(s[1..]);
      assert IsSpace(Lower(s)[0]) <==> IsSpace(s[0]);
      TrimStartOfLower(s[1..]);
    }
  }

  lemma {:induction false} TrimEndOfLower(s: string)
    ensures TrimEnd(Lower(s)) == Lower(TrimEnd(s))
    decreases |s|
  {
    if |s| > 0 {
      assert Lower(s)[..|s| - 1] == Lower(s[..|s| - 1]);
      assert IsSpace(Lower(s)[|s| - 1]) <==> IsSpace(s[|s| - 1]);
      TrimEndOfLower(s[..|s| - 1]);
    }
  }

  /** Lower-casing before the check never changes the verdict: the comparison ignores
      ASCII case. */
  lemma NormalIgnoresCase(s: string)
    ensures Normal(Lower(s)) == Normal(s)
  {
    TrimStartOfLower(s);
    TrimEndOfLower(TrimStart(s));
    LowerOfLower(Trim(s));
  }

  lemma CheckIgnoresCase(session: Option<string>, answers: Answers, scores: Scores, qid: string,
                         answer: string, rendered: string)
    ensures CheckAnswer(session, answers, scores, qid, Text(Lower(answer)), rendered)
         == CheckAnswer(session, answers, scores, qid, Text(answer), rendered)
  {
    NormalIgnoresCase(answer);
  }

  datatype ScoreReply = ScoreUnauthorized | ScoreReply(success: bool, score: Option<int>)

  /** `GET /getScore`: the stored score, or `success: false` with 0 for a missing row. */
  function GetScore(session: Option<string>, scores: Scores): (r: ScoreReply)
    ensures r.ScoreUnauthorized? <==> !Truthy(session)
    ensures r.ScoreReply? ==> (r.success <==> session.value in scores)
    ensures r.ScoreReply? && r.success ==> r.score == scores[session.value]
    ensures r.ScoreReply? && !r.success ==> r.score == Some(0)
  {
    if !Truthy(session) then ScoreUnauthorized
    else if session.value in scores then ScoreReply(true, scores[session.value])
    else ScoreReply(false, Some(0))
  }

  /** The score a correct answer reports is the one `/getScore` returns afterwards. */
  lemma ReportedScoreIsStored(session: Option<string>, answers: Answers, scores: Scores, qid: string,
                              answer: Field, rendered: string)
    requires CheckAnswer(session, answers, scores, qid, answer, rendered).0.Right?
    ensures var (reply, after) := CheckAnswer(session, answers, scores, qid, answer, rendered);
      GetScore(session, after) == ScoreReply(true, reply.score)
  {
  }
}
