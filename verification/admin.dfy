/** The administrator's question editing (`routes/admin.js`): the upload double check,
    `/addQuiz` with its two input paths and the question it builds, and `/deleteQuiz`.
    The question bank is the `QuizData` value; the file-system side effects (writing the
    JSON file, unlinking a rejected upload) are not modelled. */
module Admin {
  import opened Wrappers
  import opened JsText
  import opened FileNames
  import opened QuizStore
  import Auth

  // ---------------------------------------------------------------------------
  // deleteQuiz
  // ---------------------------------------------------------------------------

  const MissingKeysMessage := "カテゴリとIDが必要です"
  const InvalidKeysMessage := "無効なカテゴリまたはIDです"
  const NotFoundMessage := "該当の問題が見つかりません"

  datatype DeleteOutcome =
    | DeleteRejected(message: string)     // status 400
    | DeleteNotFound                      // status 404
    | Deleted(data: QuizData)

  /** A key survives the equality check only if it is a string that sanitising leaves
      unchanged; `String(x) !== x` for every non-string. */
  predicate KeyUnchanged(f: Field) {
    f.Text? && SanitizeFilename(f.s) == f.s
  }

  /** `DELETE /deleteQuiz` */
  function DeleteQuiz(data: QuizData, category: Field, qid: Field): (r: DeleteOutcome)
    ensures r == DeleteRejected(MissingKeysMessage) <==> !FieldTruthy(category) || !FieldTruthy(qid)
    ensures r == DeleteRejected(InvalidKeysMessage) <==>
      FieldTruthy(category) && FieldTruthy(qid) && !(KeyUnchanged(category) && KeyUnchanged(qid))
    ensures r.Deleted? ==>
      && Find(data, category.s, qid.s).Some?
      && Find(r.data, category.s, qid.s).None?
      && r.data.Keys == data.Keys
      && forall c, k :: (c != category.s || k != qid.s) ==> Find(r.data, c, k) == Find(data, c, k)
    ensures r.DeleteNotFound? <==>
      FieldTruthy(category) && FieldTruthy(qid) && KeyUnchanged(category) && KeyUnchanged(qid)
      && Find(data, category.s, qid.s).None?
  {
    if !FieldTruthy(category) || !FieldTruthy(qid) then DeleteRejected(MissingKeysMessage)
    else if !KeyUnchanged(category) || !KeyUnchanged(qid) then DeleteRejected(InvalidKeysMessage)
    else if Find(data, category.s, qid.s).Some? then Deleted(Remove(data, category.s, qid.s))
    else DeleteNotFound
  }

  /** The keys that get past the equality check are exactly the safe file names, so a
      deleted entry always has keys of that shape. */
  lemma DeleteAcceptsSafeNames(data: QuizData, category: Field, qid: Field)
    requires FieldTruthy(category) && FieldTruthy(qid)
    ensures !DeleteQuiz(data, category, qid).DeleteRejected? <==>
      category.Text? && qid.Text? && IsSafeName(category.s) && IsSafeName(qid.s)
  {
    KeyUnchangedIsSafe(category);
    KeyUnchangedIsSafe(qid);
    assert !DeleteQuiz(data, category, qid).DeleteRejected? <==> KeyUnchanged(category) && KeyUnchanged(qid);
  }

  lemma KeyUnchangedIsSafe(f: Field)
    ensures KeyUnchanged(f) <==> f.Text? && IsSafeName(f.s)
  {
    if f.Text? {
      SanitizeFixpoint(f.s);
    }
  }

  // ---------------------------------------------------------------------------
  // addQuiz: inputs
  // ---------------------------------------------------------------------------

  /** One stored upload: the client's name and the name the storage gave it. */
  datatype Upload = Upload(originalname: string, filename: string)

  /** `point` as it arrives: absent, a string, or a number. */
  datatype PointValue = NoPoint | PointText(text: string) | PointNumber(n: int)

  /** `parseInt(point) || 0` */
  function PointOf(p: PointValue): (n: int)
    ensures p.PointNumber? ==> n == p.n
    ensures p.NoPoint? ==> n == 0
    ensures p.PointText? ==> n == ParseInt(p.text).GetOr(0)
  {
    match p
    case NoPoint => 0
    case PointText(t) => ParseInt(t).GetOr(0)
    case PointNumber(n) => n
  }

  /** The question fields after they were gathered from either input path. Text fields
      are strings when present; `coordinateTolerance` is the parsed value of a truthy
      field. */
  datatype Payload = Payload(
    category: Option<string>, qid: Option<string>, title: Option<string>, desc: Option<string>,
    answer: Option<string>, point: PointValue, hint: Option<seq<string>>,
    answerType: Option<string>, coordinateTolerance: Option<real>, explanation: Option<string>)

  /** `hint` in a form body: absent, one string, or repeated fields. */
  datatype HintBody = NoHint | HintText(text: string) | HintList(items: seq<string>)

  datatype FormBody = FormBody(
    category: Option<string>, qid: Option<string>, title: Option<string>, desc: Option<string>,
    answer: Option<string>, point: Option<string>, hint: HintBody,
    answerType: Option<string>, coordinateTolerance: Option<real>, explanation: Option<string>)

  /** Where the fields come from: the `quizData` JSON field (`None` when it does not
      parse), or the form body itself. */
  datatype Source = JsonField(parsed: Option<Payload>) | Form(body: FormBody)

  /** The non-blank strings, in order (`NonBlankAppend` states the order). */
  function NonBlank(xs: seq<string>): (r: seq<string>)
    ensures |r| <= |xs|
    ensures forall x :: x in r ==> x in xs && Trim(x) != ""
    ensures forall x :: x in xs && Trim(x) != "" ==> x in r
    ensures forall x :: multiset(r)[x] == if Trim(x) != "" then multiset(xs)[x] else 0
  {
    if |xs| == 0 then []
    else
      assert xs == [xs[0]] + xs[1..];
      (if Trim(xs[0]) != "" then [xs[0]] else []) + NonBlank(xs[1..])
  }

  /** Filtering a concatenation filters each part and keeps them in order, so the
      kept strings keep their relative order. */
  lemma {:induction false} NonBlankAppend(a: seq<string>, b: seq<string>)
    ensures NonBlank(a + b) == NonBlank(a) + NonBlank(b)
  {
    if |a| == 0 {
      assert a + b == b;
    } else {
      var head := if Trim(a[0]) != "" then [a[0]] else [];
      assert (a + b)[0] == a[0];
      assert (a + b)[1..] == a[1..] + b;
      assert NonBlank(a + b) == head + NonBlank(a[1..] + b);
      assert NonBlank(a) == head + NonBlank(a[1..]);
      NonBlankAppend(a[1..], b);
      ConcatAssoc(head, NonBlank(a[1..]), NonBlank(b));
    }
  }

  function TrimAll(xs: seq<string>): (r: seq<string>)
    ensures |r| == |xs| && forall i :: 0 <= i < |xs| ==> r[i] == Trim(xs[i])
  {
    seq(|xs|, i requires 0 <= i < |xs| => Trim(xs[i]))
  }

  /** The form path's hint list before trimming: an array as is, a non-empty string split
      at commas, otherwise nothing. */
  function HintItems(h: HintBody): (r: seq<string>)
    ensures h.HintText? && h.text != "" ==> |r| >= 1 && Join(r, ',') == h.text
  {
    match h
    case NoHint => []
    case HintText(t) =>
      if t != "" then
        JoinSplit(t, ',');
        Split(t, ',')
      else []
    case HintList(xs) => xs
  }

  /** The form path (lines 119-134): the same fields, `point` already parsed (so never
      undefined; `parseInt` of a missing field is NaN, hence 0), hints trimmed with
      blanks dropped. */
  function PayloadOfForm(b: FormBody): (p: Payload)
    ensures p.category == b.category && p.qid == b.qid && p.title == b.title && p.desc == b.desc
    ensures p.answer == b.answer && p.answerType == b.answerType && p.explanation == b.explanation
    ensures p.coordinateTolerance == b.coordinateTolerance
    ensures p.point.PointNumber? && !p.point.NoPoint?
    ensures b.point.Some? ==> p.point.n == ParseInt(b.point.value).GetOr(0)
    ensures b.point.None? ==> p.point.n == 0
    ensures p.hint == Some(NonBlank(TrimAll(HintItems(b.hint))))
    ensures p.hint.Some? && forall x :: x in p.hint.value ==> x == Trim(x) && x != ""
  {
    var hints := TrimAll(HintItems(b.hint));
    var kept := NonBlank(hints);
    assert forall x :: x in kept ==> x == Trim(x) && x != "" by {
      forall x | x in kept ensures x == Trim(x) && x != "" {
        var i :| 0 <= i < |hints| && hints[i] == x;
        TrimIdempotent(HintItems(b.hint)[i]);
      }
    }
    Payload(b.category, b.qid, b.title, b.desc, b.answer,
            PointNumber(if b.point.Some? then PointOf(PointText(b.point.value)) else PointOf(NoPoint)),
            Some(kept), b.answerType, b.coordinateTolerance, b.explanation)
  }

  // ---------------------------------------------------------------------------
  // addQuiz: the stored question
  // ---------------------------------------------------------------------------

  /** Whether the stored question gets an `answerType`: present, not "flag". */
  predicate KeepsAnswerType(p: Payload) {
    Truthy(p.answerType) && p.answerType.value != "flag"
  }

  /** The `files` of the stored question. */
  function FilesOf(uploads: seq<Upload>, existing: Option<Question>): (files: seq<string>)
    ensures |uploads| > 0 ==> |files| == |uploads| && forall i :: 0 <= i < |uploads| ==>
      files[i] == SanitizeFilename(if uploads[i].filename != "" then uploads[i].filename else uploads[i].originalname)
    ensures |uploads| == 0 && existing.Some? && existing.value.files.Some? ==> files == existing.value.files.value
    ensures |uploads| == 0 && !(existing.Some? && existing.value.files.Some?) ==> files == []
  {
    if |uploads| > 0 then
      seq(|uploads|, i requires 0 <= i < |uploads| =>
        SanitizeFilename(OrElse(Some(uploads[i].filename), uploads[i].originalname)))
    else if existing.Some? && existing.value.files.Some? then existing.value.files.value
    else []
  }

  /** `questionData` (lines 167-200), for a payload that passed the required-field check.
      It never carries a `categoryId`. */
  function BuildQuestion(p: Payload, uploads: seq<Upload>, existing: Option<Question>): (q: Question)
    requires p.answer.Some? && p.title.Some? && p.desc.Some?
    ensures q.answer == Single(Trim(p.answer.value)) && q.title == Trim(p.title.value) && q.desc == Trim(p.desc.value)
    ensures q.point == PointOf(p.point)
    ensures q.answerType.Some? <==> KeepsAnswerType(p)
    ensures q.answerType.Some? ==> q.answerType == p.answerType
    ensures q.coordinateTolerance.Some? <==> q.answerType == Some("coordinates") && p.coordinateTolerance.Some?
    ensures q.hint.Some? <==> p.hint.Some? && |p.hint.value| > 0
    ensures q.hint.Some? ==> q.hint.value == NonBlank(p.hint.value)
    ensures q.files == Some(FilesOf(uploads, existing))
    ensures q.explanation.Some? <==> p.explanation.Some? && Trim(p.explanation.value) != ""
    ensures q.explanation.Some? ==> q.explanation.value == Trim(p.explanation.value)
    ensures q.categoryId.None?
  {
    var answerType := if KeepsAnswerType(p) then p.answerType else None;
    var tolerance := if answerType == Some("coordinates") then p.coordinateTolerance else None;
    var hint := if p.hint.Some? && |p.hint.value| > 0 then Some(NonBlank(p.hint.value)) else None;
    var explanation :=
      if Truthy(p.explanation) && Trim(p.explanation.value) != "" then Some(Trim(p.explanation.value)) else None;
    Question(Single(Trim(p.answer.value)), Trim(p.title.value), Trim(p.desc.value), PointOf(p.point),
             answerType, tolerance, hint, Some(FilesOf(uploads, existing)), explanation, None)
  }

  // ---------------------------------------------------------------------------
  // addQuiz: the handler
  // ---------------------------------------------------------------------------

  const BadFileMessage := "無効なファイル名です"
  const BadFormatMessage := "データ形式が不正です"
  const MissingFieldsMessage := "必須項目（カテゴリ、問題ID、タイトル、説明文、答えフラグ、ポイント）が不足しています"

  datatype AddOutcome = AddRejected(message: string) | Saved(data: QuizData)

  /** The double check on each upload: stored under its sanitised name and of an
      allowed type. */
  predicate UploadOk(u: Upload) {
    u.filename == SanitizeFilename(u.originalname) && IsValidFile(u.originalname)
  }

  predicate HasRequired(p: Payload) {
    Truthy(p.category) && Truthy(p.qid) && Truthy(p.title) && Truthy(p.desc) && Truthy(p.answer)
    && !p.point.NoPoint?
  }

  function PayloadOf(source: Source): Option<Payload> {
    match source
    case JsonField(parsed) => parsed
    case Form(body) => Some(PayloadOfForm(body))
  }

  /** The checks before anything is stored, in order; `None` when all pass. */
  function AddRejection(uploads: seq<Upload>, validationError: Option<string>, source: Source): (m: Option<string>)
    ensures m.None? <==>
      validationError.None? && (forall i :: 0 <= i < |uploads| ==> UploadOk(uploads[i]))
      && PayloadOf(source).Some? && HasRequired(PayloadOf(source).value)
  {
    if validationError.Some? then validationError
    else if exists i :: 0 <= i < |uploads| && !UploadOk(uploads[i]) then Some(BadFileMessage)
    else if PayloadOf(source).None? then Some(BadFormatMessage)
    else if !HasRequired(PayloadOf(source).value) then Some(MissingFieldsMessage)
    else None
  }

  /** `POST /addQuiz` as written: the trimmed-and-cut values are assigned back into the
      payload after `category`, `qid`, `title`, `desc` and `answer` were read out of it,
      so the question is filed under the raw keys and built from the raw texts. */
  function AddQuiz(data: QuizData, uploads: seq<Upload>, validationError: Option<string>, source: Source)
    : (r: AddOutcome)
    ensures r.AddRejected? <==> AddRejection(uploads, validationError, source).Some?
    ensures r.AddRejected? ==> r.message == AddRejection(uploads, validationError, source).value
    ensures r.Saved? ==>
      var p := PayloadOf(source).value;
      var c := p.category.value;
      var k := p.qid.value;
      && Find(r.data, c, k) == Some(BuildQuestion(p, uploads, Find(data, c, k)))
      && forall c', k' :: (c' != c || k' != k) ==> Find(r.data, c', k') == Find(data, c', k')
  {
    var rejection := AddRejection(uploads, validationError, source);
    if rejection.Some? then AddRejected(rejection.value)
    else
      var p := PayloadOf(source).value;
      var c := p.category.value;
      var k := p.qid.value;
      Saved(Put(data, c, k, BuildQuestion(p, uploads, Find(data, c, k))))
  }

  /** The discrepancy: a category with leading white space is filed under a key that
      differs from its sanitised form. */
  lemma AddQuizKeepsRawCategory(data: QuizData, uploads: seq<Upload>, source: Source)
    requires AddQuiz(data, uploads, None, source).Saved?
    requires var p := PayloadOf(source).value; IsSpace(p.category.value[0])
    ensures var p := PayloadOf(source).value;
      && p.category.value in AddQuiz(data, uploads, None, source).data
      && p.category.value != Auth.SanitizeInput(Text(p.category.value), 50)
  {
    var p := PayloadOf(source).value;
    var c := p.category.value;
    assert Find(AddQuiz(data, uploads, None, source).data, c, p.qid.value).Some?;
    var t := Auth.SanitizeInput(Text(c), 50);
    assert |t| > 0 ==> t[0] == Trim(c)[0];
  }

  /** The payload with the sanitised values the handler computes (lines 151-155). */
  function Sanitised(p: Payload): (s: Payload)
    requires HasRequired(p)
    ensures s.category.Some? && s.qid.Some? && s.title.Some? && s.desc.Some? && s.answer.Some?
    ensures Length(s.category.value) <= 50 && Length(s.qid.value) <= 50
    ensures Length(s.title.value) <= 200 && Length(s.desc.value) <= 5000
    ensures Length(s.answer.value) <= 500
  {
    p.(category := Some(Auth.SanitizeInput(Text(p.category.value), 50)),
       qid := Some(Auth.SanitizeInput(Text(p.qid.value), 50)),
       title := Some(Auth.SanitizeInput(Text(p.title.value), 200)),
       desc := Some(Auth.SanitizeInput(Text(p.desc.value), 5000)),
       answer := Some(Auth.SanitizeInput(Text(p.answer.value), 500)))
  }

  /** `/addQuiz` as evidently intended: the sanitised values are the ones used for the
      keys and the stored texts, so every stored key and text respects its limit. */
  function AddQuizSanitised(data: QuizData, uploads: seq<Upload>, validationError: Option<string>, source: Source)
    : (r: AddOutcome)
    ensures r.AddRejected? <==> AddRejection(uploads, validationError, source).Some?
    ensures r.Saved? ==>
      var p := PayloadOf(source).value;
      var c := Auth.SanitizeInput(Text(p.category.value), 50);
      var k := Auth.SanitizeInput(Text(p.qid.value), 50);
      var q := Find(r.data, c, k);
      && Length(c) <= 50 && Length(k) <= 50
      && q.Some? && q.value.answer.Single?
      && Length(q.value.answer.text) <= 500 && Length(q.value.title) <= 200
      && Length(q.value.desc) <= 5000
      && forall c', k' :: (c' != c || k' != k) ==> Find(r.data, c', k') == Find(data, c', k')
  {
    var rejection := AddRejection(uploads, validationError, source);
    if rejection.Some? then AddRejected(rejection.value)
    else
      var s := Sanitised(PayloadOf(source).value);
      var c := s.category.value;
      var k := s.qid.value;
      var q := BuildQuestion(s, uploads, Find(data, c, k));
      TrimCutBound(s.answer.value, 500);
      TrimCutBound(s.title.value, 200);
      TrimCutBound(s.desc.value, 5000);
      Saved(Put(data, c, k, q))
  }

  /** Trimming never lengthens a string, counted in code units. */
  lemma TrimCutBound(s: string, n: nat)
    requires Length(s) <= n
    ensures Length(Trim(s)) <= n
  {
    var t, r := TrimStart(s), Trim(s);
    assert t == s[|s| - |t|..|s|];
    assert r == t[0..|r|];
    LengthOfSlice(s, |s| - |t|, |s|);
    LengthOfSlice(t, 0, |r|);
  }

  /** Storage names come from sanitising the client's name, so uploads that the storage
      named and that have an allowed type always pass the double check. */
  lemma StoredUploadsPass(name: string)
    requires IsValidFile(name)
    ensures UploadOk(Upload(name, SanitizeFilename(name)))
  {
  }
}
