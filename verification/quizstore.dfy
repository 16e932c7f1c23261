/** The question bank (`data/quizData.json`) as a value: category key → question id →
    question. Every route that reads or writes the bank works on this shape. */
module QuizStore {
  import opened Wrappers

  /** The stored `answer`: one string, a list of accepted strings, or absent. */
  datatype Expected = Missing | Single(text: string) | Several(texts: seq<string>)

  datatype Question = Question(
    answer: Expected,
    title: string,
    desc: string,
    point: int,
    answerType: Option<string>,
    coordinateTolerance: Option<real>,
    hint: Option<seq<string>>,
    files: Option<seq<string>>,
    explanation: Option<string>,
    categoryId: Option<string>)

  type QuizData = map<string, map<string, Question>>

  /** `data[category]?.[qid]` */
  function Find(data: QuizData, category: string, qid: string): (q: Option<Question>)
    ensures q.Some? <==> category in data && qid in data[category]
    ensures q.Some? ==> q.value == data[category][qid]
  {
    if category in data && qid in data[category] then Some(data[category][qid]) else None
  }

  /** `data[category][qid] = question`, creating the category when it is missing. */
  function Put(data: QuizData, category: string, qid: string, question: Question): (r: QuizData)
    ensures Find(r, category, qid) == Some(question)
    ensures r.Keys == data.Keys + {category}
    ensures forall c, k :: (c != category || k != qid) ==> Find(r, c, k) == Find(data, c, k)
  {
    var inner := if category in data then data[category] else map[];
    data[category := inner[qid := question]]
  }

  /** `delete data[category][qid]`; the category itself stays, possibly empty. */
  function Remove(data: QuizData, category: string, qid: string): (r: QuizData)
    requires category in data
    ensures Find(r, category, qid) == None
    ensures r.Keys == data.Keys
    ensures forall c, k :: (c != category || k != qid) ==> Find(r, c, k) == Find(data, c, k)
  {
    data[category := data[category] - {qid}]
  }
}
