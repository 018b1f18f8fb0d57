// The question/answer database: a table of rows with a Question and an
// Answer column, turned into two parallel lists that stay aligned by index.
module Database {

  /** One row of the table: its Question cell and its Answer cell. */
  datatype Row = Row(question: string, answer: string)

  /** Reads two parallel lists back into rows, pairing the entries at the
      same index: the inverse of BuildLists. */
  function Zip(questions: seq<string>, answers: seq<string>): (rows: seq<Row>)
    requires |questions| == |answers|
    ensures |rows| == |questions|
    ensures forall i :: 0 <= i < |rows| ==> rows[i] == Row(questions[i], answers[i])
    decreases |questions|
  {
    if |questions| == 0 then []
    else
      var n := |questions| - 1;
      Zip(questions[..n], answers[..n]) + [Row(questions[n], answers[n])]
  }

  /** Walks the rows in table order and appends each row's Question to the
      question list and its Answer to the answer list. */
  method BuildLists(rows: seq<Row>) returns (questions: seq<string>, answers: seq<string>)
    ensures |questions| == |rows| && |answers| == |rows|
    ensures forall i :: 0 <= i < |rows| ==> questions[i] == rows[i].question && answers[i] == rows[i].answer
    ensures Zip(questions, answers) == rows
  {
    questions, answers := [], [];
    for i := 0 to |rows|
      invariant |questions| == i && |answers| == i
      invariant forall j :: 0 <= j < i ==> questions[j] == rows[j].question && answers[j] == rows[j].answer
    {
      questions := questions + [rows[i].question];
      answers := answers + [rows[i].answer];
    }
  }
}
