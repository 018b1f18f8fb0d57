// Selecting the stored question closest to a query: one distance per
// candidate in list order, the first index of the smallest distance, a
// confidence flag from an inclusive threshold, and the question and answer
// read at that one index.
module MatchSelection {
  import opened Database

  /** A distance of at most this much counts as a confident match. */
  const Threshold: real := 0.8

  /** The distance between a stored question (first argument) and the query
      (second argument). The sentence encoder behind it is not modelled, so it
      is any total function; no symmetry or zero self-distance is assumed. */
  type Distance = (string, string) -> real

  /** The selection's answer: a confidence flag (0 or 1), the matched
      question and its answer. */
  datatype Match = Match(confidence: int, question: string, answer: string)

  /** Why no match can be returned: the distance list is empty (no minimum
      exists), or the answer list has no entry at the selected index. */
  datatype Error = NoCandidates | AnswerIndexOutOfRange

  datatype Result<T> = Ok(value: T) | Err(error: Error)

  /** The distance of every candidate to the query, in candidate order. */
  ghost function Distances(questions: seq<string>, query: string, dist: Distance): seq<real>
  {
    seq(|questions|, i requires 0 <= i < |questions| => dist(questions[i], query))
  }

  /** The distance of every row's question to the query, in row order. */
  ghost function RowDistances(rows: seq<Row>, query: string, dist: Distance): seq<real>
  {
    seq(|rows|, i requires 0 <= i < |rows| => dist(rows[i].question, query))
  }

  /** k is an index of a smallest value in d, and no earlier index holds one. */
  ghost predicate IsFirstMinimum(d: seq<real>, k: int)
  {
    0 <= k < |d|
    && (forall j :: 0 <= j < |d| ==> d[k] <= d[j])
    && (forall j :: 0 <= j < k ==> d[k] < d[j])
  }

  /** The flag is 1 when the distance is at most the threshold and 0 when it
      is above it. */
  ghost predicate ConfidenceFor(distance: real, confidence: int)
  {
    (confidence == 1 <==> distance <= Threshold)
    && (confidence == 0 <==> distance > Threshold)
  }

  /** m is the match read at index k: k is the first minimum of the
      candidates' distances, and question and answer both come from k. */
  ghost predicate SelectedAt(questions: seq<string>, answers: seq<string>, query: string, dist: Distance, k: int, m: Match)
  {
    var d := Distances(questions, query, dist);
    IsFirstMinimum(d, k) && k < |answers|
    && m.question == questions[k] && m.answer == answers[k]
    && ConfidenceFor(d[k], m.confidence)
  }

  /** At most one index is the first minimum of a list. */
  lemma FirstMinimumUnique(d: seq<real>, k1: int, k2: int)
    requires IsFirstMinimum(d, k1) && IsFirstMinimum(d, k2)
    ensures k1 == k2
  {
    // Both are minimal, so they hold equal values, and then neither
    // tie-break clause lets the other index lie before it.
    assert d[k1] == d[k2];
  }

  /** The smallest value of a non-empty list. */
  function Min(s: seq<real>): (m: real)
    requires |s| > 0
    ensures m in s
    ensures forall j :: 0 <= j < |s| ==> m <= s[j]
  {
    if |s| == 1 then s[0]
    else
      var rest := Min(s[1..]);
      if rest < s[0] then rest else s[0]
  }

  /** The earliest index at which x occurs in s. */
  function IndexOf(s: seq<real>, x: real): (k: nat)
    requires x in s
    ensures k < |s| && s[k] == x
    ensures forall j :: 0 <= j < k ==> s[j] != x
  {
    if s[0] == x then 0
    else
      assert x in s[1..] by { var i :| 0 <= i < |s| && s[i] == x; assert s[1..][i - 1] == x; }
      1 + IndexOf(s[1..], x)
  }

  /** Scores every candidate question against the query, picks the first
      index of the smallest distance and returns the confidence flag with the
      question and answer at that index. */
  method GetBestMatch(questions: seq<string>, answers: seq<string>, query: string, dist: Distance)
    returns (r: Result<Match>)
    ensures r == Err(NoCandidates) <==> |questions| == 0
    ensures r == Err(AnswerIndexOutOfRange) <==>
              exists k :: IsFirstMinimum(Distances(questions, query, dist), k) && k >= |answers|
    ensures r.Ok? <==> exists k :: IsFirstMinimum(Distances(questions, query, dist), k) && k < |answers|
    ensures r.Ok? ==> exists k :: SelectedAt(questions, answers, query, dist, k, r.value)
    ensures 0 < |questions| <= |answers| ==> r.Ok?
  {
    var differences: seq<real> := [];
    for i := 0 to |questions|
      invariant |differences| == i
      invariant forall j :: 0 <= j < i ==> differences[j] == dist(questions[j], query)
    {
      differences := differences + [dist(questions[i], query)];
    }
    ghost var d := Distances(questions, query, dist);
    assert differences == d;
    if |differences| == 0 {
      return Err(NoCandidates);
    }
    var minIndex := IndexOf(differences, Min(differences));
    assert IsFirstMinimum(d, minIndex);
    forall k | IsFirstMinimum(d, k) ensures k == minIndex {
      FirstMinimumUnique(d, k, minIndex);
    }
    if minIndex >= |answers| {
      return Err(AnswerIndexOutOfRange);
    }
    var confidence;
    if differences[minIndex] > Threshold {
      confidence := 0;
    } else {
      confidence := 1;
    }
    r := Ok(Match(confidence, questions[minIndex], answers[minIndex]));
    assert SelectedAt(questions, answers, query, dist, minIndex, r.value);
  }

  /** Building the lists from the rows and then selecting: the match is one
      whole row of the table, the first row whose question is nearest, and
      the only failure left is an empty table. */
  method ResolveQuery(rows: seq<Row>, query: string, dist: Distance) returns (r: Result<Match>)
    ensures r == Err(NoCandidates) <==> |rows| == 0
    ensures r != Err(AnswerIndexOutOfRange)
    ensures r.Ok? ==> exists k :: IsFirstMinimum(RowDistances(rows, query, dist), k)
                         && Row(r.value.question, r.value.answer) == rows[k]
                         && ConfidenceFor(RowDistances(rows, query, dist)[k], r.value.confidence)
  {
    var questions, answers := BuildLists(rows);
    assert Distances(questions, query, dist) == RowDistances(rows, query, dist);
    r := GetBestMatch(questions, answers, query, dist);
  }

  /** The same query against the same lists and distance gives the same
      result every time. */
  method RepeatedMatchesAgree(questions: seq<string>, answers: seq<string>, query: string, dist: Distance)
    returns (first: Result<Match>, second: Result<Match>)
    ensures first == second
  {
    first := GetBestMatch(questions, answers, query, dist);
    second := GetBestMatch(questions, answers, query, dist);
    if first.Ok? {
      ghost var k1 :| SelectedAt(questions, answers, query, dist, k1, first.value);
      ghost var k2 :| SelectedAt(questions, answers, query, dist, k2, second.value);
      FirstMinimumUnique(Distances(questions, query, dist), k1, k2);
      assert first.value.question == second.value.question;
      assert first.value.answer == second.value.answer;
      assert first.value.confidence == second.value.confidence;
    } else {
      assert second.Err?;
      assert first.error == second.error;
    }
  }
}
