/** The fuzzy-matching chatbot: a query is compared with every stored
    question by a similarity score from 0 to 100, the answer of the first row
    with the best score of at least 80 is returned, and each processed input is
    kept in the session's chat history. The similarity score, the clock and the
    widgets are given as parameters. */
module FuzzyMatcher {
  import opened Wrappers
  import opened Text
  import opened Language

  type Percent = n: int | 0 <= n <= 100

  /** A similarity score between a query and a stored question. */
  type Similarity = (string, string) -> Percent

  /** One row of the merged tables, every column already turned into text. */
  datatype QaRow = QaRow(queries: string, answers: string, queriesBengali: string, ansBengali: string)

  const Threshold: Percent := 80
  const BengaliNotFound := "দুঃখিত, আমি এই প্রশ্নের উত্তর খুঁজে পাইনি। আরেকটি প্রশ্ন করুন।"
  const EnglishNotFound := "Sorry, I couldn't find an answer to this question. Please try another."

  function NotFound(isBengaliInput: bool): (m: string)
    ensures m != ""
  {
    if isBengaliInput then BengaliNotFound else EnglishNotFound
  }

  /** The query as it is compared: surrounding whitespace removed, then lowercased. */
  function Normalize(query: string): (n: string)
    ensures |n| <= |query| && Lower(n) == n
    ensures n == "" <==> forall i :: 0 <= i < |query| ==> IsSpace(query[i], PySpaces)
  {
    TrimEmptyIff(query, PySpaces);
    LowerIdempotent(Trim(query, PySpaces));
    Lower(Trim(query, PySpaces))
  }

  /** Normalizing twice changes nothing more: case folding keeps every
      character's whitespace class. */
  lemma NormalizeIdempotent(query: string)
    ensures Normalize(Normalize(query)) == Normalize(query)
  {
    var t := Trim(query, PySpaces);
    var l := Lower(t);
    TrimEnds(query, PySpaces);
    TrimIdentity(l, PySpaces);
    LowerIdempotent(t);
  }

  /** The stored question a row is compared on and the answer it gives: the
      Bengali columns for Bengali input, the English ones otherwise. */
  function RowQuery(r: QaRow, isBengaliInput: bool): (q: string)
    ensures isBengaliInput ==> q == r.queriesBengali
    ensures !isBengaliInput ==> q == r.queries
  {
    if isBengaliInput then r.queriesBengali else r.queries
  }

  function RowAnswer(r: QaRow, isBengaliInput: bool): (a: string)
    ensures isBengaliInput ==> a == r.ansBengali
    ensures !isBengaliInput ==> a == r.answers
  {
    if isBengaliInput then r.ansBengali else r.answers
  }

  /** The score of one row against an already normalized query: the row's
      stored question is lowercased too. */
  function Score(q: string, r: QaRow, isBengaliInput: bool, ratio: Similarity): Percent {
    ratio(q, Lower(RowQuery(r, isBengaliInput)))
  }

  /** Each row's score against the normalized query. */
  function Scores(query: string, rows: seq<QaRow>, isBengaliInput: bool, ratio: Similarity): (s: seq<Percent>)
    ensures |s| == |rows|
    ensures forall i :: 0 <= i < |rows| ==> s[i] == Score(Normalize(query), rows[i], isBengaliInput, ratio)
  {
    var q := Normalize(query);
    seq(|rows|, i requires 0 <= i < |rows| => Score(q, rows[i], isBengaliInput, ratio))
  }

  /** Row `k` is chosen: it reaches the threshold, no row scores higher and
      every earlier row scores lower. */
  predicate IsBest(s: seq<Percent>, k: int) {
    && 0 <= k < |s| && s[k] >= Threshold
    && (forall j :: 0 <= j < |s| ==> s[j] <= s[k])
    && (forall j :: 0 <= j < k ==> s[j] < s[k])
  }

  predicate NoneQualifies(s: seq<Percent>) {
    forall j :: 0 <= j < |s| ==> s[j] < Threshold
  }

  /** Either no row reaches the threshold or exactly one row is chosen. */
  lemma BestExistsUnlessNoneQualifies(s: seq<Percent>)
    ensures NoneQualifies(s) || exists k :: IsBest(s, k)
    ensures !(NoneQualifies(s) && exists k :: IsBest(s, k))
  {
    if !NoneQualifies(s) {
      var k := FirstMax(s);
      assert s[k] >= Threshold by {
        var j :| 0 <= j < |s| && s[j] >= Threshold;
        assert s[j] <= s[k];
      }
      assert IsBest(s, k);
    }
  }

  lemma BestUnique(s: seq<Percent>, k: int, k': int)
    requires IsBest(s, k) && IsBest(s, k')
    ensures k == k'
  {
    assert s[k] <= s[k'] && s[k'] <= s[k];
  }

  /** The first position of the largest score. */
  function FirstMax(s: seq<Percent>): (k: nat)
    requires |s| > 0
    ensures k < |s|
    ensures forall j :: 0 <= j < |s| ==> s[j] <= s[k]
    ensures forall j :: 0 <= j < k ==> s[j] < s[k]
  {
    if |s| == 1 then 0
    else
      var init := s[..|s| - 1];
      var k' := FirstMax(init);
      assert forall j :: 0 <= j < |s| - 1 ==> s[j] == init[j];
      if s[k'] < s[|s| - 1] then |s| - 1 else k'
  }

  /** A stored answer, or the fixed message when it is empty. */
  function OrNotFound(a: string, isBengaliInput: bool): (m: string)
    ensures m != ""
    ensures a != "" ==> m == a
  {
    if a != "" then a else NotFound(isBengaliInput)
  }

  /** `answer` is what the scores call for: the fixed message when no row
      qualifies, otherwise the chosen row's answer or, when that is empty,
      the fixed message. */
  ghost predicate AnswerFits(s: seq<Percent>, rows: seq<QaRow>, isBengaliInput: bool, answer: string)
    requires |s| == |rows|
  {
    && (NoneQualifies(s) ==> answer == NotFound(isBengaliInput))
    && (forall k :: IsBest(s, k) ==> answer == OrNotFound(RowAnswer(rows[k], isBengaliInput), isBengaliInput))
  }

  /** Row `b` leads the first `i` scores: it reaches the threshold, none of
      them is higher and all before it are lower. */
  predicate LeadsPrefix(s: seq<Percent>, i: int, b: int) {
    && 0 <= b < i <= |s| && s[b] >= Threshold
    && (forall j :: 0 <= j < i ==> s[j] <= s[b])
    && (forall j :: 0 <= j < b ==> s[j] < s[b])
  }

  /** A row scoring above the leader so far takes its place. */
  lemma NewLeader(s: seq<Percent>, i: int, b: int)
    requires LeadsPrefix(s, i, b) && i < |s| && s[b] < s[i]
    ensures LeadsPrefix(s, i + 1, i)
  {
  }

  /** The first row to reach the threshold leads. */
  lemma FirstLeader(s: seq<Percent>, i: int)
    requires 0 <= i < |s| && s[i] >= Threshold && NoneBefore(s, i)
    ensures LeadsPrefix(s, i + 1, i)
  {
  }

  /** A row below the threshold keeps the rows so far below it. */
  lemma StillNone(s: seq<Percent>, i: int)
    requires 0 <= i < |s| && s[i] < Threshold && NoneBefore(s, i)
    ensures NoneBefore(s, i + 1)
  {
  }

  /** A row scoring no higher than the leader leaves the leader in place. */
  lemma SameLeader(s: seq<Percent>, i: int, b: int)
    requires LeadsPrefix(s, i, b) && i < |s| && s[i] <= s[b]
    ensures LeadsPrefix(s, i + 1, b)
  {
  }

  /** Leading all the scores is being the chosen row, and only that row is;
      so the leader's answer is the one the scores call for. */
  lemma LeaderFits(s: seq<Percent>, rows: seq<QaRow>, isBengaliInput: bool, b: int)
    requires |s| == |rows| && LeadsPrefix(s, |s|, b)
    ensures forall k :: IsBest(s, k) <==> k == b
    ensures AnswerFits(s, rows, isBengaliInput, OrNotFound(RowAnswer(rows[b], isBengaliInput), isBengaliInput))
  {
    assert IsBest(s, b);
    forall k | IsBest(s, k) ensures k == b {
      BestUnique(s, k, b);
    }
  }

  /** When no score reaches the threshold the fixed message is called for. */
  lemma NoneFits(s: seq<Percent>, rows: seq<QaRow>, isBengaliInput: bool)
    requires |s| == |rows| && NoneQualifies(s)
    ensures AnswerFits(s, rows, isBengaliInput, NotFound(isBengaliInput))
  {
    forall k | 0 <= k < |s| ensures !IsBest(s, k) {
      assert s[k] < Threshold;
    }
  }

  /** None of the first `i` scores reaches the threshold. */
  predicate NoneBefore(s: seq<Percent>, i: int) {
    forall j :: 0 <= j < i && j < |s| ==> s[j] < Threshold
  }

  /** The answer finder: one pass over the rows, keeping the answer of the
      first row that beats the best score so far and reaches the threshold;
      an empty or missing answer gives the fixed message of the input's
      language. */
  method FindAnswer(query: string, rows: seq<QaRow>, isBengaliInput: bool, ratio: Similarity)
    returns (answer: string)
    ensures AnswerFits(Scores(query, rows, isBengaliInput, ratio), rows, isBengaliInput, answer)
  {
    var q := Normalize(query);
    ghost var s := Scores(query, rows, isBengaliInput, ratio);
    var bestMatch: Option<string> := None;
    var bestScore: int := 0;
    ghost var bestIndex: int := -1;
    for i := 0 to |rows|
      invariant bestMatch.None? ==> bestScore == 0 && NoneBefore(s, i)
      invariant bestMatch.Some? ==>
        && LeadsPrefix(s, i, bestIndex) && bestScore == s[bestIndex]
        && bestMatch.value == RowAnswer(rows[bestIndex], isBengaliInput)
    {
      var score := Score(q, rows[i], isBengaliInput, ratio);
      assert score == s[i];
      if score > bestScore && score >= Threshold {
        if bestMatch.Some? {
          NewLeader(s, i, bestIndex);
        } else {
          FirstLeader(s, i);
        }
        bestScore := score;
        bestMatch := Some(RowAnswer(rows[i], isBengaliInput));
        bestIndex := i;
      } else if bestMatch.Some? {
        SameLeader(s, i, bestIndex);
      } else {
        StillNone(s, i);
      }
    }
    if bestMatch.Some? {
      LeaderFits(s, rows, isBengaliInput, bestIndex);
      answer := OrNotFound(bestMatch.value, isBengaliInput);
    } else {
      NoneFits(s, rows, isBengaliInput);
      answer := NotFound(isBengaliInput);
    }
  }

  // ---------------------------------------------------------------------------
  // The session

  /** Whether an input is processed: it must be non-empty after stripping
      whitespace. The first part of `main`'s condition is absorbed by the
      second, so the Ask button plays no part. */
  function ShouldProcess(userInput: string, askButton: bool): (b: bool)
    ensures b <==> exists i :: 0 <= i < |userInput| && !PyWhitespace(userInput[i])
  {
    TrimEmptyIff(userInput, PySpaces);
    var given := userInput != "";
    ((given && askButton) || given) && Trim(userInput, PySpaces) != ""
  }

  lemma AskButtonIrrelevant(userInput: string)
    ensures ShouldProcess(userInput, true) == ShouldProcess(userInput, false)
  {
  }

  const BengaliLabel := "Bengali (বাংলা)"
  const EnglishLabel := "English"

  function LanguageLabel(isBengaliInput: bool): (l: string)
    ensures l == BengaliLabel <==> isBengaliInput
    ensures l == EnglishLabel <==> !isBengaliInput
  {
    if isBengaliInput then BengaliLabel else EnglishLabel
  }

  datatype HistoryEntry = HistoryEntry(question: string, answer: string, language: string, timestamp: string)

  /** The history panel: the last five entries, newest first, each with its
      number in the whole history. */
  function RecentView(h: seq<HistoryEntry>): (v: seq<(nat, HistoryEntry)>)
    ensures |v| == if |h| < 5 then |h| else 5
    ensures forall i :: 0 <= i < |v| ==> v[i].0 == |h| - i && v[i].1 == h[|h| - 1 - i]
  {
    var n := if |h| < 5 then |h| else 5;
    seq(n, i requires 0 <= i < n => (|h| - i, h[|h| - 1 - i]))
  }

  /** Labels count down from the history's length, each label names the entry
      it is shown with, and a new entry comes first. */
  lemma RecentViewProperties(h: seq<HistoryEntry>, e: HistoryEntry)
    ensures forall i :: 0 <= i < |RecentView(h)| ==> 1 <= RecentView(h)[i].0 <= |h| && h[RecentView(h)[i].0 - 1] == RecentView(h)[i].1
    ensures forall i, j :: 0 <= i < j < |RecentView(h)| ==> RecentView(h)[j].0 < RecentView(h)[i].0
    ensures RecentView(h + [e])[0] == (|h| + 1, e)
  {
  }

  /** The chat history kept across reruns of the page. */
  class Session {
    var history: seq<HistoryEntry>

    constructor()
      ensures history == []
    {
      history := [];
    }

    /** One run of the page with input `userInput`: nothing happens when the
        table is empty or the input is blank; otherwise exactly one entry, with
        the answer and the detected language, is appended. */
    method ProcessInput(userInput: string, askButton: bool, rows: seq<QaRow>, ratio: Similarity, timestamp: string)
      returns (response: Option<string>)
      modifies this
      ensures rows == [] || !ShouldProcess(userInput, askButton) ==> response.None? && history == old(history)
      ensures rows != [] && ShouldProcess(userInput, askButton) ==>
        && response.Some?
        && AnswerFits(Scores(userInput, rows, HasBengali(userInput), ratio), rows, HasBengali(userInput), response.value)
        && history == old(history) + [HistoryEntry(userInput, response.value, LanguageLabel(HasBengali(userInput)), timestamp)]
    {
      if rows == [] || !ShouldProcess(userInput, askButton) {
        return None;
      }
      var isBengaliInput := HasBengali(userInput);
      var answer := FindAnswer(userInput, rows, isBengaliInput, ratio);
      history := history + [HistoryEntry(userInput, answer, LanguageLabel(isBengaliInput), timestamp)];
      response := Some(answer);
    }

    method ClearHistory()
      modifies this
      ensures history == []
    {
      history := [];
    }
  }
}
