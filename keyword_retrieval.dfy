/** The keyword back end: questions and table rows are reduced to keyword
    sets, rows are scored by the Jaccard similarity of their keywords to the
    question's, and the answer of the first best-scoring row is returned. The
    tokenizer, the stop-word list and the table are given; the question's
    language is given too, since deciding it needs a remote translator. */
module KeywordRetrieval {
  import opened Wrappers
  import opened Text
  import opened Language

  // ---------------------------------------------------------------------------
  // Table cells and rows

  /** A spreadsheet cell: missing (NaN), a string, or some other value such as
      a number. */
  datatype Cell = Missing | Str(s: string) | NonStr

  /** The four columns of the question-and-answer table that the service uses. */
  datatype RawRow = RawRow(queries: Cell, answers: Cell, queriesBengali: Cell, ansBengali: Cell)

  /** A row after setup, with its two keyword columns. */
  datatype Row = Row(raw: RawRow, enKeywords: set<string>, bnKeywords: set<string>)

  type Tokenizer = string -> seq<string>

  // ---------------------------------------------------------------------------
  // Keywords

  /** The ASCII punctuation characters, in their usual order. */
  const Punctuation := "!\"#$%&'()*+,-./:;<=>?@[\\]^_`{|}~"

  /** Whether `w` is a contiguous part of the punctuation string: the test is
      one of substrings, so "!!" is kept while "()" and the empty word are not. */
  predicate InPunctuation(w: string) {
    exists i :: 0 <= i <= |Punctuation| && PunctuationAt(w, i)
  }

  predicate PunctuationAt(w: string, i: int) {
    0 <= i && i + |w| <= |Punctuation| && Punctuation[i..i + |w|] == w
  }

  /** The empty word, each single punctuation character and runs of
      neighbouring ones such as "()" are filtered out. */
  lemma PunctuationDropped(i: int, j: int)
    requires 0 <= i <= j <= 32
    ensures |Punctuation| == 32 && InPunctuation(Punctuation[i..j])
    ensures InPunctuation("") && InPunctuation("?") && InPunctuation("()")
  {
    assert PunctuationAt(Punctuation[i..j], i);
    assert PunctuationAt("", 0);
    assert PunctuationAt("?", 20) by { assert Punctuation[20] == '?'; }
    assert PunctuationAt("()", 7) by { assert Punctuation[7] == '(' && Punctuation[8] == ')'; }
  }

  predicate Alnum(c: char) {
    'a' <= c <= 'z' || 'A' <= c <= 'Z' || '0' <= c <= '9'
  }

  /** A token with a letter or a digit is never taken for punctuation. */
  lemma AlnumTokenKept(w: string, j: int)
    requires 0 <= j < |w| && Alnum(w[j])
    ensures !InPunctuation(w)
  {
    assert forall i :: 0 <= i < |Punctuation| ==> !Alnum(Punctuation[i]);
    forall i | 0 <= i <= |Punctuation| ensures !PunctuationAt(w, i) {
      if i + |w| <= |Punctuation| {
        assert Punctuation[i..i + |w|][j] == Punctuation[i + j];
      }
    }
  }

  /** Neither is a token that repeats a character, such as "..." or the
      doubled quote marks a tokenizer produces, since the punctuation string
      repeats none. */
  lemma RepeatTokenKept(w: string, j: int)
    requires 0 <= j && j + 1 < |w| && w[j] == w[j + 1]
    ensures !InPunctuation(w)
  {
    assert forall i :: 0 <= i < |Punctuation| - 1 ==> Punctuation[i] < Punctuation[i + 1];
    forall i | 0 <= i <= |Punctuation| ensures !PunctuationAt(w, i) {
      if i + |w| <= |Punctuation| {
        assert Punctuation[i..i + |w|][j] == Punctuation[i + j];
        assert Punctuation[i..i + |w|][j + 1] == Punctuation[i + j + 1];
      }
    }
  }

  /** The English keywords of a cell: the tokens of its lowercased text that are
      neither stop words nor punctuation; no keywords when it is not a string. */
  function ExtractKeywords(c: Cell, tokenize: Tokenizer, stopWords: set<string>): (k: set<string>)
    ensures !c.Str? ==> k == {}
    ensures c.Str? ==> forall w :: w in k <==>
      w in tokenize(Lower(c.s)) && w !in stopWords && !InPunctuation(w)
  {
    if !c.Str? then {}
    else set w | w in tokenize(Lower(c.s)) && w !in stopWords && !InPunctuation(w)
  }

  /** The Bengali keywords of a cell: the tokens of its text as written that are
      not punctuation; stop words are not removed. */
  function ExtractKeywordsBengali(c: Cell, tokenize: Tokenizer): (k: set<string>)
    ensures !c.Str? ==> k == {}
    ensures c.Str? ==> forall w :: w in k <==> w in tokenize(c.s) && !InPunctuation(w)
  {
    if !c.Str? then {}
    else set w | w in tokenize(c.s) && !InPunctuation(w)
  }

  /** The English extraction is the Bengali one on the lowercased text, less
      the stop words; so English keywords never contain a stop word or a
      punctuation token. */
  lemma EnglishIsLoweredBengaliLessStopWords(s: string, tokenize: Tokenizer, stopWords: set<string>)
    ensures ExtractKeywords(Str(s), tokenize, stopWords) == ExtractKeywordsBengali(Str(Lower(s)), tokenize) - stopWords
    ensures ExtractKeywords(Str(s), tokenize, stopWords) !! stopWords
    ensures forall w :: w in ExtractKeywords(Str(s), tokenize, stopWords) ==> !InPunctuation(w)
  {
  }

  /** English extraction ignores letter case. */
  lemma EnglishIgnoresCase(s: string, tokenize: Tokenizer, stopWords: set<string>)
    ensures ExtractKeywords(Str(s), tokenize, stopWords) == ExtractKeywords(Str(Lower(s)), tokenize, stopWords)
  {
    LowerIdempotent(s);
  }

  // ---------------------------------------------------------------------------
  // Jaccard similarity as an exact ratio

  /** A non-negative rational number. */
  datatype Fraction = Fraction(num: nat, den: nat)
  type Ratio = r: Fraction | r.den > 0 witness Fraction(0, 1)

  /** Ratios ordered as the numbers they stand for. */
  predicate Less(x: Ratio, y: Ratio) {
    x.num * y.den < y.num * x.den
  }

  predicate Same(x: Ratio, y: Ratio) {
    x.num * y.den == y.num * x.den
  }

  /** x <= y < z gives x < z. */
  lemma LessAfterAtMost(x: Ratio, y: Ratio, z: Ratio)
    requires !Less(y, x) && Less(y, z)
    ensures Less(x, z)
  {
    assert x.num * y.den <= y.num * x.den;
    assert y.num * z.den < z.num * y.den;
    calc {
      x.num * z.den * y.den;
    ==  { MulComm3(x.num, z.den, y.den); }
      x.num * y.den * z.den;
    <=  { MulLe(x.num * y.den, y.num * x.den, z.den); }
      y.num * x.den * z.den;
    ==  { MulComm3(y.num, x.den, z.den); }
      y.num * z.den * x.den;
    <   { MulLt(y.num * z.den, z.num * y.den, x.den); }
      z.num * y.den * x.den;
    ==  { MulComm3(z.num, y.den, x.den); }
      z.num * x.den * y.den;
    }
    CancelLt(x.num * z.den, z.num * x.den, y.den);
  }

  lemma CancelLt(a: int, b: int, c: int)
    requires c > 0 && a * c < b * c
    ensures a < b
  {
  }

  lemma CancelLe(a: int, b: int, c: int)
    requires c > 0 && a * c <= b * c
    ensures a <= b
  {
  }

  lemma MulComm3(a: int, b: int, c: int)
    ensures a * b * c == a * c * b
  {
  }

  lemma MulLe(a: int, b: int, c: nat)
    requires a <= b
    ensures a * c <= b * c
  {
  }

  lemma MulLt(a: int, b: int, c: nat)
    requires a < b && c > 0
    ensures a * c < b * c
  {
  }

  /** Strict order on ratios is irreflexive and asymmetric. */
  lemma LessAsymmetric(x: Ratio, y: Ratio)
    ensures !Less(x, x)
    ensures Less(x, y) ==> !Less(y, x)
  {
  }

  /** |A ∩ B| / |A ∪ B|, and 0 when both sets are empty. */
  function Jaccard(a: set<string>, b: set<string>): (r: Ratio)
    ensures r.num <= r.den
    ensures r.num == 0 <==> a !! b
  {
    SubsetCard(a * b, a + b);
    if a + b == {} then Fraction(0, 1)
    else
      DisjointIff(a, b);
      NonEmptyCard(a * b);
      Fraction(|a * b|, |a + b|)
  }

  lemma JaccardSymmetric(a: set<string>, b: set<string>)
    ensures Jaccard(a, b) == Jaccard(b, a)
  {
    assert a * b == b * a && a + b == b + a;
  }

  /** The similarity is one exactly for two equal non-empty sets. */
  lemma JaccardOneIff(a: set<string>, b: set<string>)
    ensures Same(Jaccard(a, b), Fraction(1, 1)) <==> a == b && a != {}
  {
    if Same(Jaccard(a, b), Fraction(1, 1)) {
      assert a + b != {};
      SubsetCard(a * b, a + b);
      EqualCardSubset(a * b, a + b);
      assert a == b by {
        forall w | w in a + b ensures w in a && w in b {
          assert w in a * b;
        }
      }
    }
    if a == b && a != {} {
      assert a * b == a && a + b == a;
    }
  }

  /** No ratio exceeds the similarity of equal non-empty sets. */
  lemma JaccardAtMostOne(a: set<string>, b: set<string>)
    ensures !Less(Fraction(1, 1), Jaccard(a, b))
  {
  }

  lemma DisjointIff(a: set<string>, b: set<string>)
    ensures a !! b <==> a * b == {}
  {
    if a * b == {} {
      forall e | e in a ensures e !in b {
        assert e !in a * b;
      }
    } else {
      var e :| e in a * b;
      assert e in a && e in b;
    }
  }

  lemma NonEmptyCard(x: set<string>)
    ensures x != {} <==> |x| > 0
  {
    if x != {} {
      var e :| e in x;
      assert |x - {e}| == |x| - 1;
    }
  }

  lemma {:induction false} SubsetCard(x: set<string>, y: set<string>)
    requires x <= y
    ensures |x| <= |y|
    decreases |x|
  {
    if x != {} {
      var e :| e in x;
      SubsetCard(x - {e}, y - {e});
    }
  }

  lemma EqualCardSubset(x: set<string>, y: set<string>)
    requires x <= y && |x| == |y|
    ensures x == y
  {
    if x != y {
      var e :| e in y && e !in x;
      SubsetCard(x, y - {e});
    }
  }

  // ---------------------------------------------------------------------------
  // The first best row

  /** `k` holds a maximal score and no earlier entry reaches it. */
  predicate IsFirstMax(s: seq<Ratio>, k: int) {
    && 0 <= k < |s|
    && (forall j :: 0 <= j < |s| ==> !Less(s[k], s[j]))
    && (forall j :: 0 <= j < k ==> Less(s[j], s[k]))
  }

  /** The position of the first maximal score, as the table's arg-max gives it. */
  function FirstArgMax(s: seq<Ratio>): (k: nat)
    requires |s| > 0
    ensures IsFirstMax(s, k)
  {
    if |s| == 1 then 0
    else
      var init := s[..|s| - 1];
      var k' := FirstArgMax(init);
      var last := |s| - 1;
      assert forall j :: 0 <= j < last ==> s[j] == init[j];
      if Less(s[k'], s[last]) then
        assert forall j :: 0 <= j < last ==> Less(s[j], s[last]) by {
          forall j | 0 <= j < last ensures Less(s[j], s[last]) {
            LessAfterAtMost(s[j], s[k'], s[last]);
          }
        }
        assert forall j :: 0 <= j < |s| ==> !Less(s[last], s[j]) by {
          forall j | 0 <= j < |s| ensures !Less(s[last], s[j]) {
            LessAsymmetric(s[j], s[last]);
          }
        }
        last
      else
        k'
  }

  /** There is only one first maximum. */
  lemma FirstMaxUnique(s: seq<Ratio>, k: int, k': int)
    requires IsFirstMax(s, k) && IsFirstMax(s, k')
    ensures k == k'
  {
    assert !Less(s[k], s[k']) && !Less(s[k'], s[k]);
  }

  // ---------------------------------------------------------------------------
  // The service

  /** Setup keeps the rows where none of the four columns is missing, in order. */
  predicate Complete(r: RawRow) {
    !r.queries.Missing? && !r.answers.Missing? && !r.queriesBengali.Missing? && !r.ansBengali.Missing?
  }

  function DropIncomplete(rows: seq<RawRow>): (kept: seq<RawRow>)
    ensures |kept| <= |rows|
    ensures forall r :: r in kept <==> r in rows && Complete(r)
  {
    if rows == [] then []
    else if Complete(rows[0]) then [rows[0]] + DropIncomplete(rows[1..])
    else DropIncomplete(rows[1..])
  }

  /** A single row is kept exactly when it is complete. */
  lemma DropIncompleteOne(r: RawRow)
    ensures DropIncomplete([r]) == if Complete(r) then [r] else []
  {
    assert [r][1..] == [];
  }

  /** Dropping works row by row: the kept rows of two tables are the kept rows
      of the first followed by those of the second, so row order and repeated
      rows are preserved. */
  lemma {:induction false} DropIncompleteAppend(a: seq<RawRow>, b: seq<RawRow>)
    ensures DropIncomplete(a + b) == DropIncomplete(a) + DropIncomplete(b)
  {
    if a != [] {
      assert (a + b)[0] == a[0];
      assert (a + b)[1..] == a[1..] + b;
      DropIncompleteAppend(a[1..], b);
      if Complete(a[0]) {
        assert [a[0]] + DropIncomplete(a[1..]) + DropIncomplete(b)
            == [a[0]] + (DropIncomplete(a[1..]) + DropIncomplete(b));
      }
    } else {
      assert a + b == b;
    }
  }

  /** Dropping twice drops nothing more. */
  lemma {:induction false} DropIncompleteIdempotent(rows: seq<RawRow>)
    ensures DropIncomplete(DropIncomplete(rows)) == DropIncomplete(rows)
  {
    if rows != [] {
      DropIncompleteIdempotent(rows[1..]);
      if Complete(rows[0]) {
        assert ([rows[0]] + DropIncomplete(rows[1..]))[1..] == DropIncomplete(rows[1..]);
      }
    }
  }

  /** The processed table: complete rows with their two keyword columns. */
  function Preprocess(rows: seq<RawRow>, tokenize: Tokenizer, stopWords: set<string>): (t: seq<Row>)
    ensures |t| == |DropIncomplete(rows)|
    ensures forall i :: 0 <= i < |t| ==>
      && t[i].raw == DropIncomplete(rows)[i] && Complete(t[i].raw)
      && t[i].enKeywords == ExtractKeywords(t[i].raw.queries, tokenize, stopWords)
      && t[i].bnKeywords == ExtractKeywordsBengali(t[i].raw.queriesBengali, tokenize)
  {
    var kept := DropIncomplete(rows);
    seq(|kept|, i requires 0 <= i < |kept| =>
      Row(kept[i], ExtractKeywords(kept[i].queries, tokenize, stopWords),
          ExtractKeywordsBengali(kept[i].queriesBengali, tokenize)))
  }

  /** The keywords a row is compared on, and the answer it gives, by language. */
  function RowKeywords(r: Row, lang: Lang): (k: set<string>)
    ensures lang == En ==> k == r.enKeywords
    ensures lang == Bn ==> k == r.bnKeywords
  {
    if lang == En then r.enKeywords else r.bnKeywords
  }

  function RowAnswer(r: Row, lang: Lang): (c: Cell)
    ensures lang == En ==> c == r.raw.answers
    ensures lang == Bn ==> c == r.raw.ansBengali
  {
    if lang == En then r.raw.answers else r.raw.ansBengali
  }

  /** The score column: each row's similarity to the question's keywords. */
  function Scores(input: set<string>, rows: seq<Row>, lang: Lang): (s: seq<Ratio>)
    ensures |s| == |rows|
    ensures forall i :: 0 <= i < |rows| ==> s[i] == Jaccard(input, RowKeywords(rows[i], lang))
  {
    seq(|rows|, i requires 0 <= i < |rows| => Jaccard(input, RowKeywords(rows[i], lang)))
  }

  const NotLoadedMessage := "Data not loaded yet. Please try again in a moment."

  /** What the ask endpoint returns. `EmptyTable` is the failure of the arg-max
      on a table with no rows, which the framework turns into a server error. */
  datatype Response =
    | NotLoaded(error: string)
    | EmptyTable
    | Answered(answer: Cell, score: Ratio, language: Lang)

  /** A row whose keywords equal the question's non-empty keywords makes the
      returned score one. */
  lemma PerfectMatchScoresOne(input: set<string>, rows: seq<Row>, lang: Lang, i: int)
    requires 0 <= i < |rows| && RowKeywords(rows[i], lang) == input && input != {}
    ensures Same(Scores(input, rows, lang)[FirstArgMax(Scores(input, rows, lang))], Fraction(1, 1))
  {
    var s := Scores(input, rows, lang);
    var k := FirstArgMax(s);
    JaccardOneIff(input, input);
    assert Same(s[i], Fraction(1, 1));
    assert !Less(s[k], s[i]);
    AtLeastOneIsOne(s[k], s[i]);
  }

  /** A ratio of at most one that is no less than one is one. */
  lemma AtLeastOneIsOne(x: Ratio, y: Ratio)
    requires x.num <= x.den && Same(y, Fraction(1, 1)) && !Less(x, y)
    ensures Same(x, Fraction(1, 1))
  {
    assert y.num == y.den;
    assert x.den * y.den <= x.num * y.den;
    CancelLe(x.den, x.num, y.den);
  }

  class App {
    var stopWords: set<string>
    var processed: Option<seq<Row>>
    /** The score column last written into the processed table. */
    var scores: seq<Ratio>
    const tokenize: Tokenizer

    constructor(tokenize: Tokenizer)
      ensures stopWords == {} && processed.None? && scores == [] && this.tokenize == tokenize
    {
      stopWords := {};
      processed := None;
      scores := [];
      this.tokenize := tokenize;
    }

    /** Startup: the stop words are set first, then the table is cleaned and
        its keyword columns are computed with them. */
    method SetupApplication(englishStopWords: set<string>, table: seq<RawRow>)
      modifies this
      ensures stopWords == englishStopWords
      ensures processed == Some(Preprocess(table, tokenize, englishStopWords))
      ensures scores == old(scores)
    {
      stopWords := englishStopWords;
      processed := Some(Preprocess(table, tokenize, stopWords));
    }

    /** The ask endpoint for a question in language `lang`. */
    method AnswerQuestion(questionText: string, lang: Lang) returns (resp: Response)
      modifies this
      ensures stopWords == old(stopWords) && processed == old(processed)
      ensures old(processed).None? ==> resp == NotLoaded(NotLoadedMessage) && scores == old(scores)
      ensures old(processed).Some? ==>
        var rows := old(processed).value;
        var input := if lang == En then ExtractKeywords(Str(questionText), tokenize, stopWords)
                     else ExtractKeywordsBengali(Str(questionText), tokenize);
        && scores == Scores(input, rows, lang)
        && (rows == [] ==> resp == EmptyTable)
        && (rows != [] ==>
              var k := FirstArgMax(scores);
              resp == Answered(RowAnswer(rows[k], lang), scores[k], lang))
    {
      if processed.None? {
        return NotLoaded(NotLoadedMessage);
      }
      var rows := processed.value;
      var input: set<string>;
      if lang == En {
        input := ExtractKeywords(Str(questionText), tokenize, stopWords);
      } else {
        input := ExtractKeywordsBengali(Str(questionText), tokenize);
      }
      scores := Scores(input, rows, lang);
      if |scores| == 0 {
        return EmptyTable;
      }
      var best := FirstArgMax(scores);
      resp := Answered(RowAnswer(rows[best], lang), scores[best], lang);
    }
  }
}
