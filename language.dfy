/** The two languages of the system and the script test that tells them
    apart. English is the primary language: the answer service is queried
    in it. */
module Language {

  datatype Lang = En | Bn

  function Opposite(l: Lang): (o: Lang)
    ensures o != l
  {
    if l == En then Bn else En
  }

  /** The language tag the wire format uses. */
  function Tag(l: Lang): (t: string)
    ensures t == "en" <==> l == En
    ensures t == "bn" <==> l == Bn
  {
    match l
    case En => "en"
    case Bn => "bn"
  }

  /** A code point of the Unicode Bengali block, U+0980 to U+09FF. */
  predicate IsBengaliChar(c: char) {
    '\U{0980}' <= c <= '\U{09FF}'
  }

  /** The back end's Bengali test: some character of the text is in the
      Bengali block. */
  function HasBengali(text: string): (b: bool)
    ensures b <==> exists i :: 0 <= i < |text| && IsBengaliChar(text[i])
  {
    if |text| == 0 then false
    else if IsBengaliChar(text[0]) then true
    else
      var b := HasBengali(text[1..]);
      assert forall i :: 1 <= i < |text| ==> text[i] == text[1..][i - 1];
      b
  }

  /** The front end's language detection: Bengali when a character of the
      Bengali block occurs, English otherwise. The browser's pattern test runs
      on UTF-16 code units; no surrogate lies in the Bengali block, so testing
      code points gives the same answer. */
  function DetectLanguage(text: string): (l: Lang)
    ensures l == Bn <==> exists i :: 0 <= i < |text| && IsBengaliChar(text[i])
    ensures l == En <==> forall i :: 0 <= i < |text| ==> !IsBengaliChar(text[i])
  {
    if HasBengali(text) then Bn else En
  }

  /** Text without a Bengali code point (the empty text, digits,
      punctuation, Latin letters) is English. */
  lemma NoBengaliIsEnglish(text: string)
    requires forall i :: 0 <= i < |text| ==> text[i] < '\U{0980}' || text[i] > '\U{09FF}'
    ensures DetectLanguage(text) == En
  {
  }

  /** Detection depends only on the characters present: adding text can turn
      English into Bengali but never the other way round. */
  lemma {:induction false} DetectMonotone(a: string, b: string)
    ensures DetectLanguage(a) == Bn ==> DetectLanguage(a + b) == Bn
    ensures DetectLanguage(b) == Bn ==> DetectLanguage(a + b) == Bn
    ensures DetectLanguage(a + b) == Bn ==> DetectLanguage(a) == Bn || DetectLanguage(b) == Bn
  {
    var ab := a + b;
    if DetectLanguage(a) == Bn {
      var i :| 0 <= i < |a| && IsBengaliChar(a[i]);
      assert ab[i] == a[i];
    }
    if DetectLanguage(b) == Bn {
      var i :| 0 <= i < |b| && IsBengaliChar(b[i]);
      assert ab[|a| + i] == b[i];
    }
    if DetectLanguage(ab) == Bn {
      var i :| 0 <= i < |ab| && IsBengaliChar(ab[i]);
      if i < |a| {
        assert a[i] == ab[i];
      } else {
        assert b[i - |a|] == ab[i];
      }
    }
  }
}
