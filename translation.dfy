/** The translation fallback chain of the chat page: a primary provider, a
    secondary provider whose echo of the input is rejected, a dictionary of
    medical terms used only towards Bengali, and finally the original text
    behind a visible marker. Provider calls are given as their outcomes. */
module Translation {
  import opened Wrappers
  import opened Text
  import opened Language

  // ---------------------------------------------------------------------------
  // Provider outcomes

  /** What the request to the primary provider (the application's own
      translation route) produced. `PrimaryThrew` covers a rejected request
      and a body that is not JSON. */
  datatype PrimaryOutcome =
    | PrimaryThrew
    | PrimaryReplied(ok: bool, translatedText: Option<string>)

  /** What the request to the secondary provider (MyMemory) produced.
      `SecondaryThrew` covers a rejected request and a body that is not JSON;
      `translatedText` is the `responseData.translatedText` field. */
  datatype SecondaryOutcome =
    | SecondaryThrew
    | SecondaryReplied(ok: bool, responseStatus: int, translatedText: Option<string>)

  /** The body sent to the primary provider. */
  datatype PrimaryRequest = PrimaryRequest(text: string, sourceLang: Lang, targetLang: Lang)

  const FailedMarker := "[Translation failed] "
  const UnavailableMarker := "[Translation unavailable] "
  const NeededMarker := "[Translation needed] "
  const BengaliNeededMarker := "[অনুবাদ প্রয়োজন] "

  /** The source language is always the other one. */
  function PrimaryRequestFor(text: string, target: Lang): (q: PrimaryRequest)
    ensures q.text == text && q.targetLang == target
    ensures q.sourceLang == Opposite(target) && q.sourceLang != q.targetLang
  {
    PrimaryRequest(text, if target == En then Bn else En, target)
  }

  /** The `langpair` parameter of the secondary provider, chosen from the
      source language. */
  function LangPair(target: Lang): string {
    if PrimaryRequestFor("", target).sourceLang == En then "en|bn" else "bn|en"
  }

  lemma LangPairNamesSourceThenTarget(target: Lang)
    ensures LangPair(target) == Tag(Opposite(target)) + "|" + Tag(target)
  {
  }

  /** A JavaScript string is truthy when it is present and non-empty. */
  predicate Truthy(t: Option<string>) {
    t.Some? && t.value != ""
  }

  /** The primary result is taken when the response is ok and carries a
      truthy `translatedText`. */
  function PrimaryAccepted(p: PrimaryOutcome): (a: Option<string>)
    ensures a.Some? <==> p.PrimaryReplied? && p.ok && Truthy(p.translatedText)
    ensures a.Some? ==> a == p.translatedText && a.value != ""
  {
    if p.PrimaryReplied? && p.ok && Truthy(p.translatedText) then p.translatedText else None
  }

  /** The secondary result of an ok response is taken when its status is 200,
      its text is truthy and it differs from the input other than in letter case. */
  function SecondaryAccepted(status: int, translated: Option<string>, text: string): (a: Option<string>)
    ensures a.Some? <==> status == 200 && Truthy(translated) && Lower(translated.value) != Lower(text)
    ensures a.Some? ==> a == translated && a.value != "" && Lower(a.value) != Lower(text)
  {
    if status == 200 && Truthy(translated) && Lower(translated.value) != Lower(text) then translated else None
  }

  // ---------------------------------------------------------------------------
  // The dictionary fallback

  /** Entry `i` of the dictionary of the fallback, in its listed order. The
      dictionary is written entry by entry so that the verifier looks only
      at the entries a proof needs. */
  function MedicalTerm(i: nat): (e: (string, string))
    ensures |e.0| > 0 && |e.1| > 0
  {
    if i == 0 then ("pap smear", "প্যাপ স্মিয়ার")
    else if i == 1 then ("cancer", "ক্যান্সার")
    else if i == 2 then ("screening", "স্ক্রিনিং")
    else if i == 3 then ("breast", "স্তন")
    else if i == 4 then ("cervical", "জরায়ুর")
    else if i == 5 then ("doctor", "ডাক্তার")
    else if i == 6 then ("hospital", "হাসপাতাল")
    else if i == 7 then ("treatment", "চিকিৎসা")
    else if i == 8 then ("symptoms", "লক্ষণ")
    else if i == 9 then ("diagnosis", "নির্ণয়")
    else if i == 10 then ("prevention", "প্রতিরোধ")
    else if i == 11 then ("health", "স্বাস্থ্য")
    else if i == 12 then ("years", "বছর")
    else if i == 13 then ("age", "বয়স")
    else if i == 14 then ("too late", "খুব দেরি")
    else ("Is 25 too late for a Pap smear?", "২৫ বছর বয়সে প্যাপ স্মিয়ার করা কি খুব দেরি?")
  }

  /** The dictionary of the fallback: sixteen entries. */
  function MedicalTerms(): seq<(string, string)> {
    seq(16, i requires 0 <= i < 16 => MedicalTerm(i))
  }

  predicate KeysNonEmpty(terms: seq<(string, string)>) {
    forall i :: 0 <= i < |terms| ==> |terms[i].0| > 0
  }

  lemma MedicalTermsKeysNonEmpty()
    ensures KeysNonEmpty(MedicalTerms()) && |MedicalTerms()| == 16
    ensures forall i :: 0 <= i < |MedicalTerms()| ==> |MedicalTerms()[i].1| > 0
  {
  }

  /** Each dictionary entry applied in turn, the first one first. */
  function SubstituteAll(s: string, terms: seq<(string, string)>): string
    requires KeysNonEmpty(terms)
    decreases |terms|
  {
    if terms == [] then s
    else SubstituteAll(ReplaceAll(s, terms[0].0, terms[0].1), terms[1..])
  }

  /** The specification of the dictionary fallback, which
      `FallbackTranslation` runs step by step. It returns towards Bengali the substituted
      text when some term was replaced, otherwise the text behind the Bengali
      marker; towards English the text behind the English marker. It is never
      empty, since every replacement is non-empty. */
  function Fallback(text: string, target: Lang): (r: string)
    ensures r != ""
  {
    MedicalTermsKeysNonEmpty();
    SubstituteAllEmpty(text, MedicalTerms());
    if target == Bn then
      var translated := SubstituteAll(text, MedicalTerms());
      if translated != text then translated else BengaliNeededMarker + text
    else NeededMarker + text
  }

  /** One replacement per dictionary entry, in order, on a running copy of
      the text. */
  method SubstituteInOrder(text: string, terms: seq<(string, string)>) returns (translated: string)
    requires KeysNonEmpty(terms)
    ensures translated == SubstituteAll(text, terms)
  {
    translated := text;
    var i := 0;
    while i < |terms|
      invariant 0 <= i <= |terms|
      invariant SubstituteAll(translated, terms[i..]) == SubstituteAll(text, terms)
    {
      assert terms[i..][1..] == terms[i + 1..];
      translated := ReplaceAll(translated, terms[i].0, terms[i].1);
      i := i + 1;
    }
  }

  /** The fallback as the page runs it. `Fallback` is its specification. */
  method FallbackTranslation(text: string, target: Lang) returns (r: string)
    ensures r == Fallback(text, target)
  {
    if target == Bn {
      MedicalTermsKeysNonEmpty();
      var translated := SubstituteInOrder(text, MedicalTerms());
      r := if translated != text then translated else BengaliNeededMarker + text;
    } else {
      r := NeededMarker + text;
    }
  }

  // ---------------------------------------------------------------------------
  // The chain

  /** The specification of the chain: the text it returns for `text` towards
      `target`, given what the two providers did. It is total, no outcome makes it fail, and what
      it returns is never empty. */
  function Translate(text: string, target: Lang, p: PrimaryOutcome, s: SecondaryOutcome): (r: string)
    ensures r != ""
  {
    match PrimaryAccepted(p)
    case Some(t) => t
    case None =>
      match s
      case SecondaryThrew => UnavailableMarker + text
      case SecondaryReplied(ok, status, translated) =>
        if !ok then UnavailableMarker + text
        else
          match SecondaryAccepted(status, translated, text)
          case Some(t) => t
          case None => if target == Bn then Fallback(text, Bn) else FailedMarker + text
  }

  /** The chain as the page runs it, step by step. `Translate` is its
      specification. */
  method TranslateChain(text: string, target: Lang, p: PrimaryOutcome, s: SecondaryOutcome) returns (r: string)
    ensures r == Translate(text, target, p, s)
  {
    var accepted := PrimaryAccepted(p);
    if accepted.Some? {
      return accepted.value;
    }
    match s {
      case SecondaryThrew =>
        r := UnavailableMarker + text;
      case SecondaryReplied(ok, status, translated) =>
        if !ok {
          r := UnavailableMarker + text;
        } else {
          var second := SecondaryAccepted(status, translated, text);
          if second.Some? {
            r := second.value;
          } else if target == Bn {
            r := FallbackTranslation(text, target);
          } else {
            r := FailedMarker + text;
          }
        }
    }
  }

  // ---------------------------------------------------------------------------
  // Properties of the chain

  /** An accepted primary result wins whatever the secondary does; any other
      primary outcome behaves exactly like a thrown primary call. */
  lemma PrimaryDecidesFirst(text: string, target: Lang, p: PrimaryOutcome, s: SecondaryOutcome)
    ensures PrimaryAccepted(p).Some? ==> Translate(text, target, p, s) == PrimaryAccepted(p).value
    ensures PrimaryAccepted(p).None? ==> Translate(text, target, p, s) == Translate(text, target, PrimaryThrew, s)
  {
  }

  /** A secondary result equal to the input up to letter case counts as no
      result at all. */
  lemma EchoIsRejected(text: string, target: Lang, p: PrimaryOutcome, status: int, echo: string)
    requires Lower(echo) == Lower(text)
    ensures Translate(text, target, p, SecondaryReplied(true, status, Some(echo)))
         == Translate(text, target, p, SecondaryReplied(true, status, None))
  {
    assert SecondaryAccepted(status, Some(echo), text).None?;
    assert SecondaryAccepted(status, None, text).None?;
  }

  /** A secondary reply whose `responseStatus` is not 200 counts as no result,
      whatever text it carries. */
  lemma BadStatusIsNoResult(text: string, target: Lang, p: PrimaryOutcome, status: int, translated: Option<string>)
    requires status != 200
    ensures Translate(text, target, p, SecondaryReplied(true, status, translated))
         == Translate(text, target, p, SecondaryReplied(true, status, None))
  {
  }

  /** A failed secondary request, or one answered with a non-ok status, ends the
      chain with the "unavailable" marker; the dictionary is not consulted. */
  lemma SecondaryFailureIsUnavailable(text: string, target: Lang, p: PrimaryOutcome, s: SecondaryOutcome)
    requires PrimaryAccepted(p).None?
    requires s.SecondaryThrew? || !s.ok
    ensures Translate(text, target, p, s) == UnavailableMarker + text
  {
  }

  /** When both providers were reached and neither result was taken, the
      dictionary answers towards Bengali and the "failed" marker towards English. */
  lemma NoProviderResult(text: string, target: Lang, p: PrimaryOutcome, status: int, translated: Option<string>)
    requires PrimaryAccepted(p).None? && SecondaryAccepted(status, translated, text).None?
    ensures target == Bn ==> Translate(text, target, p, SecondaryReplied(true, status, translated)) == Fallback(text, Bn)
    ensures target == En ==> Translate(text, target, p, SecondaryReplied(true, status, translated)) == FailedMarker + text
  {
  }

  /** Substitution with non-empty replacements empties only the empty text. */
  lemma {:induction false} SubstituteAllEmpty(s: string, terms: seq<(string, string)>)
    requires KeysNonEmpty(terms)
    requires forall i :: 0 <= i < |terms| ==> |terms[i].1| > 0
    ensures SubstituteAll(s, terms) == "" ==> s == ""
    decreases |terms|
  {
    if terms != [] {
      var s' := ReplaceAll(s, terms[0].0, terms[0].1);
      SubstituteAllEmpty(s', terms[1..]);
      ReplaceAllEmpty(s, terms[0].0, terms[0].1);
    }
  }

  /** Substitution leaves a text alone when none of the terms occurs in it. */
  lemma {:induction false} SubstituteAllIdentity(s: string, terms: seq<(string, string)>)
    requires KeysNonEmpty(terms)
    requires forall i :: 0 <= i < |terms| ==> !Occurs(s, terms[i].0)
    ensures SubstituteAll(s, terms) == s
    decreases |terms|
  {
    if terms != [] {
      SubstituteAllIdentity(s, terms[1..]);
    }
  }

  /** A text that contains no dictionary term comes back behind the Bengali marker. */
  lemma NoTermGivesMarker(text: string)
    requires forall i :: 0 <= i < |MedicalTerms()| ==> !Occurs(text, MedicalTerms()[i].0)
    ensures Fallback(text, Bn) == BengaliNeededMarker + text
  {
    MedicalTermsKeysNonEmpty();
    SubstituteAllIdentity(text, MedicalTerms());
  }

  lemma {:induction false} SubstituteAllAppend(s: string, a: seq<(string, string)>, b: seq<(string, string)>)
    requires KeysNonEmpty(a) && KeysNonEmpty(b)
    ensures KeysNonEmpty(a + b)
    ensures SubstituteAll(s, a + b) == SubstituteAll(SubstituteAll(s, a), b)
    decreases |a|
  {
    if a == [] {
      assert a + b == b;
    } else {
      assert (a + b)[1..] == a[1..] + b;
      SubstituteAllAppend(ReplaceAll(s, a[0].0, a[0].1), a[1..], b);
    }
  }

  /** The two facts about the last two entries that make the last one dead:
      the Bengali for "too late" cannot take part in an occurrence of
      "too late", and "too late" occurs in the last key at position 6. */
  lemma TooLateFacts(k14: string, r14: string, k15: string)
    requires k14 == "too late" && r14 == "খুব দেরি"
    requires k15 == "Is 25 too late for a Pap smear?"
    ensures |r14| > 0 && FoldsApart(r14[0], k14) && FoldsApart(r14[|r14| - 1], k14)
    ensures !Occurs(r14, k14)
    ensures MatchAt(k15, k14, 6)
  {
    TooLateBlocked(k14, r14);
    TooLateInLastKey(k14, k15);
  }

  lemma TooLateBlocked(k14: string, r14: string)
    requires k14 == "too late" && r14 == "খুব দেরি"
    ensures |r14| > 0 && FoldsApart(r14[0], k14) && FoldsApart(r14[|r14| - 1], k14)
    ensures !Occurs(r14, k14)
  {
    assert Ascii(k14);
    NonAsciiFoldsApart(r14[0], k14);
    NonAsciiFoldsApart(r14[|r14| - 1], k14);
    forall i | 0 <= i <= |r14| ensures !MatchAt(r14, k14, i) {
      if i == 0 {
        assert LowerChar(r14[0]) != LowerChar(k14[0]);
      }
    }
  }

  lemma TooLateInLastKey(k14: string, k15: string)
    requires k14 == "too late" && k15 == "Is 25 too late for a Pap smear?"
    ensures MatchAt(k15, k14, 6)
  {
    var pre, post := "Is 25 ", " for a Pap smear?";
    assert k15 == pre + k14 + post;
    forall j | 0 <= j < |k14| ensures LowerChar(k15[6 + j]) == LowerChar(k14[j]) {
      assert k15[6 + j] == (pre + k14 + post)[|pre| + j] == k14[j];
    }
  }

  /** A last entry whose key contains the key before it never applies when
      the replacement of that key can take no part in an occurrence of it:
      by the time the last entry is tried, its key can no longer occur. */
  lemma ShadowedLastTerm(text: string, terms: seq<(string, string)>, off: nat)
    requires KeysNonEmpty(terms) && |terms| >= 2
    requires var k, r := terms[|terms| - 2].0, terms[|terms| - 2].1;
      && |r| > 0 && FoldsApart(r[0], k) && FoldsApart(r[|r| - 1], k) && !Occurs(r, k)
      && MatchAt(terms[|terms| - 1].0, k, off)
    ensures KeysNonEmpty(terms[..|terms| - 1])
    ensures SubstituteAll(text, terms) == SubstituteAll(text, terms[..|terms| - 1])
  {
    var n := |terms|;
    var k, r := terms[n - 2].0, terms[n - 2].1;
    var last := terms[n - 1].0;
    assert terms[..n - 1] == terms[..n - 2] + [terms[n - 2]];
    assert terms == terms[..n - 1] + [terms[n - 1]];
    SubstituteAllAppend(text, terms[..n - 2], [terms[n - 2]]);
    SubstituteAllAppend(text, terms[..n - 1], [terms[n - 1]]);
    var u := SubstituteAll(text, terms[..n - 2]);
    var v := ReplaceAll(u, k, r);
    assert SubstituteAll(text, terms[..n - 1]) == v;
    ReplaceAllRemovesKey(u, k, r);
    if Occurs(v, last) {
      OccursInside(v, last, k, off);
    }
  }

  /** The last dictionary entry never applies: its key contains "too late",
      which the entry before it has already replaced by Bengali text. */
  lemma LastTermNeverApplies(text: string)
    ensures KeysNonEmpty(MedicalTerms()[..15])
    ensures SubstituteAll(text, MedicalTerms()) == SubstituteAll(text, MedicalTerms()[..15])
  {
    MedicalTermsKeysNonEmpty();
    TooLateFacts(MedicalTerms()[14].0, MedicalTerms()[14].1, MedicalTerms()[15].0);
    ShadowedLastTerm(text, MedicalTerms(), 6);
  }
}
