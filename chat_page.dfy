/** The chat page: its conversation history, the submit guard and the two
    halves of a question round trip, speech capture, the read-aloud flags and
    the notification slot. Each handler, and each part of a handler between
    the start of an asynchronous call and its continuation, is one atomic step;
    what the browser, the answer service, the translation providers, the speech
    recognizer and the speech service did is passed in as an outcome. */
module ChatPage {
  import opened Wrappers
  import opened Text
  import opened Language
  import opened Translation

  // ---------------------------------------------------------------------------
  // Messages and outcomes

  datatype Role = User | Bot

  /** One entry of the conversation. The three question fields are set on bot
      replies only; `isSpeaking` marks the reply being read aloud. */
  datatype ChatMessage = ChatMessage(
    role: Role,
    message: string,
    language: Lang,
    originalQuestion: Option<string>,
    translatedQuestion: Option<string>,
    questionLanguage: Option<Lang>,
    isSpeaking: bool)

  datatype ToastKind = Info | Success | Error

  /** The single notification slot. */
  datatype Toast = Toast(show: bool, title: string, description: string, kind: ToastKind)

  const HiddenToast := Toast(false, "", "", Info)

  /** What the request to the answer service produced. `AnswerThrew` covers a
      rejected request and a body that is not JSON; `answer` is the body's
      `answer` field. */
  datatype AnswerOutcome =
    | AnswerThrew
    | AnswerReplied(ok: bool, answer: Option<string>)

  /** The body sent to the answer service. */
  datatype AnswerRequest = AnswerRequest(question: string, language: Lang, originalLanguage: Lang)

  /** What the two translation providers did for one translation. */
  datatype ProviderOutcomes = ProviderOutcomes(primary: PrimaryOutcome, secondary: SecondaryOutcome)

  /** What the request to the speech service produced: a thrown error with its
      message, a non-ok reply with its optional `details` field, or audio that
      started playing. */
  datatype SynthesisOutcome =
    | SynthesisThrew(message: string)
    | SynthesisRejected(details: Option<string>)
    | SynthesisPlaying

  // ---------------------------------------------------------------------------
  // The read-aloud flags

  /** Two messages that differ at most in their speaking flag. */
  predicate SameButFlag(a: ChatMessage, b: ChatMessage) {
    a.(isSpeaking := false) == b.(isSpeaking := false)
  }

  /** Message `i` is marked as speaking and every other one as silent. */
  function SpeakOnly(h: seq<ChatMessage>, i: int): (h': seq<ChatMessage>)
    ensures |h'| == |h|
    ensures forall k :: 0 <= k < |h| ==> SameButFlag(h'[k], h[k]) && (h'[k].isSpeaking <==> k == i)
  {
    seq(|h|, k requires 0 <= k < |h| => h[k].(isSpeaking := k == i))
  }

  /** Message `i` is marked as silent; the others keep their flag. */
  function ClearSpeakingAt(h: seq<ChatMessage>, i: int): (h': seq<ChatMessage>)
    ensures |h'| == |h|
    ensures forall k :: 0 <= k < |h| ==> SameButFlag(h'[k], h[k]) && (h'[k].isSpeaking <==> h[k].isSpeaking && k != i)
  {
    seq(|h|, k requires 0 <= k < |h| => if k == i then h[k].(isSpeaking := false) else h[k])
  }

  /** Every message is marked as silent. */
  function ClearAllSpeaking(h: seq<ChatMessage>): (h': seq<ChatMessage>)
    ensures |h'| == |h|
    ensures forall k :: 0 <= k < |h| ==> SameButFlag(h'[k], h[k]) && !h'[k].isSpeaking
  {
    seq(|h|, k requires 0 <= k < |h| => h[k].(isSpeaking := false))
  }

  predicate AtMostOneSpeaking(h: seq<ChatMessage>) {
    forall j, k :: 0 <= j < |h| && 0 <= k < |h| && h[j].isSpeaking && h[k].isSpeaking ==> j == k
  }

  /** A message is marked as speaking only when it is the one whose audio is
      live, that is, whose end and error handlers can still fire. */
  predicate PlaybackConsistent(h: seq<ChatMessage>, playing: Option<nat>) {
    forall k :: 0 <= k < |h| && h[k].isSpeaking ==> playing == Some(k)
  }

  lemma ConsistentGivesOneSpeaker(h: seq<ChatMessage>, playing: Option<nat>)
    requires PlaybackConsistent(h, playing)
    ensures AtMostOneSpeaking(h)
  {
  }

  lemma SpeakOnlyConsistent(h: seq<ChatMessage>, i: nat)
    ensures PlaybackConsistent(SpeakOnly(h, i), Some(i))
  {
  }

  lemma ClearAtConsistent(h: seq<ChatMessage>, i: nat)
    requires PlaybackConsistent(h, Some(i))
    ensures PlaybackConsistent(ClearSpeakingAt(h, i), None)
  {
  }

  lemma ClearAllConsistent(h: seq<ChatMessage>, playing: Option<nat>)
    ensures PlaybackConsistent(ClearAllSpeaking(h), playing)
  {
  }

  /** Appending a silent message keeps the flags consistent. */
  lemma AppendSilentConsistent(h: seq<ChatMessage>, m: ChatMessage, playing: Option<nat>)
    requires PlaybackConsistent(h, playing) && !m.isSpeaking
    ensures PlaybackConsistent(h + [m], playing)
  {
  }

  // ---------------------------------------------------------------------------
  // Speech capture

  /** The input after a recognized transcript: the old input, a single space
      when the old input was non-empty, then the transcript. */
  function AppendTranscript(prev: string, transcript: string): (r: string)
    ensures |r| == |prev| + (if prev == "" then 0 else 1) + |transcript|
    ensures r[..|prev|] == prev && r[|r| - |transcript|..] == transcript
    ensures prev != "" ==> r[|prev|] == ' '
  {
    prev + (if prev != "" then " " else "") + transcript
  }

  const GenericRecognitionError := "An error occurred during speech recognition."

  /** The notification text for a recognizer error code. */
  function RecognitionErrorMessage(code: string): (m: string)
    ensures m != ""
  {
    if code == "no-speech" then "No speech detected. Please try again."
    else if code == "audio-capture" then "Microphone not available. Check permissions."
    else if code == "not-allowed" then "Permission to use microphone was denied."
    else GenericRecognitionError
  }

  /** The three known codes have messages of their own, different from each
      other; every other code gets the generic one. */
  lemma RecognitionMessagesDistinct(a: string, b: string)
    ensures RecognitionErrorMessage(a) == GenericRecognitionError
        <==> a != "no-speech" && a != "audio-capture" && a != "not-allowed"
    ensures RecognitionErrorMessage(a) == RecognitionErrorMessage(b) && RecognitionErrorMessage(a) != GenericRecognitionError
        ==> a == b
  {
  }

  // ---------------------------------------------------------------------------
  // A question round trip

  const NoAnswerText := "I'm sorry, I couldn't process your question."
  // The apologies are written in short pieces so that the verifier can read
  // their characters.
  const Sorry1 := "I'm sorry, I couldn't "
  const Sorry2 := "process your question "
  const Sorry3 := "at the moment. "
  const Sorry4 := "Please try again later."
  const EnglishApology := Sorry1 + Sorry2 + Sorry3 + Sorry4
  const BengaliApology := "দুঃখিত, আমি এই " + "মুহূর্তে আপনার প্রশ্নের উত্তর দিতে পারছি না। অনুগ্রহ করে পরে আবার চেষ্টা করুন।"

  /** The message a user's question becomes. */
  function UserMessage(q: string): (m: ChatMessage)
    ensures m.role == User && m.message == q && m.language == DetectLanguage(q)
    ensures m.originalQuestion.None? && m.translatedQuestion.None? && m.questionLanguage.None?
    ensures !m.isSpeaking
  {
    ChatMessage(User, q, DetectLanguage(q), None, None, None, false)
  }

  /** The service's answer, or a fixed text when the answer is absent or empty. */
  function BotReply(answer: Option<string>): (r: string)
    ensures r != ""
    ensures Truthy(answer) ==> r == answer.value
    ensures !Truthy(answer) ==> r == NoAnswerText
  {
    if Truthy(answer) then answer.value else NoAnswerText
  }

  /** The fixed reply when the service failed, in the reply language. */
  function Apology(user: Lang): (a: string)
    ensures a != ""
  {
    if user == En then BengaliApology else EnglishApology
  }

  /** The apology is written in the language the reply is due in. */
  lemma ApologyInReplyLanguage(user: Lang)
    ensures DetectLanguage(Apology(user)) == Opposite(user)
  {
    if user == En {
      BengaliApologyIsBengali();
    } else {
      EnglishApologyIsEnglish();
    }
  }

  lemma BengaliApologyIsBengali()
    ensures DetectLanguage(BengaliApology) == Bn
  {
    assert IsBengaliChar(BengaliApology[0]);
  }

  lemma ApologyPiecesAscii()
    ensures Ascii(Sorry1) && Ascii(Sorry2) && Ascii(Sorry3) && Ascii(Sorry4)
  {
  }

  lemma EnglishApologyIsEnglish()
    ensures DetectLanguage(EnglishApology) == En
  {
    ApologyPiecesAscii();
    AsciiConcat(Sorry1, Sorry2);
    AsciiConcat(Sorry1 + Sorry2, Sorry3);
    AsciiConcat(Sorry1 + Sorry2 + Sorry3, Sorry4);
    NoBengaliIsEnglish(EnglishApology);
  }

  /** The service answered: the request succeeded with an ok status. */
  predicate Answered(a: AnswerOutcome) {
    a.AnswerReplied? && a.ok
  }

  /** The request a question leads to: an English question is sent as written,
      a Bengali one in its English translation; the reply language is the other
      one. */
  function RequestFor(q: string, translated: string): (r: AnswerRequest)
    ensures r.originalLanguage == DetectLanguage(q) && r.language == Opposite(r.originalLanguage)
    ensures r.originalLanguage == En ==> r.question == q
    ensures r.originalLanguage == Bn ==> r.question == translated
  {
    var user := DetectLanguage(q);
    AnswerRequest(if user == En then q else translated, Opposite(user), user)
  }

  /** The bot message a question round trip ends with. `fq` translates the
      question, `fa` the answer (used for an English question only) and `fr`
      the question again after a failed request. */
  function ReplyMessage(q: string, answer: AnswerOutcome, fq: ProviderOutcomes,
                        fa: ProviderOutcomes, fr: ProviderOutcomes): (m: ChatMessage)
    ensures var user := DetectLanguage(q);
      && m.role == Bot && m.language == Opposite(user) && !m.isSpeaking
      && m.originalQuestion == Some(q) && m.questionLanguage == Some(user)
      && (Answered(answer) ==>
            m.translatedQuestion == Some(Translate(q, Opposite(user), fq.primary, fq.secondary))
            && (user == Bn ==> m.message == BotReply(answer.answer))
            && (user == En ==> m.message == Translate(BotReply(answer.answer), Bn, fa.primary, fa.secondary)))
      && (!Answered(answer) ==>
            m.translatedQuestion == Some(Translate(q, Opposite(user), fr.primary, fr.secondary))
            && m.message == Apology(user))
  {
    var user := DetectLanguage(q);
    var target := Opposite(user);
    if Answered(answer) then
      var reply := BotReply(answer.answer);
      ChatMessage(Bot, if user == En then Translate(reply, Bn, fa.primary, fa.secondary) else reply, target,
                  Some(q), Some(Translate(q, target, fq.primary, fq.secondary)), Some(user), false)
    else
      ChatMessage(Bot, Apology(user), target, Some(q), Some(Translate(q, target, fr.primary, fr.secondary)), Some(user), false)
  }

  /** A reply is never empty, and a failed round trip answers in the reply
      language itself. */
  lemma ReplyNonEmpty(q: string, answer: AnswerOutcome, fq: ProviderOutcomes, fa: ProviderOutcomes, fr: ProviderOutcomes)
    ensures ReplyMessage(q, answer, fq, fa, fr).message != ""
    ensures !Answered(answer) ==>
      DetectLanguage(ReplyMessage(q, answer, fq, fa, fr).message) == ReplyMessage(q, answer, fq, fa, fr).language
  {
    var m := ReplyMessage(q, answer, fq, fa, fr);
    if !Answered(answer) {
      ApologyInReplyLanguage(DetectLanguage(q));
    }
  }

  /** Appending two messages one after the other appends the pair. */
  lemma AppendTwo(h: seq<ChatMessage>, a: ChatMessage, b: ChatMessage)
    ensures h + [a] + [b] == h + [a, b]
  {
  }

  const FailureToast := Toast(true, "Error", "Failed to get response. Please try again.", Error)

  // ---------------------------------------------------------------------------
  // The page

  /** Every field of the page that its handlers change. `pending` is the
      question captured by a submission whose reply has not come back yet. */
  datatype PageState = PageState(
    question: string,
    loading: bool,
    history: seq<ChatMessage>,
    listening: bool,
    translating: bool,
    toast: Toast,
    playing: Option<nat>,
    pending: Option<string>)

  class Page {
    var question: string
    var loading: bool
    var history: seq<ChatMessage>
    var listening: bool
    var translating: bool
    var toast: Toast
    /** The message whose audio is live, if any. */
    var playing: Option<nat>
    var pending: Option<string>
    /** Whether the browser provides a speech recognizer. */
    const recognizer: bool

    function State(): PageState
      reads this
    {
      PageState(question, loading, history, listening, translating, toast, playing, pending)
    }

    /** The page's invariant between steps: the speaking flags follow the live
        audio, a reply is awaited exactly while loading, no translation is in
        progress, and the page listens only when it has a recognizer. */
    predicate Valid()
      reads this
    {
      && PlaybackConsistent(history, playing)
      && (loading <==> pending.Some?)
      && !translating
      && (listening ==> recognizer)
    }

    constructor(recognizer: bool)
      ensures Valid() && this.recognizer == recognizer
      ensures State() == PageState("", false, [], false, false, HiddenToast, None, None)
    {
      question := "";
      loading := false;
      history := [];
      listening := false;
      translating := false;
      toast := HiddenToast;
      playing := None;
      pending := None;
      this.recognizer := recognizer;
    }

    /** The notification slot is overwritten; an earlier notification is lost. */
    method ShowToast(title: string, description: string, kind: ToastKind)
      modifies this
      ensures State() == old(State()).(toast := Toast(true, title, description, kind))
    {
      toast := Toast(true, title, description, kind);
    }

    /** The close button, and also the dismissal timer of any earlier notification. */
    method DismissToast()
      modifies this
      ensures State() == old(State()).(toast := HiddenToast)
    {
      toast := HiddenToast;
    }

    /** Typing into the input box. */
    method EditQuestion(text: string)
      modifies this
      ensures State() == old(State()).(question := text)
    {
      question := text;
    }

    // -------------------------------------------------------------------------
    // Speech capture

    method StartListening(startThrows: bool)
      modifies this
      ensures !recognizer ==> State() == old(State()).(toast :=
        Toast(true, "Unsupported Feature", "Speech recognition is not supported in your browser.", Error))
      ensures recognizer && !startThrows ==> State() == old(State()).(listening := true)
      ensures recognizer && startThrows ==> State() == old(State()).(listening := false, toast :=
        Toast(true, "Speech Recognition Error", "Failed to start voice recognition.", Error))
    {
      if !recognizer {
        ShowToast("Unsupported Feature", "Speech recognition is not supported in your browser.", Error);
        return;
      }
      listening := true;
      if startThrows {
        listening := false;
        ShowToast("Speech Recognition Error", "Failed to start voice recognition.", Error);
      }
    }

    /** Stopping acts only while listening, and a failing stop also ends
        listening, so the outcome of the recognizer's stop is irrelevant. */
    method StopListening()
      modifies this
      ensures recognizer && old(listening) ==> State() == old(State()).(listening := false)
      ensures !(recognizer && old(listening)) ==> State() == old(State())
    {
      if recognizer && listening {
        listening := false;
      }
    }

    method OnRecognitionResult(transcript: string)
      modifies this
      ensures State() == old(State()).(question := AppendTranscript(old(question), transcript), listening := false)
    {
      question := AppendTranscript(question, transcript);
      listening := false;
    }

    method OnRecognitionError(code: string)
      modifies this
      ensures State() == old(State()).(listening := false, toast :=
        Toast(true, "Speech Recognition Error", RecognitionErrorMessage(code), Error))
    {
      listening := false;
      ShowToast("Speech Recognition Error", RecognitionErrorMessage(code), Error);
    }

    method OnRecognitionEnd()
      modifies this
      ensures State() == old(State()).(listening := false)
    {
      listening := false;
    }

    /** The microphone button: shown only with a recognizer, disabled while a
        question is in flight, and a toggle between stop and start. */
    method PressMic(startThrows: bool)
      requires Valid()
      modifies this
      ensures Valid()
      ensures !recognizer || old(loading) || old(translating) ==> State() == old(State())
      ensures recognizer && !old(loading) && old(listening) ==> State() == old(State()).(listening := false)
      ensures recognizer && !old(loading) && !old(listening) && !startThrows ==> State() == old(State()).(listening := true)
      ensures recognizer && !old(loading) && !old(listening) && startThrows ==> State() == old(State()).(toast :=
        Toast(true, "Speech Recognition Error", "Failed to start voice recognition.", Error))
    {
      if recognizer && !loading && !translating {
        if listening {
          StopListening();
        } else {
          StartListening(startThrows);
        }
      }
    }

    // -------------------------------------------------------------------------
    // Reading a message aloud

    /** Reading message `index` aloud. A missing message or an empty one changes
        nothing. Otherwise the audio playing so far is paused, the message is
        the only one marked as speaking, and a failed request clears every
        mark and shows the error. */
    method SpeakText(index: int, outcome: SynthesisOutcome)
      requires Valid()
      modifies this
      ensures Valid()
      ensures |history| == |old(history)|
      ensures !(0 <= index < |old(history)|) || old(history)[index].message == "" ==> State() == old(State())
      ensures 0 <= index < |old(history)| && old(history)[index].message != "" ==>
        match outcome
        case SynthesisPlaying =>
          State() == old(State()).(history := SpeakOnly(old(history), index), playing := Some(index))
        case SynthesisRejected(details) =>
          State() == old(State()).(history := ClearAllSpeaking(SpeakOnly(old(history), index)), playing := None,
            toast := Toast(true, "Speech Error", if Truthy(details) then details.value else "Failed to fetch audio from API", Error))
        case SynthesisThrew(message) =>
          State() == old(State()).(history := ClearAllSpeaking(SpeakOnly(old(history), index)), playing := None,
            toast := Toast(true, "Speech Error", message, Error))
    {
      if !(0 <= index < |history|) || history[index].message == "" {
        return;
      }
      playing := None;
      history := SpeakOnly(history, index);
      SpeakOnlyConsistent(old(history), index);
      match outcome {
        case SynthesisPlaying =>
          playing := Some(index);
        case SynthesisRejected(details) =>
          ShowToast("Speech Error", if Truthy(details) then details.value else "Failed to fetch audio from API", Error);
          history := ClearAllSpeaking(history);
        case SynthesisThrew(message) =>
          ShowToast("Speech Error", message, Error);
          history := ClearAllSpeaking(history);
      }
    }

    /** The live audio finished: its message is no longer marked. */
    method OnPlaybackEnded()
      requires Valid()
      modifies this
      ensures Valid()
      ensures old(playing).Some? ==>
        State() == old(State()).(history := ClearSpeakingAt(old(history), old(playing).value), playing := None)
      ensures old(playing).None? ==> State() == old(State())
    {
      if playing.Some? {
        ClearAtConsistent(history, playing.value);
        history := ClearSpeakingAt(history, playing.value);
        playing := None;
      }
    }

    /** The live audio failed to play: its message is no longer marked and the
        error is shown. */
    method OnPlaybackError()
      requires Valid()
      modifies this
      ensures Valid()
      ensures old(playing).Some? ==>
        State() == old(State()).(history := ClearSpeakingAt(old(history), old(playing).value), playing := None,
          toast := Toast(true, "Speech Error", "Failed to play the synthesized audio.", Error))
      ensures old(playing).None? ==> State() == old(State())
    {
      if playing.Some? {
        ClearAtConsistent(history, playing.value);
        history := ClearSpeakingAt(history, playing.value);
        playing := None;
        ShowToast("Speech Error", "Failed to play the synthesized audio.", Error);
      }
    }

    // -------------------------------------------------------------------------
    // Translation and the question round trip

    /** The translation chain with its progress flag: set on entry and cleared
        on every way out. `Translation.Translate` is its specification; the
        method adds only the flag and the page state. */
    method TranslateText(text: string, target: Lang, o: ProviderOutcomes) returns (r: string)
      modifies this
      ensures r == Translate(text, target, o.primary, o.secondary)
      ensures State() == old(State()).(translating := false)
    {
      translating := true;
      r := TranslateChain(text, target, o.primary, o.secondary);
      translating := false;
    }

    /** The first half of a submission, up to the first asynchronous call: it
        is refused when the input is blank or a question is in flight;
        otherwise the user's message is appended and the page waits for the
        reply. */
    method Submit() returns (accepted: bool)
      requires Valid()
      modifies this
      ensures Valid()
      ensures accepted <==> Trim(old(question), JsSpaces) != "" && !old(loading) && !old(translating)
      ensures !accepted ==> State() == old(State())
      ensures accepted ==> State() == old(State()).(history := old(history) + [UserMessage(old(question))],
        loading := true, pending := Some(old(question)))
    {
      var q := question;
      if Trim(q, JsSpaces) == "" || loading || translating {
        return false;
      }
      var m := UserMessage(q);
      AppendSilentConsistent(history, m, playing);
      history := history + [m];
      loading := true;
      pending := Some(q);
      accepted := true;
      assert PlaybackConsistent(history, playing);
      assert State() == old(State()).(history := old(history) + [m], loading := true, pending := Some(q));
      assert Valid();
      assert q == old(question) && m == UserMessage(old(question));
    }

    /** The second half of a submission: the question is translated, sent, and
        exactly one bot message is appended, the answer or an apology; the page
        then stops waiting and empties the input box, discarding whatever was
        typed meanwhile. */
    method Finish(fq: ProviderOutcomes, answer: AnswerOutcome, fa: ProviderOutcomes, fr: ProviderOutcomes)
      returns (sent: AnswerRequest)
      requires Valid() && pending.Some?
      modifies this
      ensures Valid()
      ensures var q := old(pending).value;
        && sent == RequestFor(q, Translate(q, Opposite(DetectLanguage(q)), fq.primary, fq.secondary))
        && State() == old(State()).(
             history := old(history) + [ReplyMessage(q, answer, fq, fa, fr)],
             loading := false, question := "", pending := None,
             toast := if Answered(answer) then old(toast) else FailureToast)
    {
      var q := pending.value;
      var user := DetectLanguage(q);
      var target := if user == En then Bn else En;
      var translatedQuestion := TranslateText(q, target, fq);
      var questionForService := if user == En then q else translatedQuestion;
      sent := AnswerRequest(questionForService, target, user);
      var reply: ChatMessage;
      if answer.AnswerReplied? && answer.ok {
        var botResponse := BotReply(answer.answer);
        if target == Bn && user == En {
          botResponse := TranslateText(botResponse, Bn, fa);
        }
        reply := ChatMessage(Bot, botResponse, target, Some(q), Some(translatedQuestion), Some(user), false);
        history := history + [reply];
      } else {
        var retried := TranslateText(q, target, fr);
        reply := ChatMessage(Bot, Apology(user), target, Some(q), Some(retried), Some(user), false);
        history := history + [reply];
        ShowToast("Error", "Failed to get response. Please try again.", Error);
      }
      AppendSilentConsistent(old(history), reply, playing);
      loading := false;
      question := "";
      pending := None;
    }

    /** A whole submission when nothing happens between its two halves: refused
        as a whole, or the history grows by exactly the user's message and then
        one bot message. */
    method AskQuestion(fq: ProviderOutcomes, answer: AnswerOutcome, fa: ProviderOutcomes, fr: ProviderOutcomes)
      returns (sent: Option<AnswerRequest>)
      requires Valid()
      modifies this
      ensures Valid()
      ensures sent.None? <==> Trim(old(question), JsSpaces) == "" || old(loading) || old(translating)
      ensures sent.None? ==> State() == old(State())
      ensures sent.Some? ==>
        && history == old(history) + [UserMessage(old(question)), ReplyMessage(old(question), answer, fq, fa, fr)]
        && sent.value == RequestFor(old(question), Translate(old(question), Opposite(DetectLanguage(old(question))), fq.primary, fq.secondary))
        && !loading && question == "" && pending.None?
        && listening == old(listening) && playing == old(playing)
        && toast == (if Answered(answer) then old(toast) else FailureToast)
    {
      ghost var before := State();
      var accepted := Submit();
      if accepted {
        ghost var q := before.question;
        ghost var submitted := State();
        assert submitted == before.(history := before.history + [UserMessage(q)],
          loading := true, pending := Some(q));
        var r := Finish(fq, answer, fa, fr);
        ghost var reply := ReplyMessage(q, answer, fq, fa, fr);
        assert history == submitted.history + [reply];
        AppendTwo(before.history, UserMessage(q), reply);
        sent := Some(r);
      } else {
        sent := None;
      }
    }

    /** A key pressed in the input box: Enter without Shift submits the
        question, any other key leaves the page as it is. */
    method KeyPress(key: string, shift: bool, fq: ProviderOutcomes, answer: AnswerOutcome,
                    fa: ProviderOutcomes, fr: ProviderOutcomes)
      returns (sent: Option<AnswerRequest>)
      requires Valid()
      modifies this
      ensures Valid()
      ensures sent.Some? ==> key == "Enter" && !shift
      ensures sent.None? <==>
        !(key == "Enter" && !shift) || Trim(old(question), JsSpaces) == "" || old(loading) || old(translating)
      ensures sent.None? ==> State() == old(State())
      ensures sent.Some? ==>
        && history == old(history) + [UserMessage(old(question)), ReplyMessage(old(question), answer, fq, fa, fr)]
        && sent.value == RequestFor(old(question), Translate(old(question), Opposite(DetectLanguage(old(question))), fq.primary, fq.secondary))
        && !loading && question == "" && pending.None?
        && listening == old(listening) && playing == old(playing)
        && toast == (if Answered(answer) then old(toast) else FailureToast)
    {
      if key == "Enter" && !shift {
        sent := AskQuestion(fq, answer, fa, fr);
      } else {
        sent := None;
      }
    }
  }
}
