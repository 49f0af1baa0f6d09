/**
  The decision logic of the SarvamAI client: which transcript speech_to_text
  keeps, and what chat and text_to_speech return for each kind of response.
  Every HTTP exchange is a given reply value; the session, the requests and
  their payloads are not part of this model.
 */
module SarvamAI {
  import opened Bytes
  import opened Wrappers
  import Base64

  /** The language speech_to_text reports when it finds no transcript. */
  const DefaultLanguage := "te-IN"

  /** The languages tried when none is given, in priority order. */
  const PriorityLanguages := ["te-IN", "hi-IN", "en-IN"]

  const TroubleReply := "I'm having trouble thinking right now."
  const ErrorReply := "Sorry, I encountered an error."

  /** What one speech-to-text request for one language comes to. */
  datatype SttReply =
    | SttRaised                                  // the request, or reading its body, raised
    | SttAnswer(status: int, transcript: string) // the "transcript" field, "" when it is missing

  /** A transcript kept by the loop: the language asked for and the text. */
  datatype Transcript = Transcript(language: string, text: string)

  /** str.isspace for one character: the Unicode whitespace Python's str.strip removes. */
  predicate IsSpace(c: char)
  {
    var n := c as int;
    || 0x09 <= n <= 0x0D || 0x1C <= n <= 0x20
    || n == 0x85 || n == 0xA0 || n == 0x1680
    || 0x2000 <= n <= 0x200A || n == 0x2028 || n == 0x2029
    || n == 0x202F || n == 0x205F || n == 0x3000
  }

  /** `len(text.strip()) > 0`: the text holds a character that is not whitespace. */
  predicate HasNonSpace(text: string)
  {
    |text| > 0 && (!IsSpace(text[0]) || HasNonSpace(text[1..]))
  }

  /** HasNonSpace holds exactly when some character of the text is not whitespace. */
  lemma {:induction false} HasNonSpaceMeans(text: string)
    ensures HasNonSpace(text) <==> exists i :: 0 <= i < |text| && !IsSpace(text[i])
  {
    if |text| > 0 {
      HasNonSpaceMeans(text[1..]);
      if HasNonSpace(text[1..]) {
        var i :| 0 <= i < |text[1..]| && !IsSpace(text[1..][i]);
        assert !IsSpace(text[i + 1]);
      }
      if exists i :: 0 <= i < |text| && !IsSpace(text[i]) {
        var i :| 0 <= i < |text| && !IsSpace(text[i]);
        if i > 0 {
          assert !IsSpace(text[1..][i - 1]);
        }
      }
    }
  }

  /** A reply contributes a transcript: status 200 and a transcript that is not blank. */
  predicate Usable(r: SttReply)
  {
    r.SttAnswer? && r.status == 200 && HasNonSpace(r.transcript)
  }

  /** `if language:` for the optional language argument: given and not empty. */
  predicate Truthy(language: Option<string>)
  {
    language.Some? && language.value != ""
  }

  /** The languages speech_to_text tries. */
  function Languages(language: Option<string>): (langs: seq<string>)
    ensures language.None? ==> langs == PriorityLanguages
    ensures language.Some? ==> langs == [language.value]
  {
    if language.None? then PriorityLanguages else [language.value]
  }

  /** The position of the first usable reply among `langs`, or |langs| when there is none. */
  function FirstUsable(langs: seq<string>, reply: string -> SttReply): (k: nat)
    ensures k <= |langs|
    ensures forall j :: 0 <= j < k ==> !Usable(reply(langs[j]))
    ensures k < |langs| ==> Usable(reply(langs[k]))
  {
    if |langs| == 0 then 0
    else if Usable(reply(langs[0])) then 0
    else 1 + FirstUsable(langs[1..], reply)
  }

  /** The position of the first reply that raises, or |langs| when none does. */
  function FirstRaised(langs: seq<string>, reply: string -> SttReply): (k: nat)
    ensures k <= |langs|
    ensures forall j :: 0 <= j < k ==> reply(langs[j]).SttAnswer?
    ensures k < |langs| ==> reply(langs[k]).SttRaised?
  {
    if |langs| == 0 then 0
    else if reply(langs[0]).SttRaised? then 0
    else 1 + FirstRaised(langs[1..], reply)
  }

  /** The position of the request that raises and ends speech_to_text, if one does. */
  function Raising(language: Option<string>, reply: string -> SttReply): nat
  {
    FirstRaised(Languages(language), reply)
  }

  /**
    Whether a request raises before speech_to_text is done: with a language
    given, before a usable transcript; with none, anywhere in the list.
   */
  predicate Raised(language: Option<string>, reply: string -> SttReply)
  {
    var langs := Languages(language);
    FirstRaised(langs, reply) < |langs|
      && (!Truthy(language) || FirstRaised(langs, reply) < FirstUsable(langs, reply))
  }

  /**
    speech_to_text(audio_bytes, language): ask for each language in turn
    (`reply` is the service's answer for a language, for this audio), keep
    the usable transcripts, stop at the first one when a language was given,
    and return the first transcript with its language; ("", "te-IN") when
    there is none or when any request raises.  `queried` lists the
    languages asked for, in order.
   */
  method SpeechToText(language: Option<string>, reply: string -> SttReply)
    returns (text: string, detected: string, queried: seq<string>)
    ensures queried <= Languages(language)
    // a request that raises ends the call with the default answer
    ensures Raised(language, reply) ==>
      text == "" && detected == DefaultLanguage && queried == Languages(language)[..Raising(language, reply) + 1]
    // otherwise the first usable transcript wins, paired with its language
    ensures !Raised(language, reply) ==>
      var langs, u := Languages(language), FirstUsable(Languages(language), reply);
      if u < |langs| then text == reply(langs[u]).transcript && detected == langs[u]
      else text == "" && detected == DefaultLanguage
    // with no language given every language is asked; with one, asking stops at a usable transcript
    ensures !Raised(language, reply) && !Truthy(language) ==> queried == Languages(language)
    ensures !Raised(language, reply) && Truthy(language) ==>
      var langs, u := Languages(language), FirstUsable(Languages(language), reply);
      queried == langs[..if u < |langs| then u + 1 else |langs|]
    ensures text == "" || HasNonSpace(text)
  {
    var langs := Languages(language);
    ghost var u, f := FirstUsable(langs, reply), FirstRaised(langs, reply);
    text, detected := "", DefaultLanguage;
    var results: seq<Transcript> := [];
    queried := [];
    var i := 0;
    while i < |langs|
      invariant i <= |langs| && i <= f
      invariant queried == langs[..i]
      invariant Truthy(language) ==> i <= u
      invariant |results| > 0 <==> u < i
      invariant |results| > 0 ==> results[0] == Transcript(langs[u], reply(langs[u]).transcript)
      invariant text == "" && detected == DefaultLanguage
    {
      var lang := langs[i];
      queried := queried + [lang];
      var r := reply(lang);
      if r.SttRaised? {
        assert f == i && (Truthy(language) ==> i < u);
        assert queried == langs[..i + 1];
        return "", DefaultLanguage, queried;
      }
      if Usable(r) {
        results := results + [Transcript(lang, r.transcript)];
        if Truthy(language) {
          text, detected := r.transcript, lang;
          assert u == i && i < f;
          assert queried == langs[..i + 1];
          break;
        }
      }
      i := i + 1;
    }
    if !Truthy(language) && |results| > 0 {
      text, detected := results[0].text, results[0].language;
    }
  }

  // ---------------------------------------------------------------------
  // chat

  /** What the chat completion request comes to. */
  datatype ChatReply =
    | ChatRaised                                  // the request, or reading its body, raised
    | ChatAnswer(status: int, content: Option<string>) // choices[0].message.content; None when the path is missing

  /** chat(messages): the first choice's content, or the fixed reply for an error status or an exception. */
  function Chat(reply: ChatReply): (answer: string)
    ensures reply.ChatAnswer? && reply.status == 200 && reply.content.Some? ==> answer == reply.content.value
    ensures reply.ChatAnswer? && reply.status != 200 ==> answer == TroubleReply
    ensures reply.ChatRaised? || (reply.status == 200 && reply.content.None?) ==> answer == ErrorReply
  {
    match reply
    case ChatRaised => ErrorReply
    case ChatAnswer(status, content) =>
      if status != 200 then TroubleReply
      else if content.None? then ErrorReply
      else content.value
  }

  /** An answer other than the two fixed replies is the content of a successful response. */
  lemma ChatContent(reply: ChatReply)
    requires Chat(reply) != TroubleReply && Chat(reply) != ErrorReply
    ensures reply == ChatAnswer(200, Some(Chat(reply)))
  {
  }

  // ---------------------------------------------------------------------
  // text_to_speech

  /** What the text-to-speech request comes to. */
  datatype TtsReply =
    | TtsRaised                                 // the request, or reading its body, raised
    | TtsAnswer(status: int, audio: Option<string>) // audios[0]; None when it is missing

  /**
    text_to_speech(text, language): the Base64-decoded first audio of a
    successful response; empty bytes for an error status, a missing audio,
    a decoding error or an exception.
   */
  function TextToSpeech(reply: TtsReply): (audio: seq<byte>)
    ensures audio != [] ==>
      (reply.TtsAnswer? && reply.status == 200 && reply.audio.Some? && Base64.Decode(reply.audio.value) == Ok(audio))
    ensures reply.TtsRaised? || reply.status != 200 || reply.audio.None? ==> audio == []
    ensures reply.TtsAnswer? && reply.status == 200 && reply.audio.Some? && Base64.Decode(reply.audio.value).Ok? ==>
      audio == Base64.Decode(reply.audio.value).value
  {
    match reply
    case TtsRaised => []
    case TtsAnswer(status, encoded) =>
      if status != 200 || encoded.None? then []
      else
        match Base64.Decode(encoded.value)
        case Ok(bytes) => bytes
        case Err(_) => []
  }

  /** Audio the service sends Base64-encoded with status 200 comes back byte for byte. */
  lemma TextToSpeechDecodes(bytes: seq<byte>)
    ensures TextToSpeech(TtsAnswer(200, Some(Base64.Encode(bytes)))) == bytes
  {
    Base64.DecodeEncode(bytes);
  }
}
