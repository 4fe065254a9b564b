/**
 The text-to-speech wrapper: input validation, the call to the speech
 service (a parameter here), and the shaping of every reply into a
 success-or-error result.
 */
module Tts {
  import opened Text

  newtype byte = x: int | 0 <= x < 256

  /** A value that may be absent, as an optional dictionary key is. */
  datatype Option<+T> = None | Some(value: T)

  /** The audio of a successful reply: the base64 text (section 4 of
      RFC 4648) of the bytes the service produced, kept symbolic. */
  datatype Audio = Base64Of(bytes: seq<byte>)

  /** A reply: `{"success": True}` with or without audio, or
      `{"success": False, "error": ...}`. */
  datatype Result = Success(audio: Option<Audio>) | Failure(error: string)

  /** What the speech service is asked for. */
  datatype SpeechRequest = SpeechRequest(model: string, input: string, voice: string)

  /** What the speech service can answer: audio bytes, the client library
      being absent, or an exception carrying a message. */
  datatype ServiceOutcome = Spoken(bytes: seq<byte>) | ClientMissing | Raised(message: string)

  /** The voices the service accepts, in the order the error message lists them. */
  const ValidVoices: seq<string> := ["alloy", "echo", "fable", "onyx", "nova", "shimmer"]

  /** The voice used when the caller names none. */
  const DefaultVoice: string := "alloy"

  /** The speech model every request names. */
  const SpeechModel: string := "tts-1"

  /** The longest text accepted, in characters. */
  const MaxTextLength: nat := 4000

  const TextRequired: string := "Text is required"
  const TextTooLong: string := "Text must be less than 4000 characters"
  const InvalidVoicePrefix: string := "Invalid voice option. Must be one of: "
  const InvalidVoice: string := InvalidVoicePrefix + Join(", ", ValidVoices)
  const ClientMissingError: string := "A4F library not found. Please install required dependencies."
  const RateLimitError: string := "Rate limit exceeded. Please try again later."
  const QuotaError: string := "Service quota exceeded. Please try again later."
  const ServiceErrorPrefix: string := "TTS service error: "

  /** The three checks on a request, applied in order: the text is not
      blank, the raw text is at most `MaxTextLength` characters, the voice is
      one of `ValidVoices`. The first failing check names the error. */
  function ValidateInput(text: string, voice: string): (r: Result)
    ensures r.Success? <==> !AllWhitespace(text) && |text| <= MaxTextLength && voice in ValidVoices
    ensures r.Success? ==> r.audio == None
    ensures AllWhitespace(text) ==> r == Failure(TextRequired)
    ensures !AllWhitespace(text) && |text| > MaxTextLength ==> r == Failure(TextTooLong)
    ensures !AllWhitespace(text) && |text| <= MaxTextLength && voice !in ValidVoices
            ==> r == Failure(InvalidVoice)
  {
    StripEmptyIffBlank(text);
    if |text| == 0 || Strip(text) == [] then
      Failure(TextRequired)
    else if |text| > MaxTextLength then
      Failure(TextTooLong)
    else if voice !in ValidVoices then
      Failure(InvalidVoice)
    else
      Success(None)
  }

  /** Which of the service-error rules an exception message falls under. */
  datatype FailureKind = RateLimited | QuotaExceeded | OtherFailure

  /** The rules in order: "rate limit" anywhere in the lower-cased message
      wins, then "quota", then anything else. */
  function KindOf(message: string): (k: FailureKind)
    ensures k == RateLimited <==> IsSubstring("rate limit", ToLower(message))
    ensures k == QuotaExceeded
            <==> !IsSubstring("rate limit", ToLower(message)) && IsSubstring("quota", ToLower(message))
  {
    var lowered := ToLower(message);
    if Contains(lowered, "rate limit") then RateLimited
    else if Contains(lowered, "quota") then QuotaExceeded
    else OtherFailure
  }

  /** The error text reported for an exception raised by the service. */
  function ClassifyFailure(message: string): (e: string)
    ensures IsSubstring("rate limit", ToLower(message)) ==> e == RateLimitError
    ensures !IsSubstring("rate limit", ToLower(message)) && IsSubstring("quota", ToLower(message))
            ==> e == QuotaError
    ensures !IsSubstring("rate limit", ToLower(message)) && !IsSubstring("quota", ToLower(message))
            ==> e == ServiceErrorPrefix + message
  {
    match KindOf(message)
    case RateLimited => RateLimitError
    case QuotaExceeded => QuotaError
    case OtherFailure => ServiceErrorPrefix + message
  }

  /** The request sent to the service for `text` and `voice`. */
  function RequestFor(text: string, voice: string): (req: SpeechRequest)
    ensures req.model == SpeechModel && req.voice == voice
    ensures IsStripOf(req.input, text)
  {
    SpeechRequest(SpeechModel, Strip(text), voice)
  }

  /** The whole operation. `speak` stands for the speech service; it is
      asked only once the input has passed validation. A call that names no
      voice uses `DefaultVoice`. */
  function TextToSpeech(text: string, speak: SpeechRequest -> ServiceOutcome,
                        voice: string := DefaultVoice): (r: Result)
    ensures ValidateInput(text, voice).Failure? ==> r == ValidateInput(text, voice)
    ensures r.Success? <==> ValidateInput(text, voice).Success? && speak(RequestFor(text, voice)).Spoken?
    ensures r.Success? ==> r.audio == Some(Base64Of(speak(RequestFor(text, voice)).bytes))
    ensures ValidateInput(text, voice).Success? && speak(RequestFor(text, voice)).Raised?
            ==> r == Failure(ClassifyFailure(speak(RequestFor(text, voice)).message))
  {
    var validation := ValidateInput(text, voice);
    if validation.Failure? then
      validation
    else
      match speak(RequestFor(text, voice))
      case Spoken(bytes) => Success(Some(Base64Of(bytes)))
      case ClientMissing => Failure(ClientMissingError)
      case Raised(message) => Failure(ClassifyFailure(message))
  }
}
