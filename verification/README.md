# Text-to-speech request wrapper, modelled in Dafny

The backend's text-to-speech helper (`src/utils/tts.py`) takes a text and a
voice name and returns a JSON-shaped dictionary: `{"success": True, "audio": ...}`
or `{"success": False, "error": ...}`. Before calling the external A4F
speech client, it validates the input. Three checks run in a fixed order:

1. the text is not blank;
2. the raw text is at most 4000 characters;
3. the voice is one of six names.

After the call, it turns an exception from the client into one of three
error texts. The rules are tested on the lower-cased message: "rate limit"
first, then "quota", and otherwise a generic message that carries the
original text.

The model has three modules:

- `Text` (`text.dfy`) models the Python string operations the wrapper uses,
  over `seq<char>`:
  - `str.strip()` as `Strip`, with Python's `str.isspace()` character table;
  - `str.lower()` as `ToLower`;
  - the `in` substring test as `Contains`, proved equal to an independent
    definition, `IsSubstring`;
  - `str.join` as `Join`.
- `Tts` (`tts.dfy`) has the reply type `Result`, the voice list, the exact
  error texts, and these operations:
  - `ValidateInput`;
  - the exception classifier, `KindOf` and `ClassifyFailure`;
  - `RequestFor`, the request sent to the service;
  - `TextToSpeech`, the whole operation. The speech service is the
    parameter `speak: SpeechRequest -> ServiceOutcome`. The voice is a
    parameter that defaults to `DefaultVoice` ("alloy"), as in the source.
- `TtsProperties` (`tts_properties.dfy`) holds the lemmas that relate
  several calls or fix concrete cases: check precedence, the length
  boundary, the voice listing in the error text, when the service is
  consulted, and the classification order.

A Dafny `char` is one Unicode scalar value, so `|text|` counts what Python's
`len` counts for any string without lone surrogates.

The length check's guard is `len(text) > 4000`, so a text of exactly 4000
characters is accepted, although the error text says "less than 4000". The
model follows the guard (`LengthBoundary`).

## Model

| member | source | states |
|---|---|---|
| Text.Strip | src/utils/tts.py:37 | The stripped text is a slice of the input. Only whitespace was removed before and after it, and it neither starts nor ends with whitespace. |
| Text.WhitespaceTable | src/utils/tts.py:12 | The characters `IsWhitespace` accepts, and so the ones `Strip` removes, are exactly the 29 code points of Python's `str.isspace()` table, the set `str.strip()` removes. |
| Text.StripEmptyIffBlank | src/utils/tts.py:12 | `not text.strip()` holds exactly when every character of the text is whitespace, the empty text included. |
| Text.ToLower | src/utils/tts.py:49 | Lower-casing keeps the length and leaves no upper-case ASCII letter. Each letter A-Z becomes its lower-case letter, and every other character is kept. |
| Text.ToLowerIdempotent | src/utils/tts.py:49-51 | Lower-casing an already lower-cased message changes nothing. |
| Text.Contains | src/utils/tts.py:49-51 | The left-to-right search answers true exactly when the needle occurs at some offset of the haystack. |
| Text.JoinContainsItems | src/utils/tts.py:19 | Every item of a `", ".join(...)` occurs in the joined string. |
| Text.JoinLength | src/utils/tts.py:19 | A join of one or more items is as long as the items together plus one separator per gap between neighbours. |
| Text.JoinEnds | src/utils/tts.py:19 | A join of one or more items starts with the first item and ends with the last. With two or more items, the first item is followed directly by the separator. |
| Tts.ValidateInput | src/utils/tts.py:10-21 | Success holds exactly when the text is not all whitespace, is at most 4000 characters long, and names a listed voice. Blank text gives "Text is required". Otherwise over-length text gives the length message. Otherwise an unlisted voice gives the invalid-voice message. A success carries no audio. |
| Tts.KindOf | src/utils/tts.py:49-53 | The rate-limit rule applies exactly when "rate limit" occurs in the lower-cased message. The quota rule applies exactly when "quota" occurs there and "rate limit" does not. |
| Tts.ClassifyFailure | src/utils/tts.py:48-54 | A message containing "rate limit" gives the rate-limit text, with or without "quota". Otherwise "quota" gives the quota text. Otherwise the result is "TTS service error: " followed by the message unchanged. |
| Tts.RequestFor | src/utils/tts.py:35-39 | The service is asked for model "tts-1" with the caller's voice and the stripped text as input. |
| Tts.TextToSpeech | src/utils/tts.py:23-54 | A failed validation is returned unchanged. The reply is a success exactly when validation passes and the service returns audio, and then it carries the encoding of those bytes. An exception after validation gives the classified error text. |
| TtsProperties.BlankTextWinsOverOtherErrors | src/utils/tts.py:12-19 | An over-long, all-blank text with an unknown voice is rejected with "Text is required". |
| TtsProperties.TooLongWinsOverBadVoice | src/utils/tts.py:15-19 | Over-long non-blank text is rejected with the length message whatever the voice. |
| TtsProperties.LengthBoundary | src/utils/tts.py:15-16 | For non-blank text and a listed voice, validation passes exactly when the length is at most 4000. Longer text gets the length message. |
| TtsProperties.LengthCountsRawText | src/utils/tts.py:12-16 | The limit counts the raw text. One non-whitespace character followed by 4000 or more whitespace characters strips to that one character, but it is still rejected as too long, whatever the voice. |
| TtsProperties.VoiceListing | src/utils/tts.py:8 | The six voices joined with ", " read "alloy, echo, fable, onyx, nova, shimmer". |
| TtsProperties.InvalidVoiceListsVoicesInOrder | src/utils/tts.py:19 | The invalid-voice message starts with "Invalid voice option. Must be one of: " and ends with the six names in list order, separated by ", ". |
| TtsProperties.InvalidVoiceNamesEveryVoice | src/utils/tts.py:18-19 | Every accepted voice name occurs in the invalid-voice message. |
| TtsProperties.ValidationErrorsAreDistinct | src/utils/tts.py:13-19 | The three validation messages differ from each other. None of them, and not the missing-library message, equals any text a service exception can produce. |
| TtsProperties.ServiceNotConsultedOnInvalidInput | src/utils/tts.py:26-28 | When validation fails, the reply is the validation result, and it is the same whatever the service would answer. |
| TtsProperties.ServiceAskedOnlyForStrippedRequest | src/utils/tts.py:34-39 | Two services that give the same answer to `RequestFor(text, voice)` produce the same reply: that request is the only thing asked. |
| TtsProperties.RequestIsWellFormed | src/utils/tts.py:35-39 | After validation passes, the service input is non-empty, at most 4000 characters, and has no whitespace at either end. The voice is listed and the model is "tts-1". |
| TtsProperties.DefaultVoiceIsAccepted | src/utils/tts.py:23 | "alloy" is listed. A call that names no voice never gets the invalid-voice error. It succeeds exactly when the text is non-blank, at most 4000 characters long, and the service returns audio for the request with voice "alloy". |
| TtsProperties.KindIgnoresCase | src/utils/tts.py:49-51 | Lower-casing a message before classification does not change which rule applies. |
| TtsProperties.RateLimitBeatsQuota | src/utils/tts.py:49-50 | "Quota hit: RATE LIMIT reached" is classified as a rate-limit error, although it also contains "Quota". |
| TtsProperties.QuotaWithoutRateLimit | src/utils/tts.py:51-52 | "Monthly QUOTA used up" is classified as a quota error. |
| TtsProperties.GenericErrorKeepsMessage | src/utils/tts.py:53-54 | Only the generic rule produces a text starting with "TTS service error: ". The original message can be read back after that prefix. |

## Left out

- The A4F client itself (src/utils/tts.py:32-39) is foreign library code and network I/O. It is the parameter `speak`.
- The `ImportError` branch (src/utils/tts.py:45-46) is modelled only as the `ClientMissing` outcome of `speak`. The model does not say where in the client the import fails.
- Base64 encoding (src/utils/tts.py:42) follows section 4 of RFC 4648 and comes from the standard library. The model keeps it symbolic as `Base64Of(bytes)`.
- `str(e)` for an exception is the `message` of the `Raised` outcome. The model does not describe how Python renders an exception.
- The command-line entry point (src/utils/tts.py:56-71) reads arguments, parses and prints JSON, and fills in defaults for missing keys. It is I/O plumbing and is not modelled. A JSON `null` or non-string `text` or `voice` is therefore not modelled either.
- Text.ToLower: folds only the ASCII letters A-Z, while Python's `str.lower()` uses the full Unicode case tables. For the two ASCII needles "rate limit" and "quota" the verdicts agree. The only non-ASCII characters that lower-case into these letters bring a combining mark with them, and that mark breaks the match.
- Python strings that hold lone surrogates have no `seq<char>` counterpart, so the length check is stated only for strings of Unicode scalar values.
