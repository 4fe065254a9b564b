/**
 Properties of the text-to-speech wrapper that relate several calls or
 pin down concrete cases: precedence of the checks, the length boundary,
 the voice listing in the error message, what the service is asked and
 when, and how exception messages are classified.
 */
module TtsProperties {
  import opened Text
  import opened Tts

  /** Blank text is reported as missing whatever else is wrong with the
      request: an over-long all-whitespace text with an unknown voice still
      gets "Text is required". */
  lemma BlankTextWinsOverOtherErrors()
    ensures ValidateInput(seq(MaxTextLength + 1, _ => ' '), "robot") == Failure(TextRequired)
  {
  }

  /** Over-long text is reported before an unknown voice. */
  lemma TooLongWinsOverBadVoice(text: string, voice: string)
    requires !AllWhitespace(text) && |text| > MaxTextLength
    ensures ValidateInput(text, voice) == Failure(TextTooLong)
  {
  }

  /** For non-blank text and a listed voice, the raw length decides: up to
      4000 characters pass, 4001 and more fail. */
  lemma LengthBoundary(text: string, voice: string)
    requires !AllWhitespace(text) && voice in ValidVoices
    ensures ValidateInput(text, voice).Success? <==> |text| <= 4000
    ensures |text| > 4000 ==> ValidateInput(text, voice).error == TextTooLong
  {
  }

  /** The limit counts the raw text, surrounding whitespace included: one
      visible character followed by 4000 or more whitespace characters is
      rejected although its stripped form has one character. */
  lemma LengthCountsRawText(c: char, pad: string, voice: string)
    requires !IsWhitespace(c) && AllWhitespace(pad) && |pad| >= MaxTextLength
    ensures Strip([c] + pad) == [c]
    ensures ValidateInput([c] + pad, voice) == Failure(TextTooLong)
  {
  }

  /** The invalid-voice message ends with the six voice names in list
      order, separated by ", ". */
  lemma InvalidVoiceListsVoicesInOrder()
    ensures StartsWith(InvalidVoice, InvalidVoicePrefix)
    ensures EndsWith(InvalidVoice, "alloy, echo, fable, onyx, nova, shimmer")
  {
    VoiceListing();
    assert InvalidVoice == InvalidVoicePrefix + "alloy, echo, fable, onyx, nova, shimmer";
  }

  /** The six voice names joined with ", ". */
  lemma VoiceListing()
    ensures Join(", ", ValidVoices) == "alloy, echo, fable, onyx, nova, shimmer"
  {
    VoiceJoinPieces();
    ListingSpelling();
  }

  /** The pieces of the voice listing spell the listing. */
  lemma ListingSpelling()
    ensures "alloy" + ", " + "echo" + ", " + "fable" + ", " + "onyx" + ", " + "nova" + ", " + "shimmer"
         == "alloy, echo, fable, onyx, nova, shimmer"
  {
  }

  /** The join of the voices, one name and separator at a time. */
  lemma VoiceJoinPieces()
    ensures Join(", ", ValidVoices)
         == "alloy" + ", " + "echo" + ", " + "fable" + ", " + "onyx" + ", " + "nova" + ", " + "shimmer"
  {
    assert ValidVoices[1..][1..][1..][1..][1..] == ["shimmer"];
  }

  /** Every accepted voice is named in the invalid-voice message. */
  lemma {:induction false} InvalidVoiceNamesEveryVoice(voice: string)
    requires voice in ValidVoices
    ensures IsSubstring(voice, InvalidVoice)
  {
    var k :| 0 <= k < |ValidVoices| && ValidVoices[k] == voice;
    JoinContainsItems(", ", ValidVoices, k);
    SubstringAfterPrefix(InvalidVoicePrefix, Join(", ", ValidVoices), voice);
  }

  /** A substring of `s` is still one once `prefix` is put in front of `s`. */
  lemma SubstringAfterPrefix(prefix: string, s: string, needle: string)
    requires IsSubstring(needle, s)
    ensures IsSubstring(needle, prefix + s)
  {
    var i :| OccursAt(needle, s, i);
    assert (prefix + s)[|prefix| + i..|prefix| + i + |needle|] == s[i..i + |needle|];
    assert OccursAt(needle, prefix + s, |prefix| + i);
  }

  /** Characters of the long message texts that tell them apart from the
      generic "TTS service error: " prefix. Reading them through a suffix
      keeps the verifier's walk along the literal short. */
  lemma ClientMissingChar()
    ensures ClientMissingError[18] == 'u'
  {
    var rest := ClientMissingError[10..];
    assert rest[8] == 'u';
  }

  lemma RateLimitChar()
    ensures RateLimitError[17] == 'e'
  {
    var rest := RateLimitError[10..];
    assert rest[7] == 'e';
  }

  lemma QuotaChar()
    ensures QuotaError[17] == 'e'
  {
    var rest := QuotaError[10..];
    assert rest[7] == 'e';
  }

  /** The validator's three messages differ from each other and from every
      message a service failure can produce, so a caller can tell which
      check failed. */
  lemma ValidationErrorsAreDistinct(message: string)
    ensures TextRequired != TextTooLong && TextTooLong != InvalidVoice && TextRequired != InvalidVoice
    ensures var e := ClassifyFailure(message);
            e != TextRequired && e != TextTooLong && e != InvalidVoice && e != ClientMissingError
  {
    assert InvalidVoice[..|InvalidVoicePrefix|] == InvalidVoicePrefix;
    ClientMissingChar();
    assert InvalidVoice[18] == 'o' && TextTooLong[18] == 't' && ClientMissingError[18] == 'u';
    var e := ClassifyFailure(message);
    if KindOf(message) == OtherFailure {
      assert e[..|ServiceErrorPrefix|] == ServiceErrorPrefix;
      assert e[18] == ' ';
    } else {
      assert |e| != |TextRequired| && |e| != |TextTooLong| && |e| != |ClientMissingError| && |e| != |InvalidVoice|;
    }
  }

  /** A request that fails validation never reaches the service: the reply
      is the same whatever the service would have answered. */
  lemma ServiceNotConsultedOnInvalidInput(text: string, voice: string,
                                          speak: SpeechRequest -> ServiceOutcome,
                                          speak': SpeechRequest -> ServiceOutcome)
    requires ValidateInput(text, voice).Failure?
    ensures TextToSpeech(text, speak, voice) == TextToSpeech(text, speak', voice)
    ensures TextToSpeech(text, speak, voice) == ValidateInput(text, voice)
  {
  }

  /** A valid request asks the service exactly one thing: two services that
      agree on `RequestFor(text, voice)` give the same reply. */
  lemma ServiceAskedOnlyForStrippedRequest(text: string, voice: string,
                                           speak: SpeechRequest -> ServiceOutcome,
                                           speak': SpeechRequest -> ServiceOutcome)
    requires speak(RequestFor(text, voice)) == speak'(RequestFor(text, voice))
    ensures TextToSpeech(text, speak, voice) == TextToSpeech(text, speak', voice)
  {
  }

  /** The request sent after validation has stripped, non-empty input with
      no whitespace at either end, no longer than the limit, and a listed
      voice on the "tts-1" model. */
  lemma RequestIsWellFormed(text: string, voice: string)
    requires ValidateInput(text, voice).Success?
    ensures var req := RequestFor(text, voice);
            && |req.input| > 0 && |req.input| <= MaxTextLength
            && !IsWhitespace(req.input[0]) && !IsWhitespace(req.input[|req.input| - 1])
            && req.voice in ValidVoices && req.model == "tts-1"
  {
  }

  /** A call that names no voice asks the service for "alloy", which is
      listed, so it is never rejected for its voice and succeeds exactly when
      the text passes both text checks and the service returns audio. */
  lemma DefaultVoiceIsAccepted(text: string, speak: SpeechRequest -> ServiceOutcome)
    ensures "alloy" in ValidVoices
    ensures TextToSpeech(text, speak) != Failure(InvalidVoice)
    ensures TextToSpeech(text, speak).Success?
            <==> !AllWhitespace(text) && |text| <= MaxTextLength && speak(RequestFor(text, "alloy")).Spoken?
    ensures !AllWhitespace(text) && |text| <= MaxTextLength ==> ValidateInput(text, "alloy").Success?
  {
    var r := TextToSpeech(text, speak);
    if speak(RequestFor(text, "alloy")).Raised? {
      ValidationErrorsAreDistinct(speak(RequestFor(text, "alloy")).message);
    }
    ClientMissingChar();
    assert |ClientMissingError| != |InvalidVoice|;
  }

  /** The classification ignores case: lower-casing the message first does
      not change which rule applies. */
  lemma KindIgnoresCase(message: string)
    ensures KindOf(ToLower(message)) == KindOf(message)
  {
    ToLowerIdempotent(message);
  }

  /** "rate limit" wins even when "quota" is also present, in any case. */
  lemma RateLimitBeatsQuota()
    ensures KindOf("Quota hit: RATE LIMIT reached") == RateLimited
    ensures ClassifyFailure("Quota hit: RATE LIMIT reached") == RateLimitError
  {
    var lowered := ToLower("Quota hit: RATE LIMIT reached");
    assert lowered[11..21] == "rate limit";
    assert OccursAt("rate limit", lowered, 11);
  }

  /** "quota" alone, in any case, gives the quota message. */
  lemma QuotaWithoutRateLimit()
    ensures KindOf("Monthly QUOTA used up") == QuotaExceeded
  {
    var lowered := ToLower("Monthly QUOTA used up");
    assert lowered[8..13] == "quota";
    assert OccursAt("quota", lowered, 8);
    assert lowered == "monthly quota used up";
    assert forall i :: 0 <= i < |lowered| ==> lowered[i] != 'r';
    assert forall i :: OccursAt("rate limit", lowered, i) ==> lowered[i..i + 10][0] == 'r';
  }

  /** The generic service error is the fixed prefix followed by the original
      message, and only the generic rule produces that prefix, so the
      message can be read back from the reply. */
  lemma GenericErrorKeepsMessage(message: string)
    ensures StartsWith(ClassifyFailure(message), ServiceErrorPrefix) <==> KindOf(message) == OtherFailure
    ensures KindOf(message) == OtherFailure
            ==> ClassifyFailure(message)[|ServiceErrorPrefix|..] == message
  {
    var e := ClassifyFailure(message);
    assert ServiceErrorPrefix[17] == ':';
    if KindOf(message) != OtherFailure {
      RateLimitChar();
      QuotaChar();
    } else {
      assert e[..|ServiceErrorPrefix|] == ServiceErrorPrefix;
    }
  }
}
