/**
 * `generate_speech`: the length guard in front of the remote synthesizer.
 * The synthesizer is a function parameter; its `None` stands for every
 * failure the source catches (a service error or any other exception).
 */
module Synthesis {
  import opened Wrappers
  import opened TextToSpeech

  /** Longest accepted input, in characters (environment default). */
  const MAX_TEXT_LENGTH: nat := 5000

  /** The remote `synthesize_speech` call: audio content, or `None` on failure. */
  type Synthesizer = SynthesisRequest -> Option<Bytes>

  /**
   * `generate_speech(client, text, voice_name, language_code, speed)`. Text
   * longer than the maximum is rejected without a request being built or
   * sent; text of exactly the maximum length goes through. Every request
   * asks for a neutral voice and MP3 output at the given speaking rate.
   */
  function GenerateSpeech(synthesize: Synthesizer, text: string, voiceName: string,
                          languageCode: string, speed: real): (r: Option<Bytes>)
    ensures |text| > MAX_TEXT_LENGTH ==> r == None
    ensures |text| <= MAX_TEXT_LENGTH ==>
      r == synthesize(SynthesisRequest(text, languageCode, voiceName, Neutral, Mp3, speed))
  {
    if |text| > MAX_TEXT_LENGTH then None
    else
      var request := SynthesisRequest(
        text := text,
        languageCode := languageCode,
        voiceName := voiceName,
        gender := Neutral,
        encoding := Mp3,
        speakingRate := speed);
      synthesize(request)
  }

  /** The guard alone decides an over-long text: no synthesizer is consulted. */
  lemma OverlongTextIgnoresService(s1: Synthesizer, s2: Synthesizer, text: string,
                                   voiceName: string, languageCode: string, speed: real)
    requires |text| > MAX_TEXT_LENGTH
    ensures GenerateSpeech(s1, text, voiceName, languageCode, speed) == None
    ensures GenerateSpeech(s1, text, voiceName, languageCode, speed)
         == GenerateSpeech(s2, text, voiceName, languageCode, speed)
  {
  }
}
