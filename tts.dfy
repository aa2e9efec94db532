/**
 * The boundary to the remote text-to-speech service: the shapes of the
 * values that cross it. The service itself (voice listing and synthesis) is
 * not modelled; callers receive it as a function parameter.
 */
module TextToSpeech {

  /** One octet of audio content. */
  newtype byte = x: int | 0 <= x < 256

  type Bytes = seq<byte>

  /** The service's SSML voice gender enumeration. */
  datatype Gender = Unspecified | Male | Female | Neutral

  /** The `.name` of a gender enumeration member. */
  function GenderName(g: Gender): (r: string)
    ensures |r| > 0
  {
    match g
    case Unspecified => "SSML_VOICE_GENDER_UNSPECIFIED"
    case Male => "MALE"
    case Female => "FEMALE"
    case Neutral => "NEUTRAL"
  }

  /** Output encodings; the application only ever asks for MP3. */
  datatype AudioEncoding = Mp3

  /**
   * A voice as the service reports it: one name, possibly several language
   * codes, one gender.
   */
  datatype RemoteVoice = RemoteVoice(name: string, languageCodes: seq<string>, ssmlGender: Gender)

  /**
   * What is sent to the synthesizer: the input text, the voice selection
   * (language, name, gender) and the audio configuration (encoding and
   * speaking rate). The speaking rate is passed through untouched.
   */
  datatype SynthesisRequest = SynthesisRequest(
    text: string,
    languageCode: string,
    voiceName: string,
    gender: Gender,
    encoding: AudioEncoding,
    speakingRate: real)
}
