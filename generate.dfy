/**
 * The "Generate Speech" step of the page: empty text is refused first, then
 * the rate limiter is consulted, then the synthesizer, and a history entry
 * is prepended only when non-empty audio comes back.
 */
module GenerateFlow {
  import opened Wrappers
  import opened TextToSpeech
  import opened RateLimit
  import opened Synthesis
  import opened History

  /** What the user is shown after pressing the button. */
  datatype Outcome = EmptyText | RateLimited | SynthesisFailed | Generated(audio: Bytes)

  /** The outcome together with the session's rate record and history afterwards. */
  datatype StepResult = StepResult(outcome: Outcome, rate: Option<RateWindow>, history: seq<HistoryEntry>)

  /** The choices on the page when the button is pressed. */
  datatype Form = Form(
    text: string,
    voiceName: string,
    voiceDisplay: string,
    languageCode: string,
    languageName: string,
    speed: real)

  /** The entry recorded for audio `audio` generated from `form`. */
  function EntryFor(form: Form, timestamp: string, audio: Bytes): (e: HistoryEntry)
    ensures e.text == form.text && e.speed == form.speed && e.audioContent == audio
    ensures e.language == form.languageName && e.voice == form.voiceDisplay && e.timestamp == timestamp
  {
    HistoryEntry(form.text, form.languageName, form.voiceDisplay, form.speed, timestamp, audio)
  }

  /** The audio a form yields from the synthesizer, after the length guard. */
  function AudioFor(synthesize: Synthesizer, form: Form): Option<Bytes> {
    GenerateSpeech(synthesize, form.text, form.voiceName, form.languageCode, form.speed)
  }

  /**
   * One press of the button against session state `rate` and `history`, at
   * time `now`, with `timestamp` the formatted wall-clock time.
   */
  function GenerateStep(rate: Option<RateWindow>, history: seq<HistoryEntry>, synthesize: Synthesizer,
                        form: Form, now: int, timestamp: string): (r: StepResult)
    // empty text: nothing is consumed and nothing recorded
    ensures form.text == "" ==> r == StepResult(EmptyText, rate, history)
    // otherwise exactly one rate-limit check is consumed, whatever happens next
    ensures form.text != "" ==> r.rate == Some(Check(rate, now).window)
    // a rejection by the limiter
    ensures r.outcome == RateLimited <==> form.text != "" && !Check(rate, now).accepted
    // history grows only by the generated audio, placed first
    ensures r.outcome.Generated? ==> |r.outcome.audio| > 0 && r.history == Prepend(history, EntryFor(form, timestamp, r.outcome.audio))
    ensures !r.outcome.Generated? ==> r.history == history
    // audio is produced exactly when the synthesizer returned some non-empty content
    ensures r.outcome.Generated? <==>
      form.text != "" && Check(rate, now).accepted
      && AudioFor(synthesize, form).Some? && |AudioFor(synthesize, form).value| > 0
    // the audio shown and stored is the synthesizer's own answer
    ensures r.outcome.Generated? ==> AudioFor(synthesize, form) == Some(r.outcome.audio)
    // accepted text whose synthesis yields nothing fails
    ensures form.text != "" && Check(rate, now).accepted
      && (AudioFor(synthesize, form).None? || |AudioFor(synthesize, form).value| == 0)
      ==> r.outcome == SynthesisFailed
  {
    if form.text == "" then StepResult(EmptyText, rate, history)
    else
      var decision := Check(rate, now);
      if !decision.accepted then StepResult(RateLimited, Some(decision.window), history)
      else
        var audio := AudioFor(synthesize, form);
        if audio.Some? && |audio.value| > 0 then
          StepResult(Generated(audio.value), Some(decision.window), Prepend(history, EntryFor(form, timestamp, audio.value)))
        else
          StepResult(SynthesisFailed, Some(decision.window), history)
  }

  /** A rejection by the limiter is reached without consulting the synthesizer. */
  lemma RateLimitSkipsSynthesis(rate: Option<RateWindow>, history: seq<HistoryEntry>,
                                s1: Synthesizer, s2: Synthesizer, form: Form, now: int, timestamp: string)
    requires form.text != "" && !Check(rate, now).accepted
    ensures GenerateStep(rate, history, s1, form, now, timestamp)
         == GenerateStep(rate, history, s2, form, now, timestamp)
         == StepResult(RateLimited, Some(Check(rate, now).window), history)
  {
  }

  /**
   * A synthesis that fails (or returns no bytes) still uses up one slot of
   * the window and records nothing.
   */
  lemma FailedSynthesisConsumesSlot(rate: Option<RateWindow>, history: seq<HistoryEntry>,
                                    synthesize: Synthesizer, form: Form, now: int, timestamp: string)
    requires form.text != "" && Check(rate, now).accepted
    requires AudioFor(synthesize, form).None? || |AudioFor(synthesize, form).value| == 0
    ensures var r := GenerateStep(rate, history, synthesize, form, now, timestamp);
      r.outcome == SynthesisFailed && r.history == history
      && r.rate.value.count == Current(rate, now).count + 1
  {
  }

  /**
   * Text over the length limit never reaches the synthesizer, yet a slot of
   * the window is spent on it when the limiter admits it.
   */
  lemma OverlongTextSpendsSlotOnly(rate: Option<RateWindow>, history: seq<HistoryEntry>,
                                   s1: Synthesizer, s2: Synthesizer, form: Form, now: int, timestamp: string)
    requires |form.text| > MAX_TEXT_LENGTH
    ensures GenerateStep(rate, history, s1, form, now, timestamp)
         == GenerateStep(rate, history, s2, form, now, timestamp)
    ensures GenerateStep(rate, history, s1, form, now, timestamp).outcome
         == (if Check(rate, now).accepted then SynthesisFailed else RateLimited)
    ensures GenerateStep(rate, history, s1, form, now, timestamp).rate == Some(Check(rate, now).window)
  {
  }

  /**
   * The button handler over the session's limiter and history objects, in
   * the source's order of steps.
   */
  method GenerateClick(limiter: RateLimiter, log: HistoryLog, userId: string, synthesize: Synthesizer,
                       form: Form, now: int, timestamp: string) returns (outcome: Outcome)
    requires limiter.Valid()
    modifies limiter, log
    ensures limiter.Valid()
    ensures var r := GenerateStep(old(limiter.state), old(log.entries), synthesize, form, now, timestamp);
      outcome == r.outcome && limiter.state == r.rate && log.entries == r.history
  {
    if form.text == "" {
      return EmptyText;
    }
    var accepted := limiter.CheckRateLimit(userId, now);
    if !accepted {
      return RateLimited;
    }
    var audio := GenerateSpeech(synthesize, form.text, form.voiceName, form.languageCode, form.speed);
    if audio.Some? && |audio.value| > 0 {
      log.Insert(EntryFor(form, timestamp, audio.value));
      return Generated(audio.value);
    }
    return SynthesisFailed;
  }
}
