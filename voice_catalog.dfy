/**
 * The voice catalogue: `get_voices` flattens the service's voice list into
 * one record per (voice, language code) pair, and `main` derives from it the
 * sorted language list, the voices of the selected language, their display
 * names, the default voice index and the chosen voice's name.
 */
module VoiceCatalog {
  import opened Wrappers
  import opened TextToSpeech
  import VoiceNames
  import Strings

  /** The voice preselected when present (a substring match). */
  const DEFAULT_VOICE := "en-US-Chirp3-HD-Charon"

  /** The `{name, language_code, gender}` record `get_voices` builds. */
  datatype VoiceRecord = VoiceRecord(name: string, languageCode: string, gender: string)

  /** The record for voice `v` and its language code `code`. */
  function RecordFor(v: RemoteVoice, code: string): VoiceRecord {
    VoiceRecord(v.name, code, GenderName(v.ssmlGender))
  }

  /** The records of one voice, one per language code, in order. */
  function RecordsOf(v: RemoteVoice): seq<VoiceRecord> {
    seq(|v.languageCodes|, k requires 0 <= k < |v.languageCodes| => RecordFor(v, v.languageCodes[k]))
  }

  /** The flattened catalogue, voice after voice. */
  function Flatten(vs: seq<RemoteVoice>): seq<VoiceRecord>
    decreases |vs|
  {
    if vs == [] then [] else Flatten(vs[..|vs| - 1]) + RecordsOf(vs[|vs| - 1])
  }

  /** The number of (voice, language code) pairs in `vs`. */
  function TotalCodes(vs: seq<RemoteVoice>): nat
    decreases |vs|
  {
    if vs == [] then 0 else TotalCodes(vs[..|vs| - 1]) + |vs[|vs| - 1].languageCodes|
  }

  /**
   * The flattened catalogue has exactly one record per (voice, code) pair,
   * and the pair `(vs[i], vs[i].languageCodes[k])` sits at position
   * `TotalCodes(vs[..i]) + k`: in iteration order, voice by voice.
   */
  lemma {:induction false} FlattenAt(vs: seq<RemoteVoice>, i: int, k: int)
    requires 0 <= i < |vs| && 0 <= k < |vs[i].languageCodes|
    ensures |Flatten(vs)| == TotalCodes(vs)
    ensures TotalCodes(vs[..i]) + k < |Flatten(vs)|
    ensures Flatten(vs)[TotalCodes(vs[..i]) + k] == RecordFor(vs[i], vs[i].languageCodes[k])
    decreases |vs|
  {
    var init := vs[..|vs| - 1];
    FlattenLength(vs);
    if i == |vs| - 1 {
      FlattenLength(init);
      assert vs[..i] == init;
    } else {
      FlattenAt(init, i, k);
      assert init[..i] == vs[..i];
      assert init[i] == vs[i];
    }
  }

  lemma {:induction false} FlattenLength(vs: seq<RemoteVoice>)
    ensures |Flatten(vs)| == TotalCodes(vs)
    decreases |vs|
  {
    if vs != [] {
      FlattenLength(vs[..|vs| - 1]);
    }
  }

  /** Voice `v` yields record `r`: same name and gender, and one of its codes. */
  predicate Yields(v: RemoteVoice, r: VoiceRecord) {
    r.name == v.name && r.languageCode in v.languageCodes && r.gender == GenderName(v.ssmlGender)
  }

  /** Every flattened record comes from some voice and carries one of that voice's codes. */
  lemma {:induction false} FlattenSound(vs: seq<RemoteVoice>, n: int)
    requires 0 <= n < |Flatten(vs)|
    ensures exists i :: 0 <= i < |vs| && Yields(vs[i], Flatten(vs)[n])
    decreases |vs|
  {
    var init := vs[..|vs| - 1];
    var last := vs[|vs| - 1];
    if n < |Flatten(init)| {
      FlattenSound(init, n);
      var i :| 0 <= i < |init| && Yields(init[i], Flatten(init)[n]);
      assert vs[i] == init[i];
    } else {
      var k := n - |Flatten(init)|;
      assert Flatten(vs)[n] == RecordsOf(last)[k];
      assert Yields(vs[|vs| - 1], Flatten(vs)[n]);
    }
  }

  /**
   * `get_voices`: `None` stands for a failed `list_voices` call, which yields
   * the empty list; otherwise the nested loops append one record per
   * (voice, language code) pair.
   */
  method GetVoices(response: Option<seq<RemoteVoice>>) returns (voices: seq<VoiceRecord>)
    ensures response.None? ==> voices == []
    ensures response.Some? ==> voices == Flatten(response.value)
  {
    if response.None? {
      return [];
    }
    var rv := response.value;
    voices := [];
    var i := 0;
    while i < |rv|
      invariant 0 <= i <= |rv|
      invariant voices == Flatten(rv[..i])
    {
      var voice := rv[i];
      var j := 0;
      while j < |voice.languageCodes|
        invariant 0 <= j <= |voice.languageCodes|
        invariant voices == Flatten(rv[..i]) + RecordsOf(voice)[..j]
      {
        voices := voices + [VoiceRecord(voice.name, voice.languageCodes[j], GenderName(voice.ssmlGender))];
        assert RecordsOf(voice)[..j + 1] == RecordsOf(voice)[..j] + [RecordsOf(voice)[j]];
        j := j + 1;
      }
      assert RecordsOf(voice)[..j] == RecordsOf(voice);
      assert rv[..i + 1][..i] == rv[..i];
      i := i + 1;
    }
    assert rv[..i] == rv;
  }

  /** The language codes of the records, in order. */
  function Codes(voices: seq<VoiceRecord>): (r: seq<string>)
    ensures forall c :: c in r <==> exists v :: v in voices && v.languageCode == c
  {
    if voices == [] then [] else [voices[0].languageCode] + Codes(voices[1..])
  }

  /**
   * `sorted(set(voice["language_code"] for voice in voices))`: strictly
   * sorted, so without duplicates, and holding exactly the codes that occur.
   */
  function Languages(voices: seq<VoiceRecord>): (r: seq<string>)
    ensures Strings.StrictlySorted(r)
    ensures forall c :: c in r <==> exists v :: v in voices && v.languageCode == c
  {
    Strings.SortedSet(Codes(voices))
  }

  /**
   * Any strictly sorted list holding exactly the catalogue's codes is the
   * language list.
   */
  lemma LanguagesUnique(voices: seq<VoiceRecord>, s: seq<string>)
    requires Strings.StrictlySorted(s)
    requires forall c :: c in s <==> exists v :: v in voices && v.languageCode == c
    ensures s == Languages(voices)
  {
    Strings.SortedUnique(s, Languages(voices));
  }

  /** `[v for v in voices if v["language_code"] == selected_language]`. */
  function AvailableVoices(voices: seq<VoiceRecord>, language: string): (r: seq<VoiceRecord>)
    ensures |r| <= |voices|
    ensures forall k :: 0 <= k < |r| ==> r[k].languageCode == language
    ensures forall v :: v in r <==> v in voices && v.languageCode == language
  {
    if voices == [] then []
    else if voices[0].languageCode == language then [voices[0]] + AvailableVoices(voices[1..], language)
    else AvailableVoices(voices[1..], language)
  }

  /** One record is kept exactly when it has the language. */
  lemma AvailableVoicesSingle(v: VoiceRecord, language: string)
    ensures AvailableVoices([v], language) == if v.languageCode == language then [v] else []
  {
    assert [v][1..] == [];
  }

  /**
   * Filtering distributes over concatenation; with the one-record case this
   * makes the result the order-preserving filter, duplicates included.
   */
  lemma {:induction false} AvailableVoicesAppend(a: seq<VoiceRecord>, b: seq<VoiceRecord>, language: string)
    ensures AvailableVoices(a + b, language) == AvailableVoices(a, language) + AvailableVoices(b, language)
    decreases |a|
  {
    if a == [] {
      assert a + b == b;
    } else {
      assert (a + b)[0] == a[0] && (a + b)[1..] == a[1..] + b;
      AvailableVoicesAppend(a[1..], b, language);
    }
  }

  /**
   * `format_voice_display`: when the name parses, its four components are
   * joined back with `-`; either way the display string is the name itself.
   */
  function FormatVoiceDisplay(voice: VoiceRecord): (r: string)
    ensures r == voice.name
  {
    var parsed := VoiceNames.ParseVoiceName(voice.name);
    if parsed.Some? then
      parsed.value.language + "-" + parsed.value.country + "-" + parsed.value.audioType + "-" + parsed.value.name
    else
      voice.name
  }

  /** `[format_voice_display(v) for v in available_voices]`. */
  function DisplayNames(voices: seq<VoiceRecord>): (r: seq<string>)
    ensures |r| == |voices|
    ensures forall k :: 0 <= k < |r| ==> r[k] == voices[k].name
  {
    if voices == [] then [] else [FormatVoiceDisplay(voices[0])] + DisplayNames(voices[1..])
  }

  /** The first position whose name contains the default voice, if any. */
  function FirstDefault(names: seq<string>): (r: Option<nat>)
    ensures r.Some? ==> r.value < |names| && Strings.ContainsSub(names[r.value], DEFAULT_VOICE)
    ensures r.Some? ==> forall i :: 0 <= i < r.value ==> !Strings.ContainsSub(names[i], DEFAULT_VOICE)
    ensures r.None? ==> forall i :: 0 <= i < |names| ==> !Strings.ContainsSub(names[i], DEFAULT_VOICE)
  {
    if names == [] then None
    else if Strings.ContainsSub(names[0], DEFAULT_VOICE) then Some(0)
    else match FirstDefault(names[1..])
      case None => None
      case Some(i) => Some(i + 1)
  }

  /**
   * `next((i for i, v in enumerate(voice_names) if DEFAULT_VOICE in v), 0)`:
   * the first index whose name contains the default voice, or 0 when none does.
   */
  function DefaultVoiceIndex(names: seq<string>): (r: nat)
    ensures r == 0 || r < |names|
    ensures (exists i :: 0 <= i < |names| && Strings.ContainsSub(names[i], DEFAULT_VOICE)) ==>
      r < |names| && Strings.ContainsSub(names[r], DEFAULT_VOICE) &&
      forall i :: 0 <= i < r ==> !Strings.ContainsSub(names[i], DEFAULT_VOICE)
    ensures (forall i :: 0 <= i < |names| ==> !Strings.ContainsSub(names[i], DEFAULT_VOICE)) ==> r == 0
  {
    FirstDefault(names).GetOr(0)
  }

  /** `names.index(x)`: the first position holding `x`, `None` for a `ValueError`. */
  function IndexOf(names: seq<string>, x: string): (r: Option<nat>)
    ensures r.None? <==> x !in names
    ensures r.Some? ==> r.value < |names| && names[r.value] == x
    ensures r.Some? ==> forall j :: 0 <= j < r.value ==> names[j] != x
  {
    if names == [] then None
    else if names[0] == x then Some(0)
    else match IndexOf(names[1..], x)
      case None => None
      case Some(i) => Some(i + 1)
  }

  /**
   * `available_voices[voice_names.index(selected_voice)]["name"]`: the voice
   * name sent to the synthesizer is the display string the user chose.
   */
  function SelectedVoiceName(available: seq<VoiceRecord>, selected: string): (r: Option<string>)
    ensures r.Some? <==> selected in DisplayNames(available)
    ensures r.Some? ==> r.value == selected
  {
    var names := DisplayNames(available);
    match IndexOf(names, selected)
    case None => None
    case Some(i) => Some(available[i].name)
  }
}
