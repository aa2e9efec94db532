# Fourier text-to-speech front end: a verified model of its session logic

Fourier is a Streamlit page over Google Cloud Text-to-Speech. Beneath the
widgets and the remote calls it has a handful of precise pieces of logic,
modelled here in Dafny and proved:

- **Rate limiter** (`RateLimit`): the fixed-window limiter kept in session
  state as a `{count, window_start}` record. It is per session, not per user:
  the user id it is given is ignored. Time is an integer `now` in seconds.
- **Voice names** (`VoiceNames`): Python's `split("-")` and `"-".join`, and
  `parse_voice_name`.
- **Voice catalogue** (`VoiceCatalog`, `Strings`): the flattening done by
  `get_voices`, the sorted language list, the voices of the chosen language,
  their display names, the default voice index and the chosen voice's name.
- **Synthesis guard** (`Synthesis`): the length check of `generate_speech`
  in front of the remote synthesizer. The synthesizer is a function parameter.
- **History** (`History`): the newest-first list with insert at 0 and delete
  by index, as a class over a `seq`.
- **Credential store and user id** (`ServiceAccounts`): the credentials
  directory as a map from file path to parsed JSON document, held in a
  class, and the session's user id.
- **Generate step** (`GenerateFlow`): the button handler. It checks for empty
  text, then the limiter, then the synthesis call, then the history.

`Wrappers` holds `Option`. `TextToSpeech` holds the value types that cross
the boundary to the remote service.

The rate window is kept once per session, whoever the user is. History
entries can be inserted and also deleted by index.

## Model

| member | source | states |
|---|---|---|
| RateLimit.Check | src/app.py:307-322 | A fresh session, or one where strictly more than `RATE_LIMIT_WINDOW` seconds have passed, gets a new window that starts at `now` with the call counted as 1. A window exactly `RATE_LIMIT_WINDOW` old keeps its start. Inside a window a call is accepted iff the count is below `RATE_LIMIT_REQUESTS`. An accepted call adds exactly 1. A rejected call leaves the record unchanged. A count within the ceiling stays within it. |
| RateLimit.RunWithinWindow | src/app.py:315-322 | In a sequence of calls that all fall within the window length of the window's start, call `i` is accepted iff `count + i < RATE_LIMIT_REQUESTS`. |
| RateLimit.ExactlyLimitPerWindow | src/app.py:307-322 | Take a fresh session whose calls all fall within one window of the first call. Exactly the first `RATE_LIMIT_REQUESTS` calls succeed, and every later call fails. |
| RateLimit.RateLimiter.constructor | src/app.py:309 | A session starts with no rate record. |
| RateLimit.RateLimiter.CheckRateLimit | src/app.py:307-322 | Changes the session record in place, step by step as the source does. Its answer and the new record are those of `Check` on the old record. The ceiling invariant is kept. The user id is not used. |
| VoiceNames.Split | src/app.py:358 | `split("-")` gives one more piece than there are separators, and no piece contains a separator. |
| VoiceNames.Join | src/app.py:364 | `"-".join` starts with its first piece, and a join of separator-free pieces holds exactly one separator fewer than it has pieces. |
| VoiceNames.JoinSplit | src/app.py:358-364 | Joining the pieces of a split with `-` gives back the original string. |
| VoiceNames.SplitJoin | src/app.py:358-364 | Splitting a `-`-join of one or more separator-free pieces gives back exactly those pieces. |
| VoiceNames.ParseVoiceName | src/app.py:355-368 | Returns `None` iff the name has fewer than four `-`-separated parts, that is, fewer than three separators. Otherwise language, country and audio type are separator-free, and rejoining all four components with `-` gives back the name. Together these determine the components uniquely. |
| VoiceCatalog.FormatVoiceDisplay | src/app.py:371-376 | The display string always equals the voice's name, whether or not the name parses. |
| VoiceCatalog.GetVoices | src/app.py:286-304 | A failed voice listing yields the empty list. Otherwise the nested loops build exactly `Flatten` of the response. |
| VoiceCatalog.FlattenAt | src/app.py:290-299 | The flattened list has one record per (voice, language code) pair. The record for voice `i` and code `k` is at position `TotalCodes(vs[..i]) + k`, so the records follow iteration order. Each record carries the voice's name, that code and the voice's gender name. |
| VoiceCatalog.FlattenSound | src/app.py:290-299 | Every flattened record comes from some voice of the response, and its language code is one of that voice's codes. |
| Strings.ContainsSubAt | src/app.py:448 | Python's `sub in s` on strings, as used for the default voice and for a string credential: it holds iff `sub` occurs at some offset of `s`. |
| Strings.LessAt | src/app.py:435 | Python's `<` on strings, the order `sorted` uses: `a` is a proper prefix of `b`, or they agree up to a first position where `a` has the smaller code point. |
| Strings.SortedSet | src/app.py:435 | `sorted(set(xs))` is strictly increasing in Python's string order, so it has no duplicates, and it holds exactly the elements of `xs`. |
| VoiceCatalog.Languages | src/app.py:435 | The language list is strictly sorted and holds exactly the language codes that occur in the catalogue. |
| VoiceCatalog.LanguagesUnique | src/app.py:435 | Any strictly sorted list holding exactly the catalogue's codes is the language list. |
| VoiceCatalog.AvailableVoices | src/app.py:446 | Every available voice has the selected language. A record is available iff it is in the catalogue with that language. |
| VoiceCatalog.AvailableVoicesSingle | src/app.py:446 | A single record is kept exactly when it has the selected language. |
| VoiceCatalog.AvailableVoicesAppend | src/app.py:446 | Filtering a concatenation is concatenating the filtered parts. With the one-record case, the result is the order-preserving filter, duplicates included. |
| VoiceCatalog.DisplayNames | src/app.py:447 | One display name per available voice, and the `k`-th is the `k`-th voice's name. |
| VoiceCatalog.DefaultVoiceIndex | src/app.py:448 | If some display name contains `DEFAULT_VOICE`, the result is the first such index. Otherwise it is 0. |
| VoiceCatalog.IndexOf | src/app.py:450 | `list.index`: `None` (the `ValueError`) iff the value is absent. Otherwise the result is the first position that holds the value. |
| VoiceCatalog.SelectedVoiceName | src/app.py:450 | The lookup succeeds iff the chosen string is one of the display names. The voice name sent to the synthesizer is then that same string. |
| Synthesis.GenerateSpeech | src/app.py:325-352 | Text longer than `MAX_TEXT_LENGTH` gives `None`. Text of at most that length, including exactly that length, gives the synthesizer's answer to a request with that text, language and voice, a neutral gender, MP3 encoding and the given speed. |
| Synthesis.OverlongTextIgnoresService | src/app.py:328-329 | For over-long text the result is `None` and the same for every synthesizer, so no remote call shapes it. |
| History.Prepend | src/app.py:476 | Inserting puts the entry at index 0, moves every earlier entry up by one and adds 1 to the length. |
| History.RemoveAt | src/app.py:533 | Deleting index `idx` reduces the length by 1. Entries before `idx` stay where they were, and entries after it move down by one. The multiset loses exactly the removed entry. |
| History.RemoveUndoesPrepend | src/app.py:476-533 | Deleting index 0 right after an insertion restores the previous history. |
| History.RemoveFirstPromotesSecond | src/app.py:533 | After deleting index 0, the previous second entry is at index 0 and the length has dropped by 1. |
| History.HistoryLog.constructor | src/app.py:390-391 | A session's history starts empty. |
| History.HistoryLog.Insert | src/app.py:476 | The stored list becomes `Prepend` of the old list. |
| History.HistoryLog.Pop | src/app.py:532-533 | For an index inside the list, the stored list becomes `RemoveAt` of the old one and the result is true. For an index past the end, the list is unchanged and the result is false. |
| ServiceAccounts.StoragePath | src/service_account_manager.py:26 | The file path starts with the directory and a `/`, ends with `.json`, and holds exactly the user id in between, so the user id can be read back from it. |
| ServiceAccounts.StoragePathInjective | src/service_account_manager.py:26 | Two user ids with the same file path are equal, so users never share a credential file. |
| ServiceAccounts.AsWrittenAcceptsFieldNameList | src/service_account_manager.py:34-37 | The required-field check as written accepts a JSON array of the five field names, which is not a credential object (see Findings). |
| ServiceAccounts.AsWrittenAcceptsFieldNameText | src/service_account_manager.py:34-37 | The required-field check as written accepts the JSON string `"type project_id private_key_id client_email"`, because each field name is a substring of it; the intended check rejects it (see Findings). |
| ServiceAccounts.PyIn | src/service_account_manager.py:36 | Python's `in` on the parsed document. It raises (`None`) exactly for numbers, booleans and null. On an object it tests the keys, on an array the elements, and on a string whether the field name occurs as a substring. |
| ServiceAccounts.AcceptsAsWritten | src/service_account_manager.py:36 | The written check rejects every scalar document. On an object it requires the five keys, on an array the five names as elements, and on a string the five names as substrings. |
| ServiceAccounts.ValidCredential | src/service_account_manager.py:35-36 | The intended check accepts only JSON objects that carry all five required keys. It accepts nothing the written check rejects, and on JSON objects it agrees with the written check. |
| ServiceAccounts.Lookup | src/service_account_manager.py:24-27 | A user has an entry iff their file path is in the directory. The entry is the document in that file. |
| ServiceAccounts.Written | src/service_account_manager.py:40-42 | Writing adds the user's path to the directory and puts the document there. Every other file keeps its contents. |
| ServiceAccounts.Deleted | src/service_account_manager.py:51-53 | Deleting takes exactly the user's path out of the directory. Every other file keeps its contents. |
| ServiceAccounts.SaveAsWritten | src/service_account_manager.py:30-45 | `save_service_account` with the check as written. It succeeds iff the upload parsed and passes the written check. On success the new directory is the old one with the user's file written, so the user's lookup returns the upload and every other user's lookup is unchanged. On failure the directory is unchanged. |
| ServiceAccounts.AsWrittenSavesFieldNameList | src/service_account_manager.py:36-43 | As written, the array of the five field names is stored and reported as saved. |
| ServiceAccounts.LookupAfterWrite | src/service_account_manager.py:40-43 | After a write, the user's lookup returns exactly the written document, whatever was stored before. |
| ServiceAccounts.WriteKeepsOthers | src/service_account_manager.py:40-43 | A write for one user leaves every other user's lookup unchanged. |
| ServiceAccounts.WriteOverwrites | src/service_account_manager.py:41-42 | Two writes for one user equal the second write alone: the last upload wins. |
| ServiceAccounts.LookupAfterDelete | src/service_account_manager.py:51-53 | After a removal the user has no entry. |
| ServiceAccounts.DeleteKeepsOthers | src/service_account_manager.py:51-53 | A removal for one user leaves every other user's lookup unchanged. |
| ServiceAccounts.DeleteIdempotent | src/service_account_manager.py:48-56 | Removing twice is the same as removing once. |
| ServiceAccounts.DeleteAbsentIsNoOp | src/service_account_manager.py:52-54 | Removing a user who has no entry changes nothing. |
| ServiceAccounts.CredentialStore.constructor | src/service_account_manager.py:13-14 | The store starts with the files already in the directory, which `mkdir(exist_ok=True)` leaves in place. |
| ServiceAccounts.CredentialStore.AccountPath | src/service_account_manager.py:24-27 | Returns `None` iff the user has no stored entry. Otherwise it returns the user's storage path. |
| ServiceAccounts.CredentialStore.Save | src/service_account_manager.py:30-45 | Succeeds iff the upload parsed and is a valid credential. On success the user's file holds exactly the parsed document, replacing any earlier one. On failure nothing is written. |
| ServiceAccounts.CredentialStore.Remove | src/service_account_manager.py:48-56 | Always returns true. Afterwards the directory is the old one without the user's file. |
| ServiceAccounts.CredentialStore.TextToSpeechClient | src/service_account_manager.py:59-71 | If no credential is stored for the user, there is no client. Otherwise the result is what client construction yields for the stored document. |
| ServiceAccounts.AssignUserId | src/service_account_manager.py:17-21 | An existing id is returned and kept. Without one, the fresh id is assigned and returned. Either way the session then holds the returned id. |
| ServiceAccounts.UserIdStable | src/service_account_manager.py:17-21 | Once an id is assigned, a later call returns the same id and leaves the session state unchanged, whatever fresh id it draws. |
| ServiceAccounts.UserSession.constructor | src/service_account_manager.py:19 | A session starts without a user id. |
| ServiceAccounts.UserSession.GetUserId | src/service_account_manager.py:17-21 | The session slot and the returned id are those of `AssignUserId` on the old slot. |
| GenerateFlow.GenerateStep | src/app.py:454-476 | Empty text changes nothing, including the rate record. Otherwise exactly one limiter check is consumed. The outcome is `RateLimited` iff the limiter rejects. Audio is generated iff the limiter accepts and the synthesizer returns non-empty bytes. The generated audio is exactly what the synthesizer returned. Only then is an entry for that audio prepended to the history. Accepted text whose synthesis gives nothing or no bytes ends as `SynthesisFailed`. |
| GenerateFlow.EntryFor | src/app.py:468-475 | The history entry holds the text, the language display name, the voice display string, the speed, the timestamp and the audio itself. |
| GenerateFlow.RateLimitSkipsSynthesis | src/app.py:459-461 | A limiter rejection gives the same result for every synthesizer, so synthesis is skipped. The history is untouched. |
| GenerateFlow.FailedSynthesisConsumesSlot | src/app.py:459-476 | When synthesis fails or returns no bytes, the accepted check still adds one to the window's count and no history entry is added. |
| GenerateFlow.OverlongTextSpendsSlotOnly | src/app.py:459-466 | Over-long text never reaches the synthesizer, because the result is the same for all synthesizers. Yet it consumes a limiter check, failing as `SynthesisFailed` when admitted. |
| GenerateFlow.GenerateClick | src/app.py:454-476 | Updates the limiter and history objects in the source's order. The outcome, the new rate record and the new history are those of `GenerateStep` on the old state. |

## Findings

| source | as written | input that shows it | evidently intended | confidence | as-written member | corrected member |
|---|---|---|---|---|---|---|
| src/service_account_manager.py:36 | The required-field test uses Python's `in` on whatever the JSON parser returned. For a list that means element membership, and for a string it means substring containment. So a non-object document can pass, be stored, and report a successful upload. | a JSON file holding the array `["type", "project_id", "private_key_id", "private_key", "client_email"]`, or the string `"type project_id private_key_id client_email"` | accept only a JSON object carrying the five keys | not executed | ServiceAccounts.AsWrittenAcceptsFieldNameList | ServiceAccounts.ValidCredential |

`AsWrittenAcceptsFieldNameText` shows the string case of the same finding. The store's `Save` uses the corrected check. `SaveAsWritten` models the source's behaviour.

## Left out

- Streamlit presentation is not modelled: page configuration, CSS, security headers, the logo header, widgets, expanders, spinners, reruns, and the warning and error messages shown.
- Google Cloud calls become parameters. `list_voices` is an `Option<seq<RemoteVoice>>` given to `GetVoices`, where `None` means the service error. `synthesize_speech` is the `Synthesizer` function. Building credentials and the client is the `connect` function of `TextToSpeechClient`.
- The `lru_cache` memoisation of `get_voices` is library caching keyed by object identity, so the model has no cache.
- Writing to temporary files, audio playback, downloads and `os.unlink` cleanup are filesystem and UI I/O.
- JSON parsing is done by the caller: `Save` receives the parsed document, or `None` when parsing failed. The model writes JSON values, not bytes.
- CredentialStore.Save: applies the corrected check `ValidCredential`, not the written one. The source also stores, and reports as saved, a JSON array or string that passes its `in` test. `SaveAsWritten` models that behaviour on the directory's value.
- CredentialStore.Save: failures of `open` or `json.dump` are not modelled, so a write always succeeds. A partly written file is never left behind.
- CredentialStore.Remove: an `unlink` failure is not modelled, so the source's false result on an I/O error does not occur.
- ServiceAccounts.StoragePath: the path is plain string concatenation. `pathlib` normalisation, such as collapsing `a//b`, is not modelled.
- Environment variables and `dotenv` are not read. `MAX_TEXT_LENGTH`, `RATE_LIMIT_REQUESTS` and `RATE_LIMIT_WINDOW` are constants at their defaults of 5000, 10 and 60. `CACHE_TTL` is never used by the source.
- RateLimiter.CheckRateLimit: wall-clock time is one integer `now`. The source's two `time.time()` reads, one when the record is created and one just after, are taken as equal. Float seconds are not modelled.
- The speed slider's float value is an uninterpreted `real` that passes through unchanged. The history timestamp from `strftime` is a string parameter.
- `uuid.uuid4` is the `freshId` parameter of `GetUserId`.
- Logging and the catch-all handlers are represented only by their effect: a `None`, a `false`, or an unchanged state.
- The language display-name mapping and the default-language index (src/app.py:436-444) are not modelled. They depend on the static `LANGUAGE_NAMES` table in src/config.py, which is not part of this model, nor is config/config.py.
- The page's control flow around the store is not modelled. This covers the early return when there is no client (src/app.py:422-426), the upload and remove buttons (src/app.py:396-420), the text area's `max_chars` limit (src/app.py:429) and the history rendering loop (src/app.py:503-531). Only the store operations those widgets call are modelled.
- VoiceCatalog.GetVoices: exceptions other than the service error, such as an unknown gender value, propagate to the page's catch-all in the source. They cannot arise here because the gender is an enumeration.
- Concurrency is not modelled. This includes two tabs racing to write the same credential file, where the last write wins, and the voice cache shared by sessions in one process. Everything in the model is sequential.
