# Lingo API tutoring back end: a verified model of its string, table and state handling

This project models the core of the Lingo API tutoring service in Dafny. The service is a Python back end that answers a learner's question in two languages and speaks the answer. The model covers:

- **Bilingual markup.** The AI answer is a list of fragments, each with a language. `_convertAiResult` turns it into text in which every fragment outside the instruction language is wrapped in `<lang>…</lang>`. Both speech synthesizers scan that markup back with the regular expression `<lang2>(.*?)</lang2>` (DOTALL):
  - the eSpeak one turns the pieces into an SSML document: a `<speak>` root holding `<voice>` elements, loosely after sections 3.1.1 and 3.2.1 of W3C SSML 1.1;
  - the Piper one turns them into `(text, language)` segments and speaks each non-blank segment with a voice from its voice table.
- **The request ladder.** `askForTextResponse` looks up the two languages; a missing one raises a `ValueError` from the generator before its first chunk, and nothing in the service catches it. `askForAudioResponse` looks up the user, the course, the subject, the level, the instruction language and the tutor. There each missing row becomes a `ValueError`, which the handler turns into an HTTP 400; any other failure becomes an HTTP 500.
- **The speech client.** `TTSClient.post` maps language codes and parses a multipart reply. It takes the boundary from the Content-Type header and splits the content at `--boundary` (a rough form of the delimiters of section 5.1.1 of RFC 2046). It keeps the last JSON part as the phonemes and writes the WAV part into a `BytesIO` buffer.
- **In-memory state:**
  - the `CacheService` singleton dictionary;
  - the `BaseAgent` message history;
  - the lazily loaded `AppleRootCA` certificate.
- **The user and device store:** `UserService` and `UserOrm`, over the `user` and `device` tables.
- **The two stub AI clients.** They dispatch on keywords and stream stripped lines.

The regular-expression search is modelled as an explicit left-to-right scan:
- `TagScan.FindMatch` finds the leftmost position where the opening tag is followed by a closing tag somewhere after it;
- the lazy group ends at the first closing tag;
- `TagScan.Scan` is the sequence of pieces the `finditer` loop sees.

Each loop of the source is a Dafny `method` proved against a specification function:
- `ConvertAiResult` against `Converted`;
- `AddVoiceElements` against `Elements ∘ Scan`;
- `Segments` against `SegmentsOf`;
- `Synthesize` against `Render`;
- `Post` against `Gather`;
- `StreamLines` against `LineChunks`.

Objects whose fields the source updates in place are classes:
- `CacheService`, with `CacheClass` for the class-level singleton flags;
- `BaseAgent`;
- `BytesIO`;
- `Store` and `UserService`;
- `AppleRootCA`.

The database session is modelled as a `Store` object. It holds the rows of the `user` and `device` tables in insertion order, and a query's `.first()` is the first matching row.

The repository is also described as a hardware attestation (App Attest) verifier with certificate-chain checks and session tokens. Its code has no such logic: `validate_user_credentials` (service/security_service.py:14-16) always returns `False`. The model follows the code and contains no verifier.

Modules: `Wrappers` (Option/Result), `Seqs`, `Strings` and `Bytes` (the Python string and bytes operations the code relies on), `TagScan`, `Tutoring`, `TutoringRequests`, `SsmlSynthesis`, `PiperSynthesis`, `TtsClient`, `Cache`, `Agent`, `Users`, `UserOrm`, `RootCA`, `StubClient`, `LegacyStubClient`.

## Model

| member | source | states |
|---|---|---|
| Tutoring.ConvertAiResult | service/tutoring_service.py:143-151 | the loop's result is `Converted(instLangCode, fragments)`, the concatenation of the fragments' contributions in list order |
| Tutoring.ConvertedStep | service/tutoring_service.py:145-150 | one turn of the loop keeps the invariant `result + Converted(rest) == Converted(all)` |
| Tutoring.ConvertedAppend | service/tutoring_service.py:145-150 | converting a concatenated list is concatenating the conversions: contributions appear in list order |
| Tutoring.ConvertedCases | service/tutoring_service.py:144-150 | an empty list gives ""; a fragment in the instruction language contributes its text verbatim, any other fragment exactly `<lang>text</lang>` |
| Tutoring.ScanConverted | service/tutoring_service.py:143-151 | round trip with the synthesizers' tag scan: if no fragment text holds `<` and every fragment is in the instruction language or in `lang`, scanning the converted text for `lang` tags gives back exactly the foreign fragments' texts, in order |
| Tutoring.ScanConvertedFrom | service/tutoring_service.py:143-151 | the same round trip stated for a suffix of the text, by induction over the fragments |
| Tutoring.ScanConvertedTag | service/tutoring_service.py:148-150 | a wrapped fragment followed by the rest: the scan yields its text, then resumes exactly at the rest |
| Tutoring.ScanPastText | service/tutoring_service.py:146-147 | a verbatim fragment without `<`: the scan yields no tagged piece for it and resumes at the rest |
| Tutoring.ScanPastTag | service/tutoring_service.py:148-150 | a tag pair around text without `<` is the next tagged piece, and the scan resumes after its closing tag |
| Tutoring.TagAt | service/tutoring_service.py:148-150 | where a wrapped fragment starts, the pattern matches right there, with the inner text ending at the fragment's closing tag |
| Tutoring.FirstTagAfter | service/tutoring_service.py:148-150 | after text without `<`, the first occurrence of a tag is the one right behind that text |
| Tutoring.FindMatchSkip | service/tutoring_service.py:146-147 | a search for the pattern passes over text without `<` unchanged |
| Tutoring.FindMatchSkipOne | service/tutoring_service.py:146-147 | a search starting at a character other than `<` finds what the search from the next position finds |
| Tutoring.NoMatchAt | service/tutoring_service.py:146-147 | the pattern cannot match at a position that does not hold `<` |
| Tutoring.TaggedSkip | service/tutoring_service.py:146-147 | skipping text without `<` skips no tagged piece |
| Tutoring.TaggedTextsAppend | service/tutoring_service.py:145-150 | the tagged texts of a concatenation are the tagged texts of both parts, in order |
| Tutoring.ScannableTail | service/tutoring_service.py:145-150 | the round trip's condition on a fragment list holds for its first fragment and for the rest |
| TutoringRequests.FirstWithCode | service/tutoring_service.py:53-54 | `next(...)` over the rows: None exactly when no row has the code; otherwise a row of the list with that code |
| TutoringRequests.CodeIn | service/tutoring_service.py:51-52 | the query keeps exactly the rows whose code is one of the two requested codes |
| TutoringRequests.FirstWithCodeInQuery | service/tutoring_service.py:51-54 | looking a requested code up in the query's rows finds the same row as looking it up in the whole table |
| TutoringRequests.FirstWithCodeHead | service/tutoring_service.py:53-54 | a first row with the code is the one found |
| TutoringRequests.FirstWithCodeSkip | service/tutoring_service.py:53-54 | a first row without the code is passed over |
| TutoringRequests.AskForTextResponseSpec | service/tutoring_service.py:47-62 | the text response fails with `ValueError("Either A or B is invalid")` exactly when one of the two codes names no subject (before any chunk); otherwise it streams the agent's chunks for the first subjects with those codes |
| TutoringRequests.AskForTextResponse | service/tutoring_service.py:47-62 | the only failure is the `ValueError` naming both codes; a streamed answer is the agent's for subjects of the table that carry the two requested codes |
| TutoringRequests.BaseLanguageSpec | service/tutoring_service.py:100-101 | `code.split("-")[0]` holds no `-` and is either the whole code or the part before its first `-` |
| TutoringRequests.BaseLanguageIdempotent | service/tutoring_service.py:100-101 | reducing a code twice is reducing it once |
| TutoringRequests.ToHttp | service/tutoring_service.py:136-140 | a `ValueError` becomes status 400 carrying its message; every other failure becomes 500 "Internal Server Error" |
| TutoringRequests.FindEnrollment | service/tutoring_service.py:69-76 | "user not found" exactly when no user has the uuid; when the first user with the uuid (`.first()`) has no enrolment with the course id, the course-not-found error; otherwise exactly that user's first enrolment with the id (`next`) |
| TutoringRequests.FirstUserDecides | service/tutoring_service.py:70-76 | only the first user with the uuid is consulted: when that user lacks the course, the course error is reported even if a later user has it |
| TutoringRequests.LessonFor | service/tutoring_service.py:78-92 | success exactly when subject, level, instruction language and tutor are all found, and then the lesson holds those four rows; every failure is a `ValueError` |
| TutoringRequests.MissingSubjectReportedFirst | service/tutoring_service.py:78-80 | a missing subject is reported whatever else is missing |
| TutoringRequests.MissingTutorReportedLast | service/tutoring_service.py:82-92 | a missing tutor is reported exactly when everything looked up before it was found |
| TutoringRequests.ResolveLesson | service/tutoring_service.py:69-92 | the ladder fails only with `ValueError`s; when the first user with the uuid has an enrolment with the course id, the result is the lesson lookup for that user's first such enrolment; a lesson is resolved only then |
| TutoringRequests.AudioRequest | service/tutoring_service.py:65-111 | every failure is an HTTP 400; a plan comes from a resolved lesson and has a female voice exactly when that lesson's tutor has gender `F` |
| TutoringRequests.AudioRequestSpec | service/tutoring_service.py:69-111 | every failure of the ladder is an HTTP 400 with its message; a successful plan uses the two base language codes, neither holding `-`, and a female voice exactly when the tutor's gender is `F` |
| TutoringRequests.AudioAnswerScans | service/tutoring_service.py:99-111 | the converted answer handed to synthesis scans back, for the subject's tags, to exactly the texts of the answer's subject-language fragments |
| TagScan.FindMatch | audio/text_to_speech.py:20-29 | one `re.search` from a position: a found match starts at or after it, its group begins right after an opening tag's length and ends a closing tag's length before the match's end, within the text |
| TagScan.FindMatchSome | audio/text_to_speech.py:20-29 | a found match starts at the leftmost position where the pattern matches, and its inner text ends at the first closing tag after the opening one (the group is lazy) |
| TagScan.FindMatchNone | audio/text_to_speech.py:20-29 | nothing is found exactly when the pattern matches nowhere from that position on |
| TagScan.FindMatchHere | audio/text_to_speech.py:20-29 | at an opening tag followed by a closing tag, the search matches right there, up to the first closing tag |
| TagScan.MatchText | audio/text_to_speech.py:29-36 | the matched text is the opening tag, the group's text and the closing tag |
| TagScan.ScanStep | audio/text_to_speech.py:29-37 | one loop turn: the gap before the match (when non-empty), the inner text, then the scan from the match's end, which lies past the start |
| TagScan.ScanCovers | service/text_to_speech.py:36-49 | coverage: re-wrapping the tagged pieces in their tags and joining all pieces gives back the text |
| TagScan.ScanPlainNonEmpty | service/text_to_speech.py:41-49 | no gap or trailing piece is empty |
| TagScan.ScanTaggedHasNoClose | service/text_to_speech.py:34 | a tagged piece never contains the closing tag |
| TagScan.RewrapAppend | service/text_to_speech.py:36-49 | re-wrapping a concatenation is concatenating the re-wrapped parts |
| TagScan.TaggedExcludesAppend | service/text_to_speech.py:34 | the no-closing-tag property survives concatenation |
| SsmlSynthesis.EspeakVoiceOf | audio/text_to_speech.py:59-72 | `_espeak_voice` as written (a buffer joined) computes `EspeakVoice` |
| SsmlSynthesis.EspeakVoiceParts | audio/text_to_speech.py:62-72 | the suffix is "+f1" exactly for gender 2 and "+m1" for every other value; the language part is "cmn-latn-pinyin" for codes starting with "zh", and the code itself otherwise |
| SsmlSynthesis.EspeakVoiceDistinguishes | audio/text_to_speech.py:62-72 | two codes not starting with "zh" get the same voice only when they are equal |
| SsmlSynthesis.Synthesize | audio/text_to_speech.py:17-45 | the SSML text built is `Ssml(text, lang1, lang2, gender)` |
| SsmlSynthesis.AddVoiceElements | audio/text_to_speech.py:29-42 | the match loop and the remainder append to the list exactly the elements of the scan's pieces |
| SsmlSynthesis.AddVoiceElementsStep | audio/text_to_speech.py:29-37 | one loop turn keeps the invariant `parts + Elements(Scan from last_end) == start + Elements(Scan from 0)` |
| SsmlSynthesis.SsmlStepMatch | audio/text_to_speech.py:31-37 | each match gives, in order, a first-voice element of the stripped gap (only when the gap is non-empty before stripping) and a second-voice element of its stripped inner text |
| SsmlSynthesis.GapElements | audio/text_to_speech.py:31-33 | the text before a match gives one first-voice element exactly when it is non-empty |
| SsmlSynthesis.SsmlStepRest | audio/text_to_speech.py:40-42 | after the last match, the rest is one stripped first-voice element exactly when `last_end < len(text)` |
| SsmlSynthesis.BlankGapGivesEmptyElement | audio/text_to_speech.py:31-33 | a whitespace-only gap still yields an empty first-voice element, followed by the match's element |
| SsmlSynthesis.SsmlEnvelope | audio/text_to_speech.py:25-26 | the document starts with `<speak>` and ends with `</speak>` |
| SsmlSynthesis.SsmlOfEmpty | audio/text_to_speech.py:25-45 | empty text gives exactly `<speak></speak>` |
| SsmlSynthesis.SsmlJoin | audio/text_to_speech.py:44-45 | joining `<speak>`, the elements and `</speak>` gives the document |
| SsmlSynthesis.ElementsAppend | audio/text_to_speech.py:29-42 | the elements of concatenated pieces are the concatenated elements |
| SsmlSynthesis.Elements | audio/text_to_speech.py:29-42 | one element per piece |
| PiperSynthesis.Segments | service/text_to_speech.py:34-49 | the segmentation loop builds exactly `SegmentsOf(text, lang1, lang2)` |
| PiperSynthesis.SegmentsStepMatch | service/text_to_speech.py:39-45 | a match adds the gap before it in the first language (only when `match.start() > last_end`), then its inner text in the second language |
| PiperSynthesis.SegmentsStepRest | service/text_to_speech.py:47-49 | the trailing segment is added exactly when `last_end < len(text)` |
| PiperSynthesis.SegmentsLanguages | service/text_to_speech.py:39-49 | segment k is piece k of the scan, tagged with the first language for gap text and with the second for tagged text |
| PiperSynthesis.SegmentsNoEmptyGap | service/text_to_speech.py:41-42 | an empty segment can only be an empty tag pair's inside: no empty gap segment is produced |
| PiperSynthesis.SegmentsCover | service/text_to_speech.py:36-49 | with two different languages, joining the segments with the second-language ones re-wrapped gives back the text |
| PiperSynthesis.RestoreLabel | service/text_to_speech.py:36-49 | writing labelled segments back out is re-wrapping the pieces |
| PiperSynthesis.Label | service/text_to_speech.py:42-49 | one segment per piece |
| PiperSynthesis.LabelAt | service/text_to_speech.py:42-49 | each segment carries its piece's text and the language of its side of the tags |
| PiperSynthesis.LabelAppend | service/text_to_speech.py:42-49 | labelling concatenated pieces is concatenating the labels |
| PiperSynthesis.Synthesize | service/text_to_speech.py:30-59 | segmentation followed by the speaking loop gives `Render(segments, VOICES, gender)` |
| PiperSynthesis.RenderStep | service/text_to_speech.py:53-59 | one turn of the speaking loop: blank segments are skipped; a missing voice raises; otherwise one entry is added |
| PiperSynthesis.AfterAppend | service/text_to_speech.py:53-77 | entries added one at a time accumulate in order |
| PiperSynthesis.RenderOk | service/text_to_speech.py:53-59 | speaking succeeds exactly when every non-blank segment has a voice for its language and the gender |
| PiperSynthesis.RenderOkVoiced | service/text_to_speech.py:57-59 | after a success, every non-blank segment had a voice |
| PiperSynthesis.VoicedRenderOk | service/text_to_speech.py:57-59 | when every non-blank segment has a voice, speaking succeeds |
| PiperSynthesis.RenderErrAt | service/text_to_speech.py:57-59 | the first non-blank segment without a voice decides the `ValueError` message |
| PiperSynthesis.RenderLength | service/text_to_speech.py:53-77 | on success there is one entry per non-blank segment |
| PiperSynthesis.RenderEntryAt | service/text_to_speech.py:53-77 | on success entry k carries the k-th non-blank segment's language, its stripped text and the voice registered for it |
| PiperSynthesis.BlankRendersEmpty | service/text_to_speech.py:54-56 | blank segments produce no entry: all-blank input gives an empty list for any gender |
| PiperSynthesis.VoiceTable | service/text_to_speech.py:24-27 | the table has a voice exactly for ("en", 2) and ("zh", 2) |
| PiperSynthesis.MaleVoiceFails | service/text_to_speech.py:24-27 | with any non-blank segment, gender 1 fails |
| TtsClient.WireLangCases | service/tts_client.py:19-20 | "zh" is sent as "cmn", every other code unchanged, and "zh" is never sent |
| TtsClient.Post | service/tts_client.py:18-53 | the payload carries the mapped language and the speed, which defaults to 175; the phonemes and the buffer are what `Gather` gives over the parts of the reply, and the buffer is fresh and at position 0 |
| TtsClient.Delimiter | service/tts_client.py:37 | the delimiter `--boundary` is at least two bytes long |
| TtsClient.BytesIO.Write | service/tts_client.py:49 | a write replaces the bytes from the position on, extends the buffer past its end, and advances the position |
| TtsClient.BytesIO.Seek | service/tts_client.py:50 | seeking moves the position and keeps the contents |
| TtsClient.OverwriteSpec | service/tts_client.py:49 | a write keeps the bytes before the position and past the block, places the block, and grows the buffer only as far as the block reaches |
| TtsClient.GatherAppend | service/tts_client.py:42-51 | the loop over two lists in a row is the loop over their concatenation |
| TtsClient.GatherAt | service/tts_client.py:42-51 | the loop split at one part |
| TtsClient.LastJsonWins | service/tts_client.py:43-46 | the phonemes are the body of the last JSON part |
| TtsClient.NoJsonNoPhonemes | service/tts_client.py:39-46 | with no JSON part the phonemes stay the initial "" |
| TtsClient.GatherKeepsPhonemes | service/tts_client.py:43-46 | parts without the JSON marker leave the phonemes unchanged |
| TtsClient.GatherKeepsAudio | service/tts_client.py:47-50 | parts that are not WAV parts leave the buffer unchanged |
| TtsClient.JsonPartNotWritten | service/tts_client.py:43-47 | the JSON test comes first: a part naming both content types sets the phonemes and never reaches the buffer |
| TtsClient.NoWavEmptyBuffer | service/tts_client.py:40-50 | with no WAV part the buffer stays empty |
| TtsClient.WavIntoEmpty | service/tts_client.py:47-50 | a WAV part written into an empty buffer leaves exactly its body |
| TtsClient.OneWavPart | service/tts_client.py:40-51 | with exactly one WAV part the buffer holds exactly its body |
| TtsClient.WavOverwritesStart | service/tts_client.py:47-50 | a later WAV part overwrites the start of the buffer instead of being appended; only an earlier, longer body's tail survives |
| TtsClient.BoundaryWithoutHeader | service/tts_client.py:32-34 | without a Content-Type header the boundary is "" |
| TtsClient.BoundaryWithoutMarker | service/tts_client.py:32-34 | a header without "boundary=" is taken whole, stripped |
| TtsClient.BoundaryAfterMarker | service/tts_client.py:32-34 | otherwise the boundary is the stripped text after an occurrence of "boundary=" with no further occurrence after it (the last one) |
| TtsClient.BoundaryStripped | service/tts_client.py:32-34 | the boundary is empty or starts and ends with a non-whitespace character |
| TtsClient.Parts | service/tts_client.py:37 | there is at least one part, and joining the parts with `--boundary` gives back the content |
| TtsClient.BodyStripped | service/tts_client.py:44-48 | a part's body is a slice of what follows its first blank line, and is empty or starts and ends with a non-whitespace byte |
| TtsClient.BodyWithoutBlankLine | service/tts_client.py:44-48 | a part without a blank line has the whole part, stripped, as its body |
| TtsClient.Ascii | service/tts_client.py:43-47 | a `b"..."` literal has one byte per character |
| Seqs.SplitLastAt | service/tts_client.py:33 | the last part of a split is what follows an occurrence of the separator after whose end the separator does not occur again (for "boundary=" that is its last occurrence) |
| Seqs.Split | service/tts_client.py:37 | a split has at least one part |
| Seqs.SplitJoin | service/tts_client.py:37 | joining the parts of a split with the separator gives back the content |
| Seqs.SplitParts | service/tts_client.py:37 | no part of a split contains the separator |
| Seqs.SplitWithout | service/tts_client.py:33 | without the separator, the split is the whole input |
| Seqs.AfterFirst | service/tts_client.py:44 | `split(sep, 1)[-1]`: what follows the first separator, or everything when there is none |
| Bytes.Strip | service/tts_client.py:44 | `bytes.strip()` gives empty exactly for all-whitespace input |
| Bytes.StripEnds | service/tts_client.py:44 | a non-empty result of `bytes.strip()` starts and ends with a non-whitespace byte |
| Bytes.StripSlice | service/tts_client.py:44 | `bytes.strip()` returns a slice of its input from which only leading and trailing whitespace was cut |
| Strings.Strip | audio/text_to_speech.py:32 | `str.strip()` gives empty exactly for all-whitespace input, and otherwise starts and ends with a non-whitespace character |
| Strings.StripSlice | audio/text_to_speech.py:32 | `str.strip()` returns a slice of its input from which only leading and trailing whitespace was cut |
| Seqs.Trim | audio/text_to_speech.py:32 | trimming is empty exactly for all-space input, and a non-empty result starts and ends with a non-space |
| Seqs.TrimSlice | audio/text_to_speech.py:32 | trimming returns one slice of its input, and everything cut off in front of it and behind it is space |
| Seqs.Find | agent/client/stub_client.py:293 | `find` gives -1 or a position where the keyword occurs |
| Seqs.FindLeast | agent/client/stub_client.py:293 | `find` gives -1 exactly when the keyword is absent, and otherwise its first occurrence |
| Seqs.FirstWhere | service/user_service.py:41-42 | `.first()`: None exactly when no row matches; otherwise the first matching row |
| Cache.CacheService.Add | service/cache_service.py:26-32 | `add` returns true exactly when the key was absent; then it stores the value; otherwise nothing changes |
| Cache.CacheService.Set | service/cache_service.py:35-36 | `set` stores the value and changes no other key |
| Cache.CacheService.Get | service/cache_service.py:39-42 | `get` returns the stored value, or None exactly when the key is absent |
| Cache.CacheService.Contain | service/cache_service.py:45-46 | `contain` holds exactly when `get` finds a value |
| Cache.CacheClass.Construct | service/cache_service.py:14-23 | the first construction creates the instance with an empty dictionary; every later one returns that same instance with its dictionary untouched |
| Cache.ConstructTwice | service/cache_service.py:14-23 | two constructions give the same instance, and a value stored through the first is found through the second |
| Agent.BaseAgent.constructor | agent/base_agent.py:10-13 | a new agent has an empty history and a "system" message holding the instructions |
| Agent.BaseAgent.AppendAssistantMessage | agent/base_agent.py:16-17 | adds exactly one "assistant" message at the end |
| Agent.BaseAgent.AppendUserMessage | agent/base_agent.py:20-21 | adds exactly one "user" message at the end |
| Agent.BaseAgent.ClearHistoryMessages | agent/base_agent.py:24-25 | leaves the history empty |
| Agent.PromptShape | agent/base_agent.py:29-30 | the prompt is the system message, the history in order, then the question as a final "user" message |
| Agent.BaseAgent.AskAi | agent/base_agent.py:28-33 | returns the client's reply to the prompt unchanged, without touching the history |
| Agent.BaseAgent.AskAiStream | agent/base_agent.py:36-41 | yields exactly the client's chunks for the prompt, in order, without touching the history |
| Users.Registered | service/user_service.py:71-73 | `add_user` sets both dates to the same instant and a fresh uuid, and keeps the other fields |
| Users.Store.Insert | service/user_service.py:74-76 | `add` and `commit`: a row without an id gets the next one and is appended; other tables are unchanged |
| Users.UserService.AddUser | service/user_service.py:71-78 | the stored user is the caller's user with the fresh uuid and both dates set to `now`, appended to the table; it gets the next id when it had none, and the id counter advances exactly then |
| Users.UserService.GetUserByUuid | service/user_service.py:81-86 | the first user with the uuid, or an empty `User()` (never None) |
| Users.UserService.GenerateDeviceChallenge | service/user_service.py:22-38 | returns the fresh device uuid and a 32-digit lower-case hex challenge of the random bytes; appends one device owned by the resolved user, stamped with the second clock reading, and adds a user, stamped with the first, only when the resolved one has no uuid; the id counter advances by one exactly when a user without an id is registered |
| Users.Owner | service/user_service.py:25-30 | at most the owner itself is added; nothing is added exactly when the caller's uuid is set and found, and then the owner is that stored user; an added owner has an id, the fresh uuid and both dates set to the clock reading |
| Users.OwnerFound | service/user_service.py:25-26 | a user found by its uuid owns the device, and no user is added |
| Users.OwnerNotFound | service/user_service.py:25-29 | an unknown uuid registers an empty user (the caller's fields are dropped), which owns the device |
| Users.OwnerWithoutUuid | service/user_service.py:28-29 | a caller's user without a uuid is registered as given, with the fresh uuid and dates |
| Users.ChallengeShape | service/user_service.py:32 | the challenge has 32 lower-case hex digits and decodes to the random bytes |
| Bytes.Hex | service/user_service.py:32 | `hex()` gives two lower-case hex digits per byte |
| Bytes.HexRoundTrip | service/user_service.py:32 | decoding the hex text gives back the bytes |
| Users.UserService.UpdateDeviceChallenge | service/user_service.py:40-49 | replaces only the challenge of the first device with the uuid and returns it; otherwise returns None and changes nothing |
| Users.UserService.GetDevice | service/user_service.py:51-56 | the first device with the uuid, or None exactly when there is none |
| Users.UserService.SetDeviceKeyInfo | service/user_service.py:58-68 | sets the key id and public key of the device with the uuid and keeps its challenge, overwriting earlier values; otherwise returns None and changes nothing |
| Users.UserService.DeleteUser | service/user_service.py:108-114 | returns true exactly when a user had the id, and then removes that user |
| UserOrm.AddUser | orm/user_orm.py:5-10 | the stored row has both dates set to `now`, keeps the caller's fields, gets the next id when it had none, and is appended; the id counter advances exactly when an id was assigned |
| UserOrm.GetUser | orm/user_orm.py:13-14 | the first stored user with the id, or None exactly when there is none |
| UserOrm.AddedUserIsFound | orm/user_orm.py:5-14 | a user added with a new id is what `get_user` with that id returns |
| UserOrm.RowToUpdate | orm/user_orm.py:18 | the row found for the update is the first with the caller's id; some row is found whenever one has that id |
| UserOrm.Refreshed | orm/user_orm.py:19-23 | the updated row keeps its id, uuid and creation date, takes the caller's name, email and phone, and has update date `now` |
| UserOrm.UpdateUser | orm/user_orm.py:17-27 | updates the found row in place and returns it; with no row it returns None and changes nothing |
| UserOrm.UpdatedUserIsFound | orm/user_orm.py:17-27 | after an update the id still finds the same position, now holding the refreshed row |
| RootCA.AfterGet | resource/apple_root_ca.py:12-24 | a cached certificate is kept; otherwise the cache is set exactly when the variable is set and the file loads, to the loaded certificate |
| RootCA.AppleRootCA.GetRootCert | resource/apple_root_ca.py:12-24 | the cache after the call is `AfterGet` of the cache before it, and the call returns the cache |
| RootCA.CachedForever | resource/apple_root_ca.py:13-24 | once set, the cache survives any further calls, whatever the path and the file |
| RootCA.RetryAfterFailure | resource/apple_root_ca.py:13-24 | a failed load is not remembered: a later call with a loadable file yields its certificate |
| StubClient.MentionsIff | agent/client/stub_client.py:293-297 | a keyword counts exactly when it occurs but not at index 0 |
| StubClient.AskAiDispatch | agent/client/stub_client.py:291-300 | only the first message matters; "Spanish" beats "Japanese"; inside it, "from the same audio input" picks the audio example; no keyword gives the default reply |
| StubClient.AskAi | agent/client/stub_client.py:291-300 | the reply is one of the three examples or the default reply, and it is the default reply unless the first message mentions "Spanish" or "Japanese" |
| StubClient.StreamSourceDispatch | agent/client/stub_client.py:303-311 | only the first message matters; the speaking example beats the second question-and-answer example, which beats the first |
| StubClient.AskAiStream | agent/client/stub_client.py:303-317 | the chunks are the chosen text's lines, each non-blank one stripped and followed by "\n", then a final "\n" |
| StubClient.StreamLines | agent/client/stub_client.py:313-317 | the loop over the lines yields `LineChunks(lines)` and then "\n" |
| StubClient.LineChunksShape | agent/client/stub_client.py:313-316 | chunk 2k is the k-th non-blank line stripped and chunk 2k+1 is "\n" |
| StubClient.LineChunksInterleave | agent/client/stub_client.py:313-316 | the chunks are the stripped non-blank lines interleaved with "\n" |
| StubClient.InterleaveShape | agent/client/stub_client.py:313-316 | an interleaving has twice the elements, alternating element and separator |
| StubClient.StrippedLines | agent/client/stub_client.py:314-315 | no yielded line is empty |
| StubClient.StreamLength | agent/client/stub_client.py:313-317 | a stream has 2 × (non-blank lines) + 1 chunks |
| LegacyStubClient.AskAiDispatch | agent/stub_client.py:205-212 | only the first message matters; "Spanish" beats "Japanese"; a keyword at index 0 is not noticed; no keyword gives the default reply |
| LegacyStubClient.AskAi | agent/stub_client.py:205-212 | the reply is one of the two examples or the default reply, and it is the default reply unless the first message mentions "Spanish" or "Japanese" |
| LegacyStubClient.AgreesWithCurrentClient | agent/stub_client.py:205-212 | without the audio keyword the older client answers like the current one |

## Left out

- Attestation, certificate-chain and token logic: the code has none (service/security_service.py:14-16 always returns `False`), so the model has none.
- Regular-expression metacharacters: the second language code is assumed to hold none, so the pattern is the literal tag pair the scan looks for.
- The canned example texts of both stub clients are parameters (`Examples`, `StreamTexts`). Only the short default reply is a literal.
- External services are not modelled:
  - Piper voice loading and synthesis, with the WAV writing at service/text_to_speech.py:61-77;
  - the eSpeak speech service;
  - the HTTP call at service/tts_client.py:29;
  - `json.loads`, with the result dictionary, at audio/text_to_speech.py:49-56;
  - Whisper and the language models.

  A spoken entry records the language, the stripped text and the voice file name instead of audio and phonemes.
- The Content-Type header lookup is an `Option`: a missing header is `None`, which gives the empty boundary.
- The initial `phonemes = ""` of `post` is `None` in the model, so a JSON part whose body is empty stays distinguishable from no JSON part.
- The entity declarations lack fields and relationships the services use: `User` (entity/user.py:8-20) has no `uuid` and no `courses` relationship; `UserCourse` (entity/user_course.py:6-17) has no `course` relationship, no `instruction_language_id` and no `tutor_id`; `Tutor` has no `gender`. The model follows the service code. SQL row order is insertion order, and ids come from a counter on the store.
- Fresh uuids (`uuid4`), the clock and `os.urandom` are parameters; uuid freshness is not modelled.
- `Device.id` is left out; devices are identified by their uuid.
- Concurrency, including the unlocked `CacheService` singleton and the class-level `ROOT_CERT`, is not modelled.
- `UserService.update_user` and `update_user_info` call a `get_user` that `UserService` does not define, so they always raise. `add_device_to_user` needs a `devices` relationship the `User` entity does not declare. None of the three is modelled.
- Response assembly in `askForAudioResponse` is not modelled. This covers the multipart fields and stream at service/tutoring_service.py:113-135 and the call to synthesis at 106-111; the model stops at the plan handed to synthesis.
- `AiRequest`: the request text sent to the agent at service/tutoring_service.py:95-96 is kept as a function but nothing is proved about its (malformed) JSON. The agent's reply is an input already validated into an `AiResponse`.
- `CacheService` values are generic; storing `None` as a value, which `get` could not tell from an absent key, is not distinguished.
- Users.Store.Insert: appends the row whatever its id. The `user` table's primary key would make `commit` raise an `IntegrityError` for a caller-supplied id that is already stored, and the `device` table's unique uuid would do the same for a repeated device uuid; the model has no such error and keeps both rows. Lookups return the first matching row.
- `Users.EMPTY_USER`: `User()` with unset fields is a record with empty or absent fields. The database would refuse such a row, because name and phone are required columns; the model stores it.
- PiperSynthesis.SegmentsCover: requires the two languages to differ, because segments are told apart by their language only.
- RootCA: the log message for a missing file and the print for any other error are not modelled; both leave the cache empty, which the model does state.
- Prompt-template agents, routes, the database wiring, the course and language services and the profanity filter are outside the modelled core.
