# Voice chatbot core, modelled in Dafny

This project models the logic of `main.py` in the Streamlit voice chatbot. That logic sits between the speech recogniser, the chat model, Gmail and the two text-to-speech engines. It has three parts.

**Email intent.** `get_bot_response` sends a prompt down the email path when its lower-cased text contains one of four keywords. `extract_email_details` then turns the utterance into a recipient, a subject and a body. Its inputs are Python regular expressions, searched with `re.findall`, `re.search` and `re.sub`, plus `str.replace` and `str.strip`.

- Module `Patterns` describes each regular expression twice:
  - as a declarative shape over positions of the text;
  - as a matcher that makes the choice Python's backtracking engine makes.

  It proves that the matcher returns the longest match at a position. For the subject pattern, the engine prefers the latest start of the group and then the longest group.
- Module `Scan` models the leftmost, non-overlapping scan that `findall`, `sub` and `replace` share. It proves two things: the pieces and matches rebuild the text, and they are the unique leftmost-longest decomposition.
- Module `EmailIntent` builds `extract_email_details` and `handle_email_request` from these parts.
- Module `Assistant` holds the routing test, the language mapping and the message list sent to the chat model.

**Speech chunking.** Module `Speech` models two chunkers:

- the sentence splitter of `speak_text`;
- the segmenter of `speak_with_gtts`, which groups words into segments of about 100 characters.

The segmenter is a method with a loop. It is proved equal to a function, and the function is proved to be the one greedy grouping of the words.

**Playback.** Module `Playback` has a `Session` class with these fields:

- the session flags `speaking`, `stop_speech`, `play_audio` and `audio_file`;
- the language setting;
- the temporary files;
- what each engine has said.

Its methods are:

- `stop_speaking`;
- the audio-player block;
- the loop of the offline engine (pyttsx3), one sentence at a time;
- the online engine (gTTS), with its segment loop and cleanup.

In the program, the foreground script and the speech thread share the stop flag. In the model, the foreground's requests arrive through a stop oracle: `stops[r]` says whether `stop_speaking` ran just before the speech side's r-th read of the flag. A failing save of the online engine is the parameter `saveFailsAt`. The loops are proved against `GttsRun` and `SpokenCount`, which say how many segments or sentences get through. Lemmas about those functions prove the following:

- A stop request bounds what is synthesized.
- More requests never synthesize more.
- The cleanup deletes exactly the files the loop created.

Text is ASCII. Whitespace means Python's `isspace` on ASCII characters, and `lower()` and `re.IGNORECASE` fold only `A`–`Z`.

When `tts.save` raises (main.py:408), control jumps to the `except` at main.py:432, which skips the cleanup loop at main.py:424-429. `Playback.Session.SpeakWithGtts` therefore promises restored files only when no save failed, and says exactly which files remain otherwise.

## Model

| member | source | states |
|---|---|---|
| Text.Strip | main.py:168 | the result has no whitespace at either end, and it is empty exactly when the text is all whitespace |
| Text.StripSlice | main.py:168 | the stripped text is one contiguous slice of the text, with only whitespace cut off before and after it |
| Text.StripSubsequence | main.py:168 | stripping only deletes characters |
| Text.Words | main.py:389 | `text.split()`: every word is a non-empty run of non-whitespace; the words, concatenated, are the text's non-whitespace characters in order; there are no words exactly when the text is blank |
| Text.WordsBetweenSpace | main.py:389 | the text is whitespace gaps with the words between them; every gap is all whitespace and every gap between two words is non-empty, so the cuts fall exactly at whitespace and each word is a maximal non-whitespace run |
| Text.RunEndCovers | main.py:144 | a greedy character-class run reaches at least as far as any run of that class |
| Patterns.MatchAddress | main.py:144 | an address found at a position is non-empty and ends inside the text; which address it is, is stated by `Patterns.AddressSound` and `Patterns.AddressLongest` |
| Patterns.AddressSound | main.py:144 | what the address matcher returns has the shape `[\w\.-]+@[\w\.-]+\.\w+` |
| Patterns.LastDot | main.py:144 | the backtracking of the domain part stops at the last '.' that is followed by two letters, and no later such '.' exists |
| Patterns.AddressLongest | main.py:144 | every address at a position ends no later than where the address matcher ends |
| Patterns.MatchSend | main.py:166 | a send phrase found at a position is non-empty and ends inside the text; `Patterns.SendSound` and `Patterns.SendLongest` say which one it is |
| Patterns.SendSound | main.py:166 | the send-phrase matcher's result has the shape `send\s+(?:an?\s+)?email\s+(?:to\s+)?` |
| Patterns.SendLongest | main.py:166 | every send phrase at a position ends no later than where the matcher ends |
| Patterns.MatchWith | main.py:167 | a with phrase found at a position is non-empty and ends inside the text; `Patterns.WithSound` and `Patterns.WithLongest` say which one it is |
| Patterns.WithSound | main.py:167 | the with-phrase matcher's result has the shape `with\s+(?:the\s+)?message\s+` |
| Patterns.WithLongest | main.py:167 | every with phrase at a position ends no later than where the matcher ends |
| Patterns.MatchEnd | main.py:144-167 | a match found at a position, for any of the patterns, is non-empty and ends inside the text |
| Patterns.MatchEndIsLongest | main.py:144-167 | for every pattern, the matcher finds a match exactly when one exists, and it returns the longest one |
| Patterns.GroupStart | main.py:155 | the group of `subject[:\s]+([^\n.]+)` starts at the last position whose character is not '\n' or '.' |
| Patterns.SubjectAt | main.py:155 | a subject match found at a position starts there, its group starts after the word "subject", and the group is non-empty and ends inside the text |
| Patterns.SubjectAtCorrect | main.py:155 | the subject matcher at a position returns the match the engine prefers there, and returns none exactly when no match starts there |
| Patterns.SearchSubject | main.py:155 | the match `re.search` reports starts at or after the search position, and its group is non-empty and lies after "subject" |
| Patterns.SearchSubjectCorrect | main.py:155 | `re.search` returns the preferred match at the leftmost position where one exists, and returns none exactly when no position has one |
| Patterns.FirstSubjectUnique | main.py:155 | there is only one match that `re.search` can report |
| Scan.ScanFrom | main.py:147-167 | the scan yields one more piece than matches, and every match is non-empty |
| Scan.FindAll | main.py:147 | every match `re.findall` returns is non-empty |
| Scan.ScanRoundTrip | main.py:147-167 | the scan's pieces with its matches put back between them rebuild the text |
| Scan.ScanDecomposes | main.py:147-167 | the scan meets the leftmost-longest, non-overlapping decomposition, match by match |
| Scan.DecomposesUnique | main.py:147-167 | the leftmost-longest decomposition of a text is unique |
| Scan.FindAllFirst | main.py:147-152 | `re.findall` finds nothing exactly when nothing matches; otherwise its first element is the leftmost-longest match |
| Scan.Sub | main.py:161-167 | deleting the matches of a pattern only deletes characters |
| Scan.SubRemovesFound | main.py:161-167 | the deletion leaves exactly the pieces between the matches that `findall` reports |
| EmailIntent.RemoveAll | main.py:159-161 | deleting every found address in turn only deletes characters |
| EmailIntent.Body | main.py:159-168 | the body, made by the four deletions in order and then a strip, has no surrounding whitespace and only holds characters of the text, in order |
| EmailIntent.ExtractEmailDetails | main.py:141-173 | the recipient and the subject are both absent or both present; without them the message is the no-address diagnostic; with them the recipient and the message are non-empty |
| EmailIntent.NoAddressCase | main.py:147-150 | the no-address triple comes back exactly when no part of the text is an address |
| EmailIntent.RecipientIsLeftmost | main.py:147-152 | the recipient is the leftmost address, taken as long as possible |
| EmailIntent.SubjectIsFirstMatch | main.py:155-156 | the subject is the stripped group of the match `re.search` reports, or the default subject when nothing matches |
| EmailIntent.MessageIsBody | main.py:159-173 | with an address found, the message is the body when the body is non-empty and the no-content diagnostic otherwise |
| EmailIntent.HandleEmailRequest | main.py:260-273 | nothing is sent exactly when no address was found, and the reply is then the diagnostic; otherwise the extracted triple is sent, and the reply is the result or the failure prefix followed by the result |
| EmailIntent.DiagnosticIsSent | main.py:262-268 | with an address but no content, the no-content diagnostic is sent as the body of the email |
| Assistant.Contains | main.py:278 | `needle in hay` holds exactly when the needle occurs at some position of the text |
| Assistant.ScanFindsOccurrence | main.py:278 | the leftmost literal scan finds a match exactly when the needle occurs at some position |
| Assistant.IsEmailRequest | main.py:278 | the email path is taken exactly when one of the four keywords occurs in the lower-cased prompt |
| Assistant.DetectLanguage | main.py:99-109 | the answer is "bn" or "en", and it is "bn" exactly when the detector reports "bn" |
| Assistant.LanguageSetting | main.py:474-479 | the stored setting is "bn" exactly for Bengali and "en" exactly for English; any other option stores "auto" |
| Assistant.EffectiveLanguage | main.py:282-285 | the detector decides under "auto"; any other setting is used as it is |
| Assistant.EffectiveLanguageSupported | main.py:282-285 | every setting the sidebar can store leads to English or Bengali |
| Assistant.BotRoute | main.py:275-306 | the route is email exactly for email requests; it reports a missing key exactly for other prompts without a key; the chat messages end with the user prompt and have the Bengali instruction first exactly when the language is Bengali; for any other language they are the user prompt alone |
| Speech.MapTerminators | main.py:347 | the text keeps its length; a character becomes '.' exactly where the text has '.', '!' or '?', every other character stays as it is, and no '!' or '?' remains |
| Speech.SplitOn | main.py:347 | `split('.')`: no piece holds a '.', each piece's characters come from the text, and joining the pieces with '.' gives back the text |
| Speech.SplitUnique | main.py:347 | pieces free of the separator are fixed by their join, so the split is the only one |
| Speech.Sentences | main.py:348 | every kept piece is non-empty and has no surrounding whitespace |
| Speech.SplitSentences | main.py:347-348 | every sentence is non-empty and has no surrounding whitespace |
| Speech.Terminators | main.py:347 | each element is one terminator character of the text |
| Speech.SplitRebuild | main.py:347 | the pieces of the split, with the text's own terminators put back between them, rebuild the text, so the cuts fall exactly at the terminators |
| Speech.SentencesPick | main.py:348 | the sentences are the stripped pieces in order: sentence k is the stripped piece idx[k], the indices increase, and every piece left out is blank |
| Speech.SentenceBoundaries | main.py:347-348 | both facts for the sentences of a text: the pieces rebuild the text around its terminators, and the sentences are the non-blank stripped pieces in order |
| Speech.SentencesHaveNoTerminator | main.py:347-348 | no sentence holds '.', '!' or '?' |
| Speech.SentencesCover | main.py:347-348 | the sentences, read in order, hold exactly the text's characters that are neither whitespace nor terminators, in their original order |
| Speech.FirstGroupLength | main.py:389-393 | the segment closes at the first word that makes it longer than 100 characters; before that word it was at most 100 |
| Speech.Groups | main.py:386-396 | the words are grouped greedily: each group is non-empty and at most 100 characters before its last word; each group but the last is longer than 100 characters; and the groups concatenate to the words |
| Speech.GreedyUnique | main.py:386-396 | a word list has one greedy grouping only |
| Speech.Segments | main.py:386-396 | the segments concatenate to each word followed by one space, in order; each is non-empty and ends in a space; all but the last are longer than 100 characters; blank text gives none |
| Speech.Segment | main.py:386-396 | the loop with its accumulator returns exactly the segments of the text |
| Playback.SpokenCount | main.py:350-352 | the offline engine says sentences up to the first read that finds a request, or all of them: no read before the count found one, and the count is the sentence total or a read that did |
| Playback.SegmentsBefore | main.py:398-421 | the number of segments whose first read comes before read t, with two reads per segment, is t / 2 rounded up |
| Playback.FirstStop | main.py:399-419 | the first read at or after r that finds a stop request, with no request between r and that read |
| Playback.GttsRun | main.py:398-421 | the online loop never saves more segments than it creates files; it creates one more file than it saves exactly when a save failed; a stopped loop did not fail |
| Playback.GttsStopBound | main.py:398-421 | after a stop request at read t, no segment whose first read comes at or after t is synthesized |
| Playback.GttsImmediateStop | main.py:399-400 | a request before the first read means nothing is synthesized and no file is created; with segments to say, the loop counts as stopped |
| Playback.GttsMonotone | main.py:398-421 | more stop requests never synthesize more segments |
| Playback.GttsStoppedAt | main.py:399-419 | a loop stopped at read t after k saves yields k saved and k created files |
| Playback.GttsFailedAt | main.py:402-408 | a save failure at segment k with no earlier request yields k saved and k + 1 created files |
| Playback.GttsCompleted | main.py:398-421 | without requests and failures, every segment is saved |
| Playback.SpokenStopBound | main.py:350-352 | after a stop request at read t, the offline engine says at most t sentences |
| Playback.SpokenStoppedAt | main.py:350-352 | a first request at read i stops the offline engine after exactly i sentences |
| Playback.SpokenCompleted | main.py:350-355 | without requests every sentence is said |
| Playback.NewFilesCreate | main.py:405-407 | creating the next temporary file adds one empty file to the created ones |
| Playback.NewFilesSave | main.py:408 | saving segment k into the next file adds its audio to the saved files |
| Playback.CleanupRestores | main.py:424-429 | deleting the listed temporary paths leaves exactly the files there were before the loop |
| Playback.AfterGttsFields | main.py:369-435 | after the online engine, the stop flag says whether a request ended the loop; the created files took the next paths; the saved segments' audio, in the language used, is appended to what was synthesized; the last saved file is handed to the player; the files are back as they were unless a save raised, which leaves exactly the created ones added |
| Playback.AfterGttsIgnoresStop | main.py:372-373 | the stop flag the online engine starts from does not affect its outcome, because it clears the flag first |
| Playback.Session.constructor | main.py:49-70 | the session starts not speaking, without a stop request or a pending audio file, with the language "auto" and with no temporary files |
| Playback.Session.SelectLanguage | main.py:474-479 | the stored language is the sidebar's mapping of the chosen option |
| Playback.Session.StopSpeaking | main.py:447-454 | only while speaking, a stop is requested and speaking ends; otherwise nothing changes |
| Playback.Session.RenderAudioPlayer | main.py:493-502 | a pending file is shown unless a stop was requested, and the pending file and the play request are cleared; without a pending file nothing changes |
| Playback.Session.ObserveStop | main.py:399-419 | a read of the flag sees a stop exactly when the oracle has a request there, and the flags then say stopped and not speaking |
| Playback.Session.CreateTempFile | main.py:405-407 | the new file is fresh and empty, and every file stays below the next fresh path |
| Playback.Session.RemoveFiles | main.py:424-429 | exactly the listed paths are removed; the other files keep their contents |
| Playback.Session.SaveSegment | main.py:402-413 | one more segment is saved into a fresh file, which is handed to the player |
| Playback.Session.FailSegment | main.py:402-408 | a save that raises leaves one more, empty, file |
| Playback.Session.SaveAndRead | main.py:402-421 | after the first read, the pass ends as `GttsRun` predicts, or it goes on with no request seen |
| Playback.Session.SegmentPass | main.py:398-421 | one pass of the segment loop ends as `GttsRun` predicts, or it goes on with one more segment saved |
| Playback.Session.SaveSegments | main.py:398-421 | the loop saves and creates as many files as `GttsRun` predicts, ends stopped as `GttsRun` says, and lists the created paths in order |
| Playback.Session.SpeakWithGtts | main.py:369-435 | synthesis uses the given language, or else the effective language; the session fields afterwards are `AfterGtts` of the fields before, for the segments of the text; speaking ends false |
| Playback.Session.SynthesizeSegments | main.py:398-429 | the segment loop followed by the cleanup, which runs only when no save raised, leaves the fields `AfterGtts` describes |
| Playback.Session.SaySentences | main.py:350-355 | the offline engine says the first `SpokenCount` sentences, and the stop flag is set exactly when it stopped early |
| Playback.Session.SpeakText | main.py:325-367 | Bengali goes to the online engine in Bengali; an offline engine that cannot start hands over to the online engine in the language detected afresh; otherwise the sentences are said until a stop request and the online engine's state is untouched; speaking ends false |
| Playback.Session.SpeakFallback | main.py:362-367 | the exception handler runs the online engine in the language detected afresh and leaves the fields `AfterGtts` describes, with speaking false |
| Playback.Session.SpeakSentences | main.py:343-361 | the offline path says the first `SpokenCount` sentences, sets the stop flag exactly when it stopped early, and ends not speaking |

## Left out

- The Streamlit user interface, the chat history, microphone recording, WAV files and speech recognition are left out. They are presentation and audio I/O.
- The OpenRouter request and the handling of the model's reply are left out; they are network I/O. `Assistant.BotRoute` stops at the message list sent to the model.
- Gmail authentication and the sending of the email are left out; they are calls into Google's libraries. What `send_email` reports is a parameter of `EmailIntent.HandleEmailRequest`.
- The language detector, the speech engines and `NamedTemporaryFile` are abstract. A detector result is a parameter, paths are natural-number handles from a fresh counter, and a clip records the text and the language of its audio.
- Timing, the background thread and concurrent changes to the session are left out. The foreground appears only through the stop oracle, read by the speech side before each sentence and before and after each segment. A foreground that resets the player while a segment plays is not modelled.
- Non-ASCII text is left out. Python's Unicode whitespace, case folding and `\s` are not modelled.
- `Playback.Session.SpeakWithGtts`: only a save that raises is modelled as a failure. A `gTTS` constructor that raises behaves the same way in the code: the loop ends and there is no cleanup. Failed deletions during cleanup, which the code ignores, are not modelled.
- `Playback.Session.SpeakText`: the offline engine failing in the middle of the sentence loop is not modelled; only an engine that cannot start is.
- `EmailIntent.ExtractEmailDetails`: when the message is the no-content diagnostic, the contract does not state that the message has no surrounding whitespace. For every other message it does.
- The stripped subject can be the empty string, as for "subject: .", because the group may be all whitespace. The model keeps that behaviour and proves nothing to exclude it.
