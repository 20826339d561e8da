# EchoVerse core, modelled in Dafny

EchoVerse is a voice diary. A user records audio, gives it a title and an
unlock date, and the browser encrypts the recording with a fresh AES-256-GCM
key before it is uploaded. An entry can be played back only once its unlock
date has passed. This project models the logic that decides what happens.
It does not model the browser, Web Crypto or the hosted backend.

- `AudioCipher` (`encryption.dfy`) models `lib/encryption.ts`:
  - the raw key written as lower-case hex;
  - the key string read back with `match(/.{1,2}/g)`, `Number.parseInt(_, 16)` and the `Uint8Array` conversion, each modelled as the language defines it: line terminators are skipped; `parseInt` skips leading white space, reads one sign and an optional `0x`, then the longest run of hex digits (so `"1g"` reads as 1 and `"-1"` as -1, stored as 255); a chunk with no hex digit there is NaN and is stored as 0; and a string with no match makes `match` return `null`, so the call to `.map` on it throws a `TypeError` (the `!` is a compile-time type assertion and checks nothing);
  - the `IV || ciphertext` container, built with `TypedArray.set` into a fresh array and split with `slice`;
  - `encryptAudio` and `decryptAudio`.
- `Middleware` (`middleware.dfy`) models the route guard in `app/middleware.ts`.
- `DiaryEntryList` (`diary_entry_list.dfy`) models `components/diary-entry-list.tsx`:
  - `formatDuration`;
  - the filter that splits entries into locked and unlocked by unlock date;
  - the immutable "mark as played" update;
  - the component state that `fetchEntries` and `handlePlayEntry` change.
- `AudioRecorder` (`audio_recorder.dfy`) models `components/audio-recorder.tsx`:
  - `formatTime`;
  - the recorder controls (start, stop, pause, resume) as a class, with the one-second timer as an explicit `Tick`;
  - the chunk filter;
  - the checks `handleSave` makes, in the order it makes them.
- `Text` (`text.dfy`) models the JavaScript string operations the core uses: `Number#toString(radix)` on naturals and `padStart` (the key encoder and both formatters), `startsWith` (the route guard) and `includes` (`fetchEntries`). It also defines `ParseClock`, which reads `m:ss` and `mm:ss` text back into numbers, with a first-occurrence search `IndexOf` as its helper. The formatters are proved against it.
- `Wrappers` (`wrappers.dfy`) defines `Option` and `Result`.

AES-GCM is a parameter, `AudioCipher.Aead`, a pair of functions `seal` and `open`:

- The cipher's properties are not axioms. The code relies on two: opening what was sealed returns the plaintext, and sealing adds the 16-byte default tag. These form the predicate `AudioCipher.Sound`.
- The round-trip theorems take `Sound` as a hypothesis.
- `AudioCipher.ZeroTagAeadIsSound` shows that some cipher satisfies `Sound`, so the hypothesis can be met.
- The random key and IV are inputs. The session lookup, the query result, the decryption outcome and the microphone grant are also inputs.

The decoder follows the code, which is more lenient than a strict design would be:

- Odd length and non-hex characters are not errors (`AudioCipher.OddLengthKeyStringDecodes`, `AudioCipher.ThreeDigitKeyStringDecodes`, `AudioCipher.NonHexChunkDecodesToZero`).
- A container shorter than 12 bytes is not an error: `slice` clamps its bounds.
- The only failures are the three the code can reach, `AudioCipher.DecryptError`:
  - the key string has no match;
  - `importKey` refuses a key length other than 16, 24 or 32 bytes;
  - the tag does not verify.

## Model

| member | source | states |
|---|---|---|
| AudioCipher.ByteToHex | lib/encryption.ts:18 | each key byte becomes exactly two lower-case hex digits whose base-16 value is the byte |
| AudioCipher.ByteToHexIsPaddedToString | lib/encryption.ts:18 | the two digits are exactly `b.toString(16).padStart(2, "0")` |
| AudioCipher.HexEncode | lib/encryption.ts:17-19 | the key string has twice as many characters as the key has bytes, all lower-case hex |
| AudioCipher.MatchPairs | lib/encryption.ts:61 | every match of `/.{1,2}/g` has one or two characters, and a string whose first character is not a line terminator has a match |
| AudioCipher.MatchPairsEmpty | lib/encryption.ts:61 | `match` finds nothing exactly when every character is a line terminator |
| AudioCipher.MatchPairsOfHexEncode | lib/encryption.ts:61 | the regular expression cuts a key string into the two-digit texts of the key's bytes, one per byte, in order |
| AudioCipher.ParseInt16OfByteHex | lib/encryption.ts:61 | `parseInt(_, 16)` reads a byte's two digits back as the byte, and the `Uint8Array` keeps it |
| AudioCipher.DecodeChunksPointwise | lib/encryption.ts:61 | the mapped array is each chunk decoded on its own, in order |
| AudioCipher.DecodeBytePairs | lib/encryption.ts:61 | decoding the per-byte digit pairs gives the key |
| AudioCipher.HexRoundTrip | lib/encryption.ts:17-61 | decoding the key string of any non-empty key reproduces the key byte for byte |
| AudioCipher.HexEncodeInjective | lib/encryption.ts:17-19 | different keys have different key strings |
| AudioCipher.ParseInt16 | lib/encryption.ts:61 | `Number.parseInt(s, 16)`, None standing for NaN: skip leading white space, one sign, an optional `0x`/`0X`, then the longest hex-digit prefix; its properties are stated by ParseInt16OfByteHex, NonHexChunkDecodesToZero, SingleDigitChunk and TwoDigitChunk |
| AudioCipher.ToUint8 | lib/encryption.ts:61 | the `Uint8Array` element conversion: NaN is stored as 0, any integer as a byte congruent to it modulo 256, and a value already in 0..255 unchanged |
| AudioCipher.DecodeChunks | lib/encryption.ts:61 | the `.map((byte) => Number.parseInt(byte, 16))` into the `Uint8Array`: one byte per match; DecodeChunksPointwise and DecodeChunksSnoc state that each byte is its own match decoded |
| AudioCipher.DecodeChunk | lib/encryption.ts:61 | one match through `parseInt(_, 16)` and into a byte, defined as ToUint8 of ParseInt16; stated by the chunk lemmas below |
| AudioCipher.DecodeKeyString | lib/encryption.ts:61 | the decoded key is None when `match` finds nothing, and otherwise has one byte per match, at least one; its value is stated by HexRoundTrip, OddLengthKeyStringDecodes and ThreeDigitKeyStringDecodes |
| AudioCipher.NonHexChunkDecodesToZero | lib/encryption.ts:61 | a chunk that starts with no hex digit, sign or white space is NaN, stored as 0 |
| AudioCipher.SingleDigitChunk | lib/encryption.ts:61 | a one-digit chunk is read as that digit's value |
| AudioCipher.TwoDigitChunk | lib/encryption.ts:61 | a two-digit chunk of either case is read high digit first and fits in a byte |
| AudioCipher.MatchPairsOfOddDigits | lib/encryption.ts:61 | on an odd-length string of hex digits, `match` gives the pairs of all digits but the last, half the length of them, followed by the last digit alone |
| AudioCipher.DecodeChunksSnoc | lib/encryption.ts:61 | the mapped array of the matches with one more at the end is the old array followed by that match decoded |
| AudioCipher.OddLengthKeyStringDecodes | lib/encryption.ts:61 | any key string of hex digits of odd length is not refused: it decodes to half its length plus one bytes, the digit pairs before the last digit followed by the last digit's value as a byte of its own |
| AudioCipher.ThreeDigitKeyStringDecodes | lib/encryption.ts:61 | a three-digit key string decodes to two bytes, the first two digits making the first, high digit first, and the last digit alone the second |
| AudioCipher.SetAt | lib/encryption.ts:39-40 | `set(source, offset)` writes `source` at `offset` and leaves every other element as it was |
| AudioCipher.AssembleContainer | lib/encryption.ts:38-40 | the new array holds the IV followed by the ciphertext, so its length is their sum |
| AudioCipher.Slice | lib/encryption.ts:57-58 | `TypedArray.prototype.slice` for non-negative bounds: in-range bounds give exactly that part, an end past the length is clamped to it, and an empty or out-of-range range gives nothing |
| AudioCipher.SplitContainer | lib/encryption.ts:57-58 | `slice(0, 12)` and `slice(12)` together are the whole container, and the first part takes 12 bytes or all of a shorter one |
| AudioCipher.SplitAssembled | lib/encryption.ts:57-58 | splitting an assembled container returns the 12-byte IV and the ciphertext unchanged |
| AudioCipher.DecryptAudio | lib/encryption.ts:51-87 | fails with KeyStringUnmatched exactly when `match` finds nothing; fails with KeyImportRejected exactly when the decoded key has a length `importKey` refuses; fails with AuthenticationFailed exactly when the key is importable and `open` gives nothing for the decoded key, the first 12 bytes and the rest; a success carries what `open` gives for them |
| AudioCipher.DecryptRoundTrip | lib/encryption.ts:51-87 | for a sound cipher, decrypting the container and the key string of an encryption returns the audio that was encrypted |
| AudioCipher.DecryptNeedsKeyText | lib/encryption.ts:61 | decryption fails before any cryptography exactly when the key string holds nothing but line terminators |
| AudioCipher.DecryptEmptyKeyString | lib/encryption.ts:61 | an empty key string makes decryption fail, because `match` returns null |
| AudioCipher.DecryptRejectsKeyLength | lib/encryption.ts:64-73 | a key string that decodes to a length AES does not accept is refused at import, whatever the container |
| AudioCipher.EncryptAudio | lib/encryption.ts:4-49 | the key string has 64 lower-case hex digits and decodes to the key; the blob is the IV followed by the sealed audio; with the 16-byte tag the blob has 12 + length + 16 bytes and decrypts to the audio |
| AudioCipher.RoundTripIfSound | lib/encryption.ts:51-87 | for a sound cipher, the container has length 12 + length + 16 and decrypts to the audio |
| AudioCipher.EncryptFourBytes | lib/encryption.ts:28-40 | the payload 01 02 03 04 gives a 32-byte container and a 64-character key string that decrypt to that payload |
| Text.NatToString | lib/encryption.ts:18 | `Number#toString(radix)` on a natural: at least one lower-case digit of the radix, and a single digit exactly when the number is below the radix; ReadNatToString reads the digits back as the number |
| Text.ReadNatToString | lib/encryption.ts:18 | reading the digits `toString(radix)` wrote gives back the number |
| Text.PadStart | lib/encryption.ts:18 | `padStart(width, fill)`: the result is the longer of the text and the width, ends with the text, and is only fill before it |
| Text.IncludesIffOccurs | components/diary-entry-list.tsx:63 | `includes` holds exactly when the text occurs in the string at some index |
| Middleware.IsAuthRoute | app/middleware.ts:14-17 | definition: the path starts with `/login` or `/signup`, or is `/`; Guard's contract and RootNeverRedirected are stated over it |
| Middleware.Guard | app/middleware.ts:14-31 | redirect to `/login` exactly without a session off the auth routes; redirect to `/dashboard` exactly with a session on `/login*` or `/signup*`; otherwise pass through |
| Middleware.RootNeverRedirected | app/middleware.ts:14-29 | `/` passes with or without a session |
| Middleware.RedirectsExclusive | app/middleware.ts:20-29 | a redirect goes to `/dashboard` with a session and to `/login` without one, never the other way round |
| Middleware.RedirectTargetPasses | app/middleware.ts:20-29 | following a redirect under the same session state is let through, so redirects never loop |
| DiaryEntryList.FormatDurationReadsBack | components/diary-entry-list.tsx:114-118 | the text is the unpadded minutes, a colon and exactly two second digits; reading it back gives minutes and seconds below 60 that add up to the duration |
| DiaryEntryList.FormatDuration | components/diary-entry-list.tsx:114-118 | definition: unpadded `s / 60`, a colon, `s % 60` padded to two digits; its properties are stated by FormatDurationReadsBack and FormatDurationInjective |
| DiaryEntryList.FormatDurationInjective | components/diary-entry-list.tsx:114-118 | different durations are written differently |
| DiaryEntryList.InView | components/diary-entry-list.tsx:53-57 | definition: unlocked means `unlock_date <= now`, locked means `unlock_date > now`; ExactlyOneView states that each entry is in exactly one |
| DiaryEntryList.Visible | components/diary-entry-list.tsx:51-57 | the query returns no more rows than the table has |
| DiaryEntryList.VisibleMembers | components/diary-entry-list.tsx:53-57 | a list shows exactly the table's rows whose unlock date is at or before now (unlocked) or after it (locked) |
| DiaryEntryList.ExactlyOneView | components/diary-entry-list.tsx:53-57 | every entry is in exactly one of the two lists |
| DiaryEntryList.ViewsPartition | components/diary-entry-list.tsx:53-57 | the two lists together hold each row exactly as often as the table does |
| DiaryEntryList.VisibleKeepsOrder | components/diary-entry-list.tsx:51 | filtering keeps the newest-first order the query asks for |
| DiaryEntryList.MarkPlayed | components/diary-entry-list.tsx:105 | same length and order; each entry with the id becomes played and every other field and entry is unchanged |
| DiaryEntryList.MarkPlayedIdempotent | components/diary-entry-list.tsx:105 | marking an entry twice is marking it once |
| DiaryEntryList.MarkPlayedAbsent | components/diary-entry-list.tsx:105 | an id not in the list leaves the list unchanged |
| DiaryEntryList.EntryList.constructor | components/diary-entry-list.tsx:33-37 | the initial state: no entries, loading, nothing selected, no URL, not decrypting |
| DiaryEntryList.EntryList.FetchEntries | components/diary-entry-list.tsx:45-77 | on success the entries are the filtered rows in database order; on a "does not exist" error they are empty; on any other error they are kept; loading ends in every case |
| DiaryEntryList.EntryList.HandlePlayEntry | components/diary-entry-list.tsx:79-87 | pressing the selected entry while its URL is set clears the selection and the URL; any other press selects the entry and starts decrypting |
| DiaryEntryList.EntryList.CompletePlay | components/diary-entry-list.tsx:89-111 | on success the URL is set and an entry not yet played is marked played in the list; decrypting ends in every case |
| DiaryEntryList.PlayThenPressAgain | components/diary-entry-list.tsx:79-84 | playing an entry and pressing it again once its audio is ready hides the player |
| AudioRecorder.FormatTimeReadsBack | components/audio-recorder.tsx:141-145 | at least two minute digits, a colon and exactly two second digits; reading back gives minutes and seconds below 60 with minutes * 60 + seconds equal to the elapsed time |
| AudioRecorder.FormatTime | components/audio-recorder.tsx:141-145 | definition: `s / 60` and `s % 60`, each padded to two digits, joined by a colon; its properties are stated by FormatTimeReadsBack and FormatTimeWidth |
| AudioRecorder.FormatTimeWidth | components/audio-recorder.tsx:141-145 | below 6000 seconds the clock is exactly five characters |
| AudioRecorder.NonEmptyChunks | components/audio-recorder.tsx:71-75 | exactly the events with data are kept, none of them empty |
| AudioRecorder.Flatten | components/audio-recorder.tsx:78 | definition: `new Blob(chunks)` holds the chunks' bytes one after another; FlattenNonEmptyChunks and Recorder.OnStop are stated over it |
| AudioRecorder.FlattenNonEmptyChunks | components/audio-recorder.tsx:71-78 | dropping empty chunks does not change the recorded bytes |
| AudioRecorder.ValidateSave | components/audio-recorder.tsx:147-173 | the first failing check in the order recording, title, unlock date, and ready only when all three pass |
| AudioRecorder.SaveButtonDisabled | components/audio-recorder.tsx:396 | definition: the Save button's `disabled` expression; SaveEnabledIffChecksPass relates it to the checks |
| AudioRecorder.SaveEnabledIffChecksPass | components/audio-recorder.tsx:396 | while no save is running, the Save button is enabled exactly when `handleSave` passes every check |
| AudioRecorder.Recorder.constructor | components/audio-recorder.tsx:35-48 | the initial state: idle, time 0, no timer, no chunks, no recording |
| AudioRecorder.Recorder.StartRecording | components/audio-recorder.tsx:65-95 | with the microphone granted: empty buffer, recording, not paused, time 0, and a new interval without clearing the old one; otherwise nothing changes |
| AudioRecorder.Recorder.StartRecordingClearingTimer | components/audio-recorder.tsx:65-95 | as StartRecording, but afterwards exactly one interval runs |
| AudioRecorder.Recorder.OnDataAvailable | components/audio-recorder.tsx:71-75 | a chunk with data is appended and an empty one is dropped |
| AudioRecorder.Recorder.OnStop | components/audio-recorder.tsx:77-85 | the recording becomes the kept chunks' bytes in order |
| AudioRecorder.Recorder.StopRecording | components/audio-recorder.tsx:106-116 | acts only while recording; recording ends and the timer is cleared, everything else kept |
| AudioRecorder.Recorder.PauseRecording | components/audio-recorder.tsx:118-128 | acts only while recording and not paused; paused, timer cleared |
| AudioRecorder.Recorder.ResumeRecording | components/audio-recorder.tsx:130-139 | acts only while recording and paused; unpaused, with a new interval |
| AudioRecorder.Recorder.Tick | components/audio-recorder.tsx:93-95 | one firing adds exactly 1 to the time; with no leaked interval that happens only while recording and not paused |
| AudioRecorder.Recorder.HandleSave | components/audio-recorder.tsx:147-175 | the result is the first failing check, and submitting starts only when every check passes |
| AudioRecorder.RecordAgainTwiceAsWritten | components/audio-recorder.tsx:312-321 | record, stop, then "Record Again" twice and stop: one interval is still running and the time advances while nothing is recorded |
| AudioRecorder.RecordAgainTwiceCorrected | components/audio-recorder.tsx:93-95 | the same presses with the old interval cleared first leave no interval running |

## Left out

- AES-GCM itself, `generateKey`, `exportKey` and `getRandomValues`. The cipher is the `Aead` parameter, with `Sound` as a hypothesis. The key and IV are inputs.
- Detecting tampering and wrong keys: authentication is probabilistic, so no lemma states that decryption with another key fails.
- The uniqueness of keys and IVs: it rests on the random generator.
- Encryption failures, that is, Web Crypto being unavailable or throwing.
- `Blob`, `ArrayBuffer`, `fetch`, `URL.createObjectURL` and `revokeObjectURL`, MediaRecorder and `getUserMedia`. These are browser I/O. The recorder's chunks are byte sequences, and the decrypted URL is a string input.
- Supabase: authentication, the session lookup, storage, inserts, the played-flag update and table setup. This is network code. Its results are inputs, and from `handleSave` only the checks before its first `await` are modelled.
- components/audio-player.tsx is not part of this model: it is floating-point media state.
- JSX and presentation, and date-fns formatting. Dates are integer timestamps on one clock.
- `setInterval` timing and React's batching of state updates. A timer firing is the explicit `Recorder.Tick`. The effect at components/audio-recorder.tsx:54-63 is not modelled. Its dependency list is `[audioUrl]`, so its cleanup runs on unmount and also each time `onstop` sets a new URL; it clears the interval in `timerRef` if one is set and revokes the old URL. This does not change the modelled state: `onstop` follows `stopRecording`, which has already cleared and nulled `timerRef`, so the cleanup finds nothing to clear. For the same reason it does not clear the interval lost in the Finding below, which no longer sits in `timerRef`.
- The middleware `matcher` configuration (app/middleware.ts:34-36). It is routing configuration.
- The database's ordering. The table is passed in already sorted, and only the claim that filtering keeps that order is proved.
- Characters outside the Basic Multilingual Plane. A Dafny `char` is a Unicode scalar value, so such a character is one `char` here, while JavaScript's `/.{1,2}/g` (no `u` flag) and `parseInt` work on UTF-16 code units, where it is two. A key string holding such a character therefore decodes to a different number of bytes than `DecodeKeyString` gives. The round trip is unaffected: `HexEncode` writes only ASCII hex digits, which are one code unit each.
- DiaryEntryList.EntryList.CompletePlay: maps over the entries current at completion, not over the stale `entries` captured when the press began (components/diary-entry-list.tsx:105). The two coincide when the list does not change during a decryption.
- Negative and fractional durations and recording times: both are natural numbers here.

## Findings

| source | as written | input that shows it | evidently intended | confidence | as-written member | corrected member |
|---|---|---|---|---|---|---|
| components/audio-recorder.tsx:93-95 | `startRecording` stores a new interval in `timerRef` without clearing the one it holds. "Record Again" (lines 312-321) is shown whenever a recording exists, including during a new recording, so the old interval is lost and never cleared | start, stop, onstop, Record Again, Record Again, stop: one interval still runs and the time keeps rising while nothing is recorded | clear any interval in `timerRef` before setting a new one, so exactly one runs while recording and none after stop | not executed | AudioRecorder.RecordAgainTwiceAsWritten | AudioRecorder.RecordAgainTwiceCorrected |
