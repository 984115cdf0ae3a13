# Chat client core, modelled in Dafny

This package models the logic of the browser chat client of a small
socket.io chat (`client/ws_client.js`), together with proofs about it:

- **Sender colour.** `generateHexColor` turns a sender's socket id into a
  `#rrggbb` colour. It runs a rolling hash over the UTF-16 code units and
  wraps the result to a signed 32-bit integer.
- **Cookies.** `getCookie` reads one cookie out of `document.cookie`.
- **Text-to-speech settings and voices.** The client loads its settings
  from the `ttsSettings` cookie. `populateVoiceList` builds the voice
  catalog: English voices only, stably sorted by upper-cased name. It then
  picks the voice to select (the saved name, then the preferred default,
  then the first voice of the preferred region, then index 0) and rebuilds
  the drop-down.
- **Speaking.** `speakText` decides whether and with which voice to speak.
- **Chat.** The submit handler trims the input and emits it. The
  `aMessage` handler renders a row with the short sender label and speaks
  the text.

Files:

- `js_values.dfy` (module `JsValues`): the JavaScript values and string
  built-ins the client relies on. These are `null` as `Option`, UTF-16
  code units, `trim`, `split`, `startsWith`, `includes`, ASCII
  `toUpperCase` and the relational string order.
- `hex_color.dfy` (module `HexColor`): ToInt32, the shift and mask
  operators, the hash loop and the colour rendering.
- `cookies.dfy` (module `Cookies`): `getCookie`, plus a model of the
  cookie header the browser builds and the round trip through it.
- `voices.dfy` (module `Voices`): the catalog filter, a stable insertion
  sort matching ES2019 `Array.prototype.sort`, `findIndex` and the
  selection rule.
- `tts_session.dfy` (module `TtsSession`): the page's speech state as a
  class. Its fields are the catalog, the remembered voice name, the
  drop-down (options, selected index, disabled flag), the hidden controls
  and the enable checkbox. Its methods are loading the settings,
  populating, the voices-changed handler, the speak rule and the test
  button.
- `messages.dfy` (module `ChatClient`): the sender label, the message
  row, the transcript that rows are appended to, and the message form
  whose `Submit` emits the trimmed text.

The drop-down's `disabled` flag is set for an empty catalog and, as in the
source, never cleared when voices appear later. The model keeps this
behaviour.

The source hard-codes `'en-GB'` and `'David'` for the default voice. Here
they are the `region` and `marker` constants of a `Session`. The engine's
voice list, whether speech synthesis exists, whether it is speaking, the
clock reading, the cookie string and `JSON.parse` are all parameters.

## Model

| member | source | states |
|---|---|---|
| JsValues.Utf16Char | client/ws_client.js:380-381 | `charCodeAt` sees one code unit for a BMP character and a surrogate pair, which encodes the character, outside it |
| JsValues.StartsWithIsSplit | client/ws_client.js:121 | `startsWith(p)` holds exactly when the string is p followed by the rest of it; the same test is `indexOf(nameEQ) == 0` on line 36 and `startsWith('en-GB')` on lines 147 and 152 |
| JsValues.IncludesIsOccurrence | client/ws_client.js:147 | `includes(m)` holds exactly when m occurs in the string at some position |
| JsValues.JsSpaceIsOneUnit | client/ws_client.js:307 | every character `trim` removes is one UTF-16 code unit, and among ASCII characters they are exactly tab, LF, VT, FF, CR and space |
| JsValues.Trim | client/ws_client.js:307 | the trimmed text is no longer than the input and neither begins nor ends with ECMAScript white space |
| JsValues.TrimIsInfix | client/ws_client.js:307 | the trimmed text is a contiguous piece of the input with only white space before and after it |
| JsValues.TrimEmptyIffAllSpace | client/ws_client.js:307-308 | the trimmed input is empty exactly when the input is all white space |
| JsValues.TrimIdempotent | client/ws_client.js:307 | trimming twice gives the same as trimming once |
| JsValues.Split | client/ws_client.js:32 | `split(';')` gives at least one piece, no piece holds the separator, and joining the pieces with it gives back the input |
| JsValues.SplitJoin | client/ws_client.js:32 | splitting the join of separator-free pieces gives back exactly those pieces |
| JsValues.Upper | client/ws_client.js:123-124 | `toUpperCase` keeps the length and maps each character by itself |
| JsValues.LexLessIsFirstDifference | client/ws_client.js:125-126 | `aName < bName` holds exactly when a is a proper prefix of b, or at the first position where they differ a's code unit is smaller, which is IsLessThan in section 7.2.13 of ECMA-262 |
| JsValues.LexLessIrreflexive | client/ws_client.js:125-126 | no name sorts before itself |
| JsValues.LexLessTransitive | client/ws_client.js:125-126 | the string order the comparator uses is transitive |
| JsValues.LexLessTotal | client/ws_client.js:125-127 | of two different strings one sorts before the other, so the comparator gives 0 only for equal keys |
| JsValues.NotLessTransitive | client/ws_client.js:125-127 | "not after" chains, which is what adjacent sortedness needs to imply sortedness in every pair |
| HexColor.ToInt32 | client/ws_client.js:382 | `hash & hash` is the signed 32-bit value congruent to the exact one modulo 2^32 |
| HexColor.ShiftLeft5 | client/ws_client.js:381 | `hash << 5` is a signed 32-bit value, 32 * hash wrapped to 32 bits |
| HexColor.ShiftRightIsFloor | client/ws_client.js:384-385 | `hash >> n` is floor division of the int32 by 2^n: the int32 lies in [r * 2^n, (r + 1) * 2^n) and the result is negative exactly when the int32 is |
| HexColor.LowByte | client/ws_client.js:384-386 | `& 0xff` yields a value in 0..255 |
| HexColor.HashStep | client/ws_client.js:381-382 | one loop step is `31 * hash + charCode` wrapped to signed 32 bits |
| HexColor.Hash | client/ws_client.js:378-383 | after the loop the hash is the polynomial sum of `units[i] * 31^(n-1-i)` wrapped to signed 32 bits, so a signed 32-bit integer after every prefix |
| HexColor.GenerateHexColor | client/ws_client.js:377-389 | the loop computes the hash of the id's code units; the result is `#` followed by exactly six lower-case hex digits and depends on the id alone |
| HexColor.HexDigit | client/ws_client.js:387 | a digit of `toString(16)` is a lower-case hex digit |
| HexColor.HexDigitRoundTrip | client/ws_client.js:387 | every lower-case hex digit is the digit of its own value |
| HexColor.ToString16 | client/ws_client.js:387 | `toString(16)` of a non-negative number is a numeral of lower-case hex digits whose value is the number, one digit below 16 and at most two below 256 |
| HexColor.PadStart | client/ws_client.js:387 | `padStart(n, ch)` is n long (or the string's length when longer), ends with the string, and everything before it is ch |
| HexColor.ToHex | client/ws_client.js:387 | `toHex` of a byte is exactly two lower-case hex digits whose value is the byte |
| HexColor.ByteDigits | client/ws_client.js:387 | a byte's `toHex` is two lower-case hex digits whose value is the byte, as a lemma for callers |
| HexColor.PaddedByte | client/ws_client.js:387 | a byte's `toString(16)` padded to two with `'0'` is its high digit followed by its low digit |
| HexColor.ColorOf | client/ws_client.js:384-388 | the rendered colour is always `#` plus six lower-case hex digits |
| HexColor.ParseColorOf | client/ws_client.js:384-388 | read back, the colour gives the three bytes it was rendered from, in the order r, g, b |
| HexColor.ColorSpellsLowBytes | client/ws_client.js:384-388 | read back, the colour gives bits 16-23, 8-15 and 0-7 of the hash as its red, green and blue bytes |
| HexColor.SignedBytesAreUnsignedBytes | client/ws_client.js:384-386 | the sign-propagating `>>` followed by `& 0xff` gives the same bytes as the unsigned 32-bit view |
| Cookies.StripSpaces | client/ws_client.js:35 | the stripped segment is no longer than the segment and does not begin with a space |
| Cookies.StripSpacesIsSuffix | client/ws_client.js:35 | the loop leaves the segment minus its leading spaces: a suffix of the segment, and everything removed was a space |
| Cookies.FirstMatchNone | client/ws_client.js:33-38 | the scan finds nothing exactly when no segment, once stripped, begins with `name=` |
| Cookies.FirstMatchIsFirst | client/ws_client.js:33-37 | the scan returns the text after `name=` in the first matching segment |
| Cookies.GetCookie | client/ws_client.js:30-39 | the loops compute the first-match value of the `;`-segments, or null |
| Cookies.LongerKeyNeverMatches | client/ws_client.js:36 | a segment for a longer key `nameX=` with X not `=` never matches `name`, whether it opens the header or follows `"; "` with its space |
| Cookies.PairMatches | client/ws_client.js:36 | `key=value` begins with `name=` exactly when the key is the name, and the value follows |
| Cookies.HeaderRoundTrip | client/ws_client.js:30-39 | reading a name from the header the browser builds out of a well-formed jar gives the value of the first cookie with that name, and null when there is none |
| Voices.EnglishVoices | client/ws_client.js:121 | the filter keeps exactly the voices whose lang starts with "en", each with its multiplicity |
| Voices.EnglishVoicesKeepsOrder | client/ws_client.js:120-121 | `filter` keeps the English voices in the order `getVoices` reported them: the result is the input at increasing positions |
| Voices.Insert | client/ws_client.js:122-128 | insertion adds x to the multiset, keeps a sorted list sorted, and puts x ahead of the voices with an equal key |
| Voices.SortByName | client/ws_client.js:122-128 | the sort is a permutation, sorted by upper-cased name, and keeps the input order among equal keys |
| Voices.Catalog | client/ws_client.js:120-128 | the catalog holds exactly the English voices, sorted by upper-cased name, with equal names in the order of the filtered list, which is the reported order by `EnglishVoicesKeepsOrder` |
| Voices.SortedPairwise | client/ws_client.js:122-128 | in the catalog no voice sorts before any voice ahead of it |
| Voices.StableSortUnique | client/ws_client.js:122-128 | a stable sort's output is unique: two sorted lists with the same voices per key, in the same order, are equal |
| Voices.FindIndex | client/ws_client.js:135 | `findIndex` gives the first index that satisfies the predicate, or -1 when none does |
| Voices.ChooseVoice | client/ws_client.js:131-160 | the chosen index is inside a non-empty catalog; the saved name is kept or cleared |
| Voices.ChooseVoiceOrder | client/ws_client.js:133-159 | a saved name the catalog has wins at its first occurrence; one it lacks is cleared; otherwise the first preferred voice wins, then the first voice of the region, then index 0 |
| Voices.ReselectionIsStable | client/ws_client.js:134-142 | selecting again with the name just selected, as the voices-changed handler does after saving it, picks a voice of that name and keeps the name |
| Voices.SameNameCatalog | client/ws_client.js:120-128 | two English voices of one name in different regions keep their reported order in the catalog |
| Voices.SameNameChoice | client/ws_client.js:144-157 | between those two, with region `en-GB` and no saved or preferred voice, the selection picks the second |
| TtsSession.OptionFor | client/ws_client.js:165-171 | an option carries the voice's name and lang as data attributes |
| TtsSession.OptionsFor | client/ws_client.js:165-172 | one option per catalog voice, in catalog order |
| TtsSession.Placeholder | client/ws_client.js:184-186 | the placeholder option has no data-name |
| TtsSession.Session.constructor | client/ws_client.js:97-98 | the page starts with no voices and no saved name, as lines 97-98 set them; the drop-down, the checkbox and the controls start as the page's markup is assumed to leave them |
| TtsSession.Session.SavedVoiceName | client/ws_client.js:61-91 | a saved voice name is only returned when the cookie is present and not empty |
| TtsSession.Session.LoadSettings | client/ws_client.js:61-91 | a missing or empty cookie gives null; a cookie that does not parse is cleared and gives null; otherwise the checkbox takes the stored flag and the stored name is returned |
| TtsSession.Session.LoadVoiceName | client/ws_client.js:101 | `loadedVoiceName = loadTTSSettings()` remembers the saved name, sets the checkbox as loaded, and asks to clear the cookie exactly when it is present and does not parse |
| TtsSession.Session.SelectedVoiceName | client/ws_client.js:53 | the saved name is the selected option's non-empty data-name, or null |
| TtsSession.Session.SettingsToSave | client/ws_client.js:50-56 | the settings written hold the checkbox state and the selected voice name |
| TtsSession.Session.AppendOption | client/ws_client.js:171 | appending adds the option at the end, and a drop-down with nothing selected selects its first option |
| TtsSession.Session.PickVoice | client/ws_client.js:131-160 | the step-by-step `voiceToSelect` computation is the selection rule, including clearing a saved name that is not found |
| TtsSession.Session.FillDropDown | client/ws_client.js:163-187 | a non-empty catalog gets one option per voice and a selected index kept in range; an empty one gets exactly the placeholder, selected, and a disabled drop-down |
| TtsSession.Session.Rebuild | client/ws_client.js:119-187 | after the catalog, selection and drop-down steps the page shows the catalog with the chosen voice selected |
| TtsSession.Session.Populate | client/ws_client.js:103-190 | without speech synthesis only the controls are hidden; with it the page shows the catalog with the chosen voice selected |
| TtsSession.Session.ShownSelection | client/ws_client.js:174-178 | for a non-empty catalog the selected index is in range and is the chosen index, and the name saved from it is that voice's name |
| TtsSession.Session.Start | client/ws_client.js:101-193 | at page load the checkbox takes the stored flag (or keeps its state), a malformed cookie is cleared, and then, with speech synthesis, the controls are untouched and the page shows the catalog chosen for the saved name; without it the controls are hidden and the catalog and drop-down are as before |
| TtsSession.Session.OnVoicesChanged | client/ws_client.js:196-205 | the handler re-reads the settings, with the same new checkbox, cleared cookie and page state as at page load, then saves the checkbox and the name of the voice it just selected, or null for an empty catalog |
| TtsSession.Session.SelectedVoice | client/ws_client.js:241-252 | as written: the voice looked up is the first catalog voice with the selected option's data-name, or none, meaning the engine's default |
| TtsSession.Session.ShownVoice | client/ws_client.js:241-252 | corrected: the voice looked up has the selected option's data-name and data-lang, or none matches both and the engine's default is used |
| TtsSession.Session.ShownVoiceIsSelected | client/ws_client.js:165-178 | when the drop-down lists the catalog, the corrected lookup gives the selected voice (the default for an empty name) |
| TtsSession.Session.UniqueNamesSameVoice | client/ws_client.js:246 | when no two catalog voices share a name, line 246's lookup by name alone and the corrected lookup give the same voice |
| TtsSession.DuplicateNameSpeaksAnotherVoice | client/ws_client.js:246 | with voices X (en-US) and X (en-GB) and region en-GB, the second is selected, but the lookup by name alone gives the first, while the corrected lookup gives the second |
| TtsSession.Session.SpeakFor | client/ws_client.js:214-265 | corrected: speaking is a no-op exactly when it is not a test and the box is unchecked, or there is no engine, or the text is empty; otherwise the text is spoken, cancelling speech in flight, with the voice the selected option stands for (`ShownVoice`, not line 246's lookup by name alone) |
| TtsSession.Session.OnTestButton | client/ws_client.js:294-297 | the test sentence is spoken whenever there is an engine, whatever the checkbox says, cancelling speech in flight first (lines 226-229) |
| ChatClient.OrElse | client/ws_client.js:339 | the logical-or default gives s when it is present and non-empty, and d otherwise |
| ChatClient.SenderLabel | client/ws_client.js:336 | the label is the last five characters of the id, or all of a shorter id, and "Unknown" when the id is missing or empty |
| ChatClient.SameTailSameLabel | client/ws_client.js:336 | ids that end in the same five characters get the same label, namely those characters |
| ChatClient.RenderRow | client/ws_client.js:322-340 | the row holds the timestamp, the sender label, the colour of the id (or of "default"), which is a valid hex colour, and the text or "" |
| ChatClient.Transcript.OnMessage | client/ws_client.js:318-349 | exactly one row is appended, holding the timestamp, sender label, colour of the id (or of "default") and the text (or ""), and the earlier rows are kept; a missing or empty text is not spoken, and any other text goes to the speak rule as a non-test |
| ChatClient.SpokenOnlyWithText | client/ws_client.js:343-346 | an incoming message is spoken exactly when its text is non-empty, the checkbox is checked and an engine exists |
| ChatClient.MessageForm.Submit | client/ws_client.js:303-313 | the trimmed input is emitted exactly when it is non-empty, and only then is the input cleared; everything emitted stays non-empty and trimmed |
| ChatClient.BlankIsNotSent | client/ws_client.js:307-308 | input that is all white space emits nothing |

## Left out

- server/index.js is not part of this model. It only sets up socket.io and rebroadcasts messages.
- The socket transport is not modelled. An emitted message is an entry in `MessageForm.outbox`, and a received message is the `ChatMessage` passed to `OnMessage`.
- The DOM is abstract. The drop-down is a list of options with a selected index and a disabled flag. Element creation, `className`, the highlight timer and scrolling are not modelled.
- The branches for a missing DOM element are left out: the form, input, container, select, checkbox and controls container are all taken to exist.
- Absent speech synthesis is modelled only as far as `populateVoiceList` and `speakText` test for it: the `synthAvailable` parameter. The throw that follows is not modelled. Line 194 reads the bare global `speechSynthesis`, which raises a ReferenceError when the API is missing, so the script stops there and the listeners of lines 272-358 (controls, test button, submit, `aMessage`) are never installed. With `synthAvailable` false, `MessageForm.Submit`, `Transcript.OnMessage`, `Session.OnTestButton` and `Session.OnVoicesChanged` (installed on line 196, after the throw) describe handlers such a page would not have.
- The Web Speech API is not called. `getVoices` is the `reported` parameter, `speaking` is a parameter, and `speak`/`cancel` become the returned `SpeakAction`.
- `JSON.parse` is a parameter function with a `Malformed` result for a throw, and `JSON.stringify` is not modelled. `setCookie`, with its expiry date, is not modelled: `LoadSettings` returns `clearCookie`, and `OnVoicesChanged` returns the settings it would write.
- The settings' rate and pitch are floating-point (`parseFloat` and the `|| 1` defaults), so they are not modelled.
- `getTimestamp` reads the clock. The timestamp is a parameter of `RenderRow` and `OnMessage`.
- The change and input listeners that only call `saveTTSSettings` are not modelled separately. What they write is `Session.SettingsToSave`.
- The page's markup is not part of the model. The session starts with the box unchecked, the controls shown and an empty drop-down with nothing selected.
- JsValues.Utf16: a Dafny `string` cannot hold a lone surrogate, which a JavaScript string can. The code units are modelled for well-formed text only.
- JsValues.Upper: `toUpperCase` is modelled on the ASCII letters only. Other characters are kept as they are, where full Unicode case mapping would change some of them.
- ChatClient.SenderLabel: `slice(-5)` is taken on characters rather than on UTF-16 code units. The two differ only for ids with characters outside the Basic Multilingual Plane, which socket ids do not have.
- Voices.ChooseVoice: its own contract states only that the index is in range and that the saved name is kept or cleared. The priority order is proved separately, in `Voices.ChooseVoiceOrder`.
- TtsSession.Session.SpeakFor: speaks with the corrected lookup `ShownVoice`, not line 246's `voices.find` by name alone, which is `SelectedVoice`. `OnTestButton` and `Transcript.OnMessage` inherit this. The two differ only when catalog voices share a name (`UniqueNamesSameVoice`); the Findings row below gives the input where they differ.

## Findings

| source | as written | input that shows it | evidently intended | confidence | as-written member | corrected member |
|---|---|---|---|---|---|---|
| client/ws_client.js:246 | `speakText` looks the voice up by `data-name` alone, so it takes the first catalog voice of that name | catalog X (en-US), X (en-GB), region en-GB, no saved or preferred voice: option 1 is selected, but voice 0 is spoken with | speak with the voice of the selected option, which has the option's `data-lang` too | medium, not executed | TtsSession.DuplicateNameSpeaksAnotherVoice | TtsSession.Session.ShownVoiceIsSelected |
