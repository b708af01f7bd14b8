# SpookyGPT session gating, LED bridge and LED firmware

SpookyGPT is a Halloween chat site. Three pieces of its logic are
modelled here:

- **The chat page** (`public/app.js`). The page keeps a small context cache per
  character, with the last five prompts and the last five replies. It counts
  the session's messages in `sessionStorage` and starts a 15-second cooldown on
  every fifth message. `sendMessage` returns early on an empty text, an active
  cooldown or no selected character. Changing character is refused while a
  reply is awaited, speech plays or a cooldown runs. Before speaking, a text is
  cleaned of emoji, emphasis and asides. A speech cache of at most 50 keys
  keeps the same text from being spoken twice. A fallback voice is chosen by
  the character's preference words.
- **The iOS LED bridge** (`HalloweenLEDApp.swift`). `APIManager` logs in and
  polls the server's query total. When the total exceeds the last one it
  processed, it asks `BLEManager` to send `LED_COLOR:<r>,<g>,<b>:3000` to the
  ESP32. `BLEManager` tracks the scan, the connection and the discovered
  characteristic. It writes commands only once that characteristic is known.
- **The ESP32 firmware** (`src/main.cpp`). `onWrite` acts on `LED_ON:<ms>`,
  `LED_OFF` and `PING` and on nothing else. `<ms>` is read by Arduino's
  `toInt`, and 0 becomes the default of 3000. `loop` restarts advertising once
  after a disconnect.

## How the model is built

- State that the source updates in place becomes classes:
  - `ChatPage.Page` holds the page's module-level variables.
  - `LedApp.BleManager` and `LedApp.ApiManager` are the two Swift managers.
  - `Firmware.Controller` holds the firmware's globals and the LED pin.
- Each method's `modifies` clause names the fields it may change, so every
  other field keeps its value. Its postcondition says how the changed fields
  end up, in terms of the inputs and the old state.
- Pure code becomes functions with lemmas about them: the text cleaning, the
  voice choice, the command strings and the firmware's command classification.
- Inputs from outside become parameters of the method that handles them:
  - the clock (`now`, in milliseconds);
  - the outcome of each `fetch` or `URLSession` request;
  - the CoreBluetooth callbacks.
- `Controller.effects` records what the firmware does to the world, in order:
  pin writes, `delay`s, notifications and advertising restarts.

Some behaviours are stated as proved facts about the model rather than as bugs:

- **The app's flashes never light the LED.** The only colour commands the app
  sends start with `LED_COLOR:`, a prefix the firmware does not know
  (`CommandCompat.QueryFlashIgnored`, `CommandCompat.ColorPickerIgnored`).
  `LED_OFF` is the only app command the firmware acts on.
- **A restored cooldown is re-timed.** `loadCharacters` copies a future
  cooldown end out of storage, but `startCooldown` overwrites it with
  `now + 15000` (`ChatPage.Page.LoadCharacters`).
- **The poller's counter starts at 0** and neither `logout` nor
  `startPolling` resets it. The first successful poll with any positive total
  therefore counts as new (`LedApp.FirstPollFiresOnAnyQuery`).
- **A total that arrives while BLE is disconnected is never flashed later**
  (`LedApp.SeenTotalNeverFlashedAgain`).
- **`LED_ON:-1` keeps the LED lit for 2^32 - 1 ms.** A negative duration
  passes the zero check and reaches `delay` as a `uint32_t`
  (`Firmware.NegativeDurationWraps`).

## Model

| member | source | states |
|---|---|---|
| Decimal.NatToString | public/app.js:429 | `String(n)` of a count is never empty |
| Decimal.NatToStringDigits | public/app.js:429 | `String(n)` is all decimal digits, with a leading zero only for 0 |
| Decimal.DigitsOfNatToString | public/app.js:429 | the digits of `String(n)` denote `n` |
| Decimal.ParseNatToString | public/app.js:428-429 | `Number(String(n))` is `n`: a stored count reads back as written |
| Decimal.NatToStringInjective | public/app.js:429 | different counts are stored as different strings |
| Decimal.NaNRoundTrip | public/app.js:428-429 | a stored `"NaN"` reads back as NaN, so a NaN counter stays NaN |
| SpeechText.RemoveEmoji | public/app.js:601 | the result holds none of the listed emoji, only characters of the input, and is never longer |
| SpeechText.RemoveEmojiAbsent | public/app.js:601 | text without listed emoji is left unchanged |
| SpeechText.RemoveEmojiAppend | public/app.js:601 | emoji are removed character by character: the result for `a + b` is the result for `a` followed by the result for `b` |
| SpeechText.StripEmphasis | public/app.js:602 | the result is never longer and holds only characters of the input |
| SpeechText.StripEmphasisKeepsText | public/app.js:602 | removing `*...*` emphasis deletes asterisks and nothing else, keeping the order of the rest |
| SpeechText.StripEmphasisAbsent | public/app.js:602 | text without `*` is left unchanged |
| SpeechText.StripEmphasisPlainPrefix | public/app.js:602 | text before the first `*` is kept as it is, followed by the result for the rest |
| SpeechText.EmphasisPairStripped | public/app.js:602 | `*word*` (a non-empty word without `*`) becomes `word`, and the text after it is handled on its own |
| SpeechText.LoneAsteriskKept | public/app.js:602 | a `*` with no `*` after it is kept |
| SpeechText.RemoveAsides | public/app.js:603 | no `(` is followed anywhere later by `)`; only characters of the input remain |
| SpeechText.RemoveAsidesAbsent | public/app.js:603 | text without `(` is left unchanged |
| SpeechText.RemoveAsidesPlainPrefix | public/app.js:603 | text before the first `(` is kept as it is, followed by the result for the rest |
| SpeechText.AsideRemoved | public/app.js:603 | an aside `(...)` without `)` inside is removed whole, and the text after it is handled on its own |
| SpeechText.UnclosedParenKept | public/app.js:603 | a `(` with no `)` after it is kept |
| SpeechText.CollapseSpace | public/app.js:604 | the result is empty exactly when the input is; a leading white-space run becomes one space |
| SpeechText.CollapseKeepsChars | public/app.js:604 | collapsing adds no character except a plain space |
| SpeechText.CollapseLeavesPlainSpaces | public/app.js:604 | every white-space character left is a plain space |
| SpeechText.CollapseLeavesSingleSpaces | public/app.js:604 | no two spaces are adjacent after collapsing |
| SpeechText.CollapseSpaceKeepsText | public/app.js:604 | the non-space characters are kept, in order |
| SpeechText.CollapseKeepsNoClosedAside | public/app.js:603-604 | collapsing white space cannot create a `(`...`)` pair |
| SpeechText.CollapseNormalized | public/app.js:604 | text already single-spaced is left unchanged |
| SpeechText.LeadingSpaces | public/app.js:605 | `trim` removes exactly the leading run of white space: all counted characters are white space and the next one is not |
| SpeechText.TrailingSpaces | public/app.js:605 | `trim` removes exactly the trailing run of white space: all counted characters are white space and the one before them is not |
| SpeechText.NonSpaceDropSpaces | public/app.js:605 | trimming the front removes white space only |
| SpeechText.TrimNormalizes | public/app.js:604-605 | trimming single-spaced text leaves no white space at either end and no double space |
| SpeechText.TrimKeepsChars | public/app.js:605 | trimming only removes characters |
| SpeechText.CollapseThenTrimNormalizes | public/app.js:604-605 | the last two steps always yield normalized text |
| SpeechText.CleanTextHasNoEmoji | public/app.js:598-606 | the cleaned text holds none of the listed emoji |
| SpeechText.CleanTextIsNormalized | public/app.js:598-606 | the cleaned text has no leading, trailing or double spaces and no other white space |
| SpeechText.CleanTextHasNoAside | public/app.js:598-606 | the cleaned text holds no parenthetical aside |
| SpeechText.CleanTextKeepsPlainText | public/app.js:598-606 | normalized text without emoji, `*` or `(` is spoken exactly as written |
| Voices.Lower | public/app.js:1029 | each character is lower-cased in place: `A`..`Z` move to `a`..`z`, no upper-case letter remains, and text without one is unchanged |
| Voices.Preferences | public/app.js:1017-1025 | the preference words of the vampire, witch, werewolf and zombie, and the default list for any other id |
| Voices.QualityVoices | public/app.js:1028-1032 | exactly the voices whose name is not robotic, synthetic or artificial |
| Voices.QualityVoicesAppend | public/app.js:1028-1032 | `filter` keeps the list order: the quality voices of `a + b` are those of `a`, then those of `b` |
| Voices.VoicesToUse | public/app.js:1035 | the quality voices when there is one, otherwise all voices; empty exactly when no voice is given |
| Voices.FindMatch | public/app.js:1039-1042 | a voice matching the word, or none exactly when no voice matches |
| Voices.FindMatchIsFirst | public/app.js:1039-1042 | `find` returns the first matching voice in list order |
| Voices.NaturalVoices | public/app.js:1047-1056 | exactly the quality, non-system voices whose name sounds natural |
| Voices.NaturalVoicesAppend | public/app.js:1047-1056 | `filter` keeps the list order: the natural voices of `a + b` are those of `a`, then those of `b` |
| Voices.NoNaturalVoice | public/app.js:1047-1056 | with no natural-sounding voice the natural list is empty |
| Voices.GetBestFallbackVoice | public/app.js:1010-1065 | the loop returns the specified fallback voice |
| Voices.FallbackIsAvailableVoice | public/app.js:1010-1065 | the result is null exactly when there are no voices, and otherwise one of them |
| Voices.FirstPreferenceWins | public/app.js:1038-1044 | when some usable voice matches the first preference word, the first such voice is chosen |
| Voices.NoPreferredMatch | public/app.js:1038-1044 | with no voice matching any word, the preference loop finds nothing |
| Voices.FirstVoiceAsLastResort | public/app.js:1058-1064 | with no preferred and no natural voice, the first voice is returned |
| ChatPage.PushedKeepsNewest | public/app.js:167-183 | a push keeps a list within 5, ends it with the new item, and drops exactly the oldest item on overflow |
| ChatPage.PushedAllKeepsLastFive | public/app.js:167-174 | after any run of pushes a list holds the last five items pushed, oldest first |
| ChatPage.CounterReadsBack | public/app.js:428-429 | the stored counter goes up by exactly one per accepted message and reads back as written |
| ChatPage.CounterAfterMessages | public/app.js:428-433 | from a fresh session, the k-th message leaves the counter at k and starts a cooldown exactly when 5 divides k |
| ChatPage.CeilSecondsBounds | public/app.js:213-218 | the shown seconds are at most 0 exactly when the end is reached, and otherwise round the remaining time up |
| ChatPage.SpeechCacheBehaviour | public/app.js:866-873 | the speech cache never exceeds 50 keys; a repeated key changes nothing; the insert that makes 51 keys empties it |
| ChatPage.SpokenTextIsSkipped | public/app.js:866-870 | a text just spoken for a character is not spoken again while its key is cached |
| ChatPage.Page.constructor | public/app.js:21-32 | the page starts with no cooldown, nothing awaited or spoken, speech on, audio not yet allowed, empty caches |
| ChatPage.Page.InitializeCharacterCache | public/app.js:157-165 | a new id gets empty lists; an existing entry is never reset |
| ChatPage.Page.AddToMessageCache | public/app.js:167-174 | only this character's prompt list changes, by one push within the bound |
| ChatPage.Page.AddToResponseCache | public/app.js:176-183 | only this character's reply list changes, by one push within the bound |
| ChatPage.Page.GetCachedMessages | public/app.js:185-188 | returns the stored prompts (empty for an id never seen), at most five |
| ChatPage.Page.GetCachedResponses | public/app.js:190-193 | returns the stored replies (empty for an id never seen), at most five |
| ChatPage.Page.StartCooldown | public/app.js:196-220 | the cooldown is on, ends at `now + 15000`, that end is stored, and the tick is installed |
| ChatPage.Page.EndCooldown | public/app.js:222-242 | the cooldown is off, the stored end is removed, and the tick is cleared |
| ChatPage.Page.CooldownTick | public/app.js:212-219 | at or past the end the cooldown ends; before it, the positive seconds shown round the remaining time up |
| ChatPage.Page.LoadCharacters | public/app.js:317-348 | a stored end in the future starts a cooldown re-timed to `now + 15000`; a loaded list clears the selection |
| ChatPage.Page.EnableAudio | public/app.js:527-545 | audio is marked as allowed; the page invariant is kept |
| ChatPage.Page.SpeechEnded | public/app.js:96-97 | controls are released: nothing is speaking; the page invariant is kept |
| ChatPage.Page.ToggleSpeech | public/app.js:134-152 | refused during a cooldown; otherwise speech flips, and switching it off stops speaking; the page invariant is kept |
| ChatPage.Page.SpeakText | public/app.js:840-893 | speaks exactly when audio and synthesis are available and the key is new, with the speech cache updated as specified |
| ChatPage.Page.RememberUtterance | public/app.js:872-873 | the key is added and the cache cleared once it exceeds 50 keys |
| ChatPage.Page.RecordPrompt | public/app.js:418-433 | the prompt is cached, input waits, the counter is stored incremented, and a cooldown starts exactly on a multiple of 5 |
| ChatPage.Page.FinishRequest | public/app.js:449-509 | the reply or error text is spoken when speech is on, and speaking starts exactly when it is uttered; a reply is cached only after a complete stream; input is re-enabled |
| ChatPage.Page.SendMessage | public/app.js:405-509 | a request is made exactly for a non-empty text with no cooldown and a selected character; otherwise nothing changes; an accepted message leaves the request, caches, counter, cooldown and speech state as specified |
| ChatPage.Page.AcceptMessage | public/app.js:418-509 | the request carries the prompt and the updated context; cooldown, counter, caches, speech cache and speaking flag end as specified on every outcome |
| ChatPage.Page.ChangeCharacter | public/app.js:1492-1521 | refused exactly while waiting, speaking or cooling down; otherwise the selection changes, speech stops, and speaking restarts exactly when the greeting is uttered through the speech cache |
| LedApp.ReadQueryFlash | HalloweenLEDApp.swift:326 | the flash command reads back as exactly its colour and 3000 ms |
| LedApp.ReadColorPicker | HalloweenLEDApp.swift:732 | the picker command reads back as exactly its colour and no duration |
| LedApp.CommandsAreDistinct | HalloweenLEDApp.swift:501 | different colours give different commands, and a flash is never a picker command |
| LedApp.WatermarkIsMaximum | HalloweenLEDApp.swift:308-309 | the processed total is the largest of its start and every decoded total, and never falls below its start |
| LedApp.WatermarkMonotone | HalloweenLEDApp.swift:308-309 | the processed total never decreases over a run of polls |
| LedApp.SeenTotalNeverFlashedAgain | HalloweenLEDApp.swift:308-314 | a later total no larger than one already seen never counts as new, even if the earlier one was not flashed |
| LedApp.FirstPollFiresOnAnyQuery | HalloweenLEDApp.swift:191 | from the initial 0, the first decoded total counts as new exactly when it is positive |
| LedApp.LastMatchingIsMatch | HalloweenLEDApp.swift:169-178 | the kept characteristic has the LED UUID and is from the list, or is the previous one when none matches |
| LedApp.BleManager.constructor | HalloweenLEDApp.swift:54-67 | not connected, not scanning, "Ready to connect", nothing written |
| LedApp.BleManager.SendCommand | HalloweenLEDApp.swift:99-107 | without a characteristic nothing is written and the status says "Not connected to ESP32"; otherwise the command is written |
| LedApp.BleManager.DidUpdateState | HalloweenLEDApp.swift:113-130 | the status text for each state; power-off drops the connection |
| LedApp.BleManager.StartScanning | HalloweenLEDApp.swift:69-77 | refused unless powered on; otherwise scanning for SpookyGPT-LEDS |
| LedApp.BleManager.StopScanning | HalloweenLEDApp.swift:88-91 | scanning stops |
| LedApp.BleManager.ScanTimedOut | HalloweenLEDApp.swift:80-85 | a scan still running after ten seconds stops and reports the device missing; otherwise nothing changes |
| LedApp.BleManager.Disconnect | HalloweenLEDApp.swift:93-97 | a cancellation is requested for the connected peripheral, and none without one; the connection state is left to the disconnect callback |
| LedApp.BleManager.DidDiscover | HalloweenLEDApp.swift:133-141 | only a peripheral named SpookyGPT-LEDS stops the scan and is connected to |
| LedApp.BleManager.DidConnect | HalloweenLEDApp.swift:143-147 | connected, with its status text |
| LedApp.BleManager.DidDisconnect | HalloweenLEDApp.swift:149-154 | connection, peripheral and characteristic are all cleared |
| LedApp.BleManager.DidDiscoverCharacteristics | HalloweenLEDApp.swift:169-178 | keeps the last characteristic with the LED UUID and reports ready exactly when one was found |
| LedApp.ApiManager.constructor | HalloweenLEDApp.swift:182-197 | not authenticated or polling, no status or error, processed total 0 |
| LedApp.ApiManager.SetBleManager | HalloweenLEDApp.swift:199-201 | the BLE manager is attached |
| LedApp.ApiManager.SetSelectedColor | HalloweenLEDApp.swift:492-494 | the picked colour becomes the flash colour |
| LedApp.ApiManager.Login | HalloweenLEDApp.swift:203-242 | the token is stored and the manager authenticated exactly for a decoded reply with `success`; every other reply leaves both alone and reports an error |
| LedApp.ApiManager.StopPolling | HalloweenLEDApp.swift:269-273 | the timer is gone and polling is off |
| LedApp.ApiManager.Logout | HalloweenLEDApp.swift:244-248 | the token is forgotten, the manager is unauthenticated and polling stops |
| LedApp.ApiManager.FetchLedStatus | HalloweenLEDApp.swift:275-320 | a failure sets an error and changes no status; a decoded total is shown, raises the processed total to the maximum, and flashes exactly when it is new and BLE is connected; a flash writes the colour command and sets the "Sent: " status; the BLE connection state is untouched |
| LedApp.ApiManager.SendQueryLedCommand | HalloweenLEDApp.swift:323-327 | the selected colour's flash command is sent, with the status it leaves |
| LedApp.ApiManager.StartPolling | HalloweenLEDApp.swift:250-266 | unauthenticated, only an error is set; otherwise polling runs with its timer and the first fetch has every effect of `fetchLEDStatus`; the processed total never decreases |
| LedApp.ApiManager.TimerFired | HalloweenLEDApp.swift:263-265 | each tick has every effect of one `fetchLEDStatus` |
| Firmware.CString | src/main.cpp:34-39 | the command is the written bytes up to the first NUL |
| Firmware.CSpaceCount | src/main.cpp:43 | `toInt` skips exactly the leading C white space |
| Firmware.LeadingDigits | src/main.cpp:43 | `toInt` reads exactly the leading run of digits |
| Firmware.ToInt | src/main.cpp:43 | `toInt` is always within 32-bit `long` range |
| Firmware.OnDuration | src/main.cpp:43-44 | the parsed duration, except that a parsed 0 becomes the default of 3000 |
| Firmware.Classify | src/main.cpp:36-66 | `LED_ON:` prefix, exactly `LED_OFF` and exactly `PING` are recognised, each exactly when present, and nothing else |
| Firmware.EveryHandlerEndsHigh | src/main.cpp:49-65 | commands that drive the pin leave it HIGH; `PING` and ignored writes never touch it |
| Firmware.ToIntReadsDecimal | src/main.cpp:43 | a decimal number within range is read back exactly |
| Firmware.ToIntStopsAtNonDigit | src/main.cpp:43 | `toInt` stops at the first non-digit |
| Firmware.LedOnWithDuration | src/main.cpp:41-44 | `LED_ON:<n>` lights the LED for `n` ms |
| Firmware.ClassifyOnPrefix | src/main.cpp:41-44 | any NUL-free text after `LED_ON:` gives an `LED_ON` with its parsed duration |
| Firmware.LedOnDefaults | src/main.cpp:44 | `LED_ON:` and `LED_ON:0` both light the LED for 3000 ms |
| Firmware.NegativeDurationWraps | src/main.cpp:43-51 | `LED_ON:-1` passes the zero check and waits 2^32 - 1 ms |
| Firmware.NulEndsCommand | src/main.cpp:34-39 | bytes after a NUL do not change the command |
| Firmware.EmptyCommandIgnored | src/main.cpp:36 | an empty write, or one starting with NUL, does nothing |
| Firmware.OtherTextIgnored | src/main.cpp:41-66 | any other NUL-free text does nothing |
| Firmware.PartyIgnored | src/main.cpp:41-66 | `LED_PARTY` does nothing |
| Firmware.OnWithoutColonIgnored | src/main.cpp:41 | `LED_ON` without its colon does nothing |
| Firmware.SetupBlinksShape | src/main.cpp:121-126 | setup blinks the LED three times and leaves it off |
| Firmware.Controller.constructor | src/main.cpp:13-14 | neither connection flag is set |
| Firmware.Controller.Setup | src/main.cpp:71-127 | the pin starts HIGH, the value is the ready text, advertising starts, then three 200 ms blinks end HIGH |
| Firmware.Controller.OnConnect | src/main.cpp:21-24 | only `deviceConnected` changes, to true |
| Firmware.Controller.OnDisconnect | src/main.cpp:26-29 | only `deviceConnected` changes, to false |
| Firmware.Controller.OnWrite | src/main.cpp:33-68 | the pin is HIGH after every handler; the effects are the command's; the written bytes become the characteristic's value, which `PING` then replaces with `PONG` |
| Firmware.Controller.Loop | src/main.cpp:129-144 | afterwards the two flags agree; advertising restarts exactly once, after a disconnect |
| CommandCompat.ColorPrefixIgnored | src/main.cpp:41-66 | no text starting with `LED_COLOR:` is a firmware command |
| CommandCompat.QueryFlashIgnored | HalloweenLEDApp.swift:326 | the app's query flash does nothing on the firmware |
| CommandCompat.ColorPickerIgnored | HalloweenLEDApp.swift:732 | the colour picker's command does nothing on the firmware |
| CommandCompat.OffCommandUnderstood | HalloweenLEDApp.swift:741 | the app's `LED_OFF` drives the pin HIGH and does nothing else |

## Left out

- `server.js` is not part of this model: it passes the prompt to a language-model service and is network plumbing.
- DOM rendering, overlays, button enabling, music and the Web Audio effect chain are not modelled: they are presentation and floating-point audio.
- The `speechSynthesis` calls, voice configuration and the mobile speech tests are not modelled. `SpeakText` keeps only the cache bookkeeping and the speaking flag.
- The streaming read of `/api/chat` and `TextDecoder` are reduced to the body read to its end, or the failure; intermediate renders are not modelled.
- `loadCharacters`' own fetch outcome and `showServerFullMessage` are reduced to loaded, server full or failed.
- Timers (`setInterval`, `Timer`, `DispatchQueue.asyncAfter`, Arduino `delay`) are not modelled: ticks and timeouts are method calls, and `now` is a parameter.
- Async completion handlers are modelled as running whole, at the moment the reply is given; interleavings with other events are not.
- The firmware's BLE callbacks run in the BLE stack's own FreeRTOS task; the model runs each callback whole, between other steps. A write that arrives during `setup`'s ready blinks (advertising starts at src/main.cpp:114, before the blinks at src/main.cpp:121-126) is not interleaved with them.
- JavaScript numbers are doubles: counters and times are exact only below 2^53, and `String` writes plain digits only below 10^21. The model uses unbounded naturals and plain digits throughout.
- SpeechText.RemoveEmoji: matches whole code points. The source's regular expression has no `u` flag, so it works on UTF-16 code units and also strips lone halves of other astral characters.
- Voices.Lower: lower-cases ASCII letters only, where `toLowerCase` also maps other alphabets.
- ChatPage.Page: `characters` starts as an empty list, where the page starts with an empty object (public/app.js:19) and has a list only after a successful load (public/app.js:335). Choosing a character before that would make `characters.find` throw (public/app.js:1510) so that no greeting is spoken, while the model speaks the default greeting. The character options come from the page's HTML, which is not part of this model.
- Voices.Preferences and ChatPage.Page: character ids that name `Object.prototype` members (such as `constructor`) are treated as plain keys, while a JavaScript object lookup would find the inherited member.
- Decimal.ParseNumber: reads decimal digit strings only. Other `Number` syntaxes (signs, spaces, exponents, hex) read as NaN, because only this page writes the keys it reads.
- `Color.toRGB` is not modelled: a floating-point conversion; colours are given as three integer channels from 0 to 255.
- JSON encoding and decoding, `URLSession`, and URL construction are reduced to a decoded value or a failure, and to a `urlValid` flag.
- `LEDStatus` is modelled by its one field, `totalQueries`.
- LedApp.BleManager: `didDiscoverServices` only issues discovery requests for the service and is not modelled. The `@unknown default` state ("Unknown Bluetooth state") has no counterpart among the model's states.
- The CoreBluetooth and ESP32 BLE stack calls (scan, connect, service creation, descriptors, advertising parameters) are not modelled beyond the `StartAdvertising` effect.
- Serial logging and `setup`'s wait for the serial port are not modelled: output only.
- Firmware.CString: the app writes UTF-8 bytes; the model treats each byte as one character.
- SwiftUI views, the login screen and the settings screen are not modelled, except the call sites of the command strings.
