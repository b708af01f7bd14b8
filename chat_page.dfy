/**
 * The session state of the chat page (public/app.js): the per-character
 * context cache, the query counter kept in `sessionStorage`, the 15-second
 * cooldown, the gate at the start of `sendMessage`, the speech de-duplication
 * cache of `speakText` and the guard on changing character.
 *
 * The module-level `let` variables of the page become the fields of one
 * `Page` object; `sessionStorage` is a map from keys to strings; the clock is
 * an explicit `now` in milliseconds; the outcome of `fetch("/api/chat")` is an
 * input of `SendMessage`.
 */
module ChatPage {
  import opened Decimal
  import SpeechText

  /** `maxSize` of every character's cache entry. */
  const MaxCacheSize: nat := 5
  /** A cooldown starts on every fifth accepted message. */
  const QueriesPerCooldown: nat := 5
  /** Length of a cooldown, in milliseconds. */
  const CooldownMillis: nat := 15000
  /** The speech cache is cleared once it holds more keys than this. */
  const SpeechCacheLimit: nat := 50

  const SessionQueriesKey: string := "spookygpt_session_queries"
  const CooldownEndKey: string := "spookygpt_cooldown_end"
  const DefaultGreeting: string := "\U{1F47B} Boo! I'm SpookyGPT!"

  /** One character's entry in `characterCache`. */
  datatype CharacterContext = CharacterContext(messages: seq<string>, responses: seq<string>)

  const EmptyContext := CharacterContext([], [])

  /** What `fetch("/api/chat")` came to: a body read to its end, a non-ok status, or a thrown error. */
  datatype FetchOutcome = OkStream(body: string) | NotOk(statusText: string) | NetworkError(message: string)

  /** The JSON body posted to `/api/chat`. */
  datatype ChatRequest = ChatRequest(prompt: string, character: string, cachedMessages: seq<string>, cachedResponses: seq<string>)

  /** One entry of the `/api/characters` list. */
  datatype CharacterInfo = CharacterInfo(id: string, name: string, greeting: string)

  /** What `fetch("/api/characters")` came to. */
  datatype CharactersOutcome = Loaded(characters: seq<CharacterInfo>) | ServerFull | LoadFailed

  // ---------------------------------------------------------------------
  // Pure parts

  /** `push` followed by one `shift` when the list is longer than `maxSize`. */
  function Pushed(list: seq<string>, item: string): seq<string> {
    if |list + [item]| > MaxCacheSize then (list + [item])[1..] else list + [item]
  }

  /**
   * A push keeps a cache list within `maxSize`, ends it with the new item, and
   * keeps the most recent items in order: below the bound nothing is dropped,
   * at the bound exactly the oldest item is.
   */
  lemma PushedKeepsNewest(list: seq<string>, item: string)
    requires |list| <= MaxCacheSize
    ensures var r := Pushed(list, item);
      && |r| <= MaxCacheSize
      && r[|r| - 1] == item
      && (|list| < MaxCacheSize ==> r == list + [item])
      && (|list| == MaxCacheSize ==> r == list[1..] + [item])
  {
    if |list| == MaxCacheSize {
      assert (list + [item])[1..] == list[1..] + [item];
    }
  }

  /** Over any run of pushes, a cache list holds the last (at most five) items pushed, oldest first. */
  lemma {:induction false} PushedAllKeepsLastFive(list: seq<string>, items: seq<string>)
    requires |list| <= MaxCacheSize
    ensures PushedAll(list, items) == LastN(list + items, MaxCacheSize)
    decreases |items|
  {
    if items == [] {
      assert list + items == list;
    } else {
      var last := items[|items| - 1];
      var init := items[..|items| - 1];
      PushedAllKeepsLastFive(list, init);
      var mid := PushedAll(list, init);
      PushedKeepsNewest(mid, last);
      assert list + items == (list + init) + [last];
      var whole := list + init;
      if |whole| + 1 <= MaxCacheSize {
      } else {
        assert (whole + [last])[|whole| + 1 - MaxCacheSize..] == whole[|whole| + 1 - MaxCacheSize..] + [last];
        if |whole| >= MaxCacheSize {
          assert mid == whole[|whole| - MaxCacheSize..];
          assert mid[1..] == whole[|whole| + 1 - MaxCacheSize..];
        }
      }
    }
  }

  /** Pushing the items one after the other. */
  function PushedAll(list: seq<string>, items: seq<string>): seq<string>
    decreases |items|
  {
    if items == [] then list else Pushed(PushedAll(list, items[..|items| - 1]), items[|items| - 1])
  }

  /** The last `n` elements of `s` (all of them when there are fewer). */
  function LastN(s: seq<string>, n: nat): seq<string> {
    if |s| <= n then s else s[|s| - n..]
  }

  /** `Number(sessionStorage.getItem(key) || '0')`: a missing or empty entry reads as 0. */
  function StoredNumber(storage: map<string, string>, key: string): Option<nat> {
    ParseNumber(if key in storage && storage[key] != "" then storage[key] else "0")
  }

  /** The incremented session count, `NaN + 1` staying NaN. */
  function NextCount(storage: map<string, string>): Option<nat> {
    match StoredNumber(storage, SessionQueriesKey)
    case None => None
    case Some(n) => Some(n + 1)
  }

  /** `String(count)`. */
  function CountText(count: Option<nat>): string {
    match count
    case None => "NaN"
    case Some(n) => NatToString(n)
  }

  /** `count % 5 === 0`, false for NaN. */
  predicate StartsCooldown(count: Option<nat>) {
    count.Some? && count.value % QueriesPerCooldown == 0
  }

  /** The stored session count goes up by exactly one per accepted message, and reads back as written. */
  lemma CounterReadsBack(storage: map<string, string>)
    ensures StoredNumber(storage[SessionQueriesKey := CountText(NextCount(storage))], SessionQueriesKey) == NextCount(storage)
    ensures StoredNumber(storage, SessionQueriesKey).Some? ==>
      NextCount(storage) == Some(StoredNumber(storage, SessionQueriesKey).value + 1)
  {
    match NextCount(storage)
    case None => NaNRoundTrip();
    case Some(n) => ParseNatToString(n);
  }

  /**
   * Starting from a fresh session, after `k` accepted messages the stored
   * counter reads `k`, and the `k`-th message starts a cooldown exactly when
   * `k` is a multiple of five.
   */
  lemma {:induction false} CounterAfterMessages(k: nat)
    ensures StoredNumber(CounterStorage(k), SessionQueriesKey) == Some(k)
    ensures k > 0 ==> (StartsCooldown(NextCount(CounterStorage(k - 1))) <==> k % 5 == 0)
  {
    if k == 0 {
      assert StoredNumber(map[], SessionQueriesKey) == ParseNumber("0");
      assert ParseNumber("0") == Some(0) by {
        assert NatToString(0) == "0";
        ParseNatToString(0);
      }
    } else {
      var before := CounterStorage(k - 1);
      CounterAfterMessages(k - 1);
      CounterReadsBack(before);
      assert NextCount(before) == Some(k);
    }
  }

  /** The session storage after `k` accepted messages from a fresh session. */
  function CounterStorage(k: nat): map<string, string> {
    if k == 0 then map[] else
      var before := CounterStorage(k - 1);
      before[SessionQueriesKey := CountText(NextCount(before))]
  }

  /** `Math.ceil(d / 1000)` for an integer `d`. */
  function CeilSeconds(d: int): int {
    -((-d) / 1000)
  }

  /** The timer reads zero or less exactly when the end time is reached; otherwise it rounds up to whole seconds. */
  lemma CeilSecondsBounds(d: int)
    ensures CeilSeconds(d) <= 0 <==> d <= 0
    ensures d > 0 ==> (CeilSeconds(d) - 1) * 1000 < d <= CeilSeconds(d) * 1000
  {
  }

  /** The message text: a non-empty string argument, otherwise the trimmed input field. */
  function MessageText(argument: Option<string>, inputValue: string): string {
    if argument.Some? && argument.value != "" then argument.value else SpeechText.Trim(inputValue)
  }

  /** The text `sendMessage` shows, and may speak, for an outcome. */
  function ReplyText(outcome: FetchOutcome): string {
    match outcome
    case OkStream(body) => body
    case NotOk(statusText) => "Error: " + statusText
    case NetworkError(message) => "Network error: " + message
  }

  /** The speech-cache key of a text, or nothing when the cleaned text is empty. */
  function SpeechKey(characterId: string, text: string): Option<string> {
    var clean := SpeechText.CleanTextForSpeech(text);
    if clean == "" then None else Some(characterId + "-" + clean)
  }

  /** The key of a new utterance: `set`, then `clear` when the cache holds over 50 keys. */
  function Remember(cache: set<string>, key: string): set<string> {
    if |cache + {key}| > SpeechCacheLimit then {} else cache + {key}
  }

  /** Whether `speakText` gets past its cache check. */
  predicate Utters(cache: set<string>, characterId: string, text: string) {
    SpeechKey(characterId, text).Some? && SpeechKey(characterId, text).value !in cache
  }

  /** The speech cache after `speakText` reached its cache check. */
  function SpeechCacheAfter(cache: set<string>, characterId: string, text: string): set<string> {
    if Utters(cache, characterId, text) then Remember(cache, SpeechKey(characterId, text).value) else cache
  }

  /**
   * The speech cache never holds more than 50 keys; a repeated key is skipped
   * and leaves it alone; a new key is kept, except that the insert that makes
   * 51 keys empties the cache, the new key with it.
   */
  lemma SpeechCacheBehaviour(cache: set<string>, characterId: string, text: string)
    requires |cache| <= SpeechCacheLimit
    ensures |SpeechCacheAfter(cache, characterId, text)| <= SpeechCacheLimit
    ensures !Utters(cache, characterId, text) ==> SpeechCacheAfter(cache, characterId, text) == cache
    ensures Utters(cache, characterId, text) ==>
      var key := SpeechKey(characterId, text).value;
      if |cache| < SpeechCacheLimit then SpeechCacheAfter(cache, characterId, text) == cache + {key}
      else SpeechCacheAfter(cache, characterId, text) == {}
  {
    if Utters(cache, characterId, text) {
      var key := SpeechKey(characterId, text).value;
      assert |cache + {key}| == |cache| + 1;
    }
  }

  /** Once spoken and still cached, the same text for the same character is not spoken again. */
  lemma SpokenTextIsSkipped(cache: set<string>, characterId: string, text: string)
    requires Utters(cache, characterId, text) && |cache| < SpeechCacheLimit
    ensures !Utters(SpeechCacheAfter(cache, characterId, text), characterId, text)
  {
    var key := SpeechKey(characterId, text).value;
    assert |cache + {key}| == |cache| + 1;
  }

  /** `characters.find(c => c.id === id)?.greeting || "👻 Boo! I'm SpookyGPT!"`. */
  function Greeting(characters: seq<CharacterInfo>, id: string): string {
    if characters == [] then DefaultGreeting
    else if characters[0].id == id then
      (if characters[0].greeting != "" then characters[0].greeting else DefaultGreeting)
    else Greeting(characters[1..], id)
  }

  // ---------------------------------------------------------------------
  // The page

  class Page {
    var characterCache: map<string, CharacterContext>
    var sessionStorage: map<string, string>
    var characters: seq<CharacterInfo>
    var currentCharacter: string
    var cooldownActive: bool
    var cooldownEndTime: int
    /** Whether the one-second cooldown interval is installed. */
    var cooldownInterval: bool
    /** The number last written into the cooldown timer element. */
    var shownSeconds: int
    var isWaitingForResponse: bool
    var isSpeaking: bool
    var speechEnabled: bool
    /** `window.audioEnabled`, set once the user allowed audio. */
    var audioEnabled: bool
    /** `'speechSynthesis' in window`. */
    const synthesisSupported: bool
    var speechCache: set<string>

    ghost predicate Valid()
      reads this
    {
      && (forall id :: id in characterCache ==>
            |characterCache[id].messages| <= MaxCacheSize && |characterCache[id].responses| <= MaxCacheSize)
      && |speechCache| <= SpeechCacheLimit
      && cooldownInterval == cooldownActive
    }

    /** A character's cache entry; a character never seen reads as two empty lists. */
    function Context(id: string): CharacterContext
      reads this
    {
      if id in characterCache then characterCache[id] else EmptyContext
    }

    /** The page as loaded, with whatever `sessionStorage` kept from earlier loads in this tab. */
    constructor (storage: map<string, string>, synthesisSupported: bool)
      ensures Valid()
      ensures characterCache == map[] && sessionStorage == storage && characters == []
      ensures currentCharacter == "" && !cooldownActive && cooldownEndTime == 0 && !cooldownInterval
      ensures !isWaitingForResponse && !isSpeaking && speechEnabled && !audioEnabled
      ensures this.synthesisSupported == synthesisSupported && speechCache == {}
    {
      characterCache := map[];
      sessionStorage := storage;
      characters := [];
      currentCharacter := "";
      cooldownActive := false;
      cooldownEndTime := 0;
      cooldownInterval := false;
      shownSeconds := 0;
      isWaitingForResponse := false;
      isSpeaking := false;
      speechEnabled := true;
      audioEnabled := false;
      this.synthesisSupported := synthesisSupported;
      speechCache := {};
    }

    /** `initializeCharacterCache`: creates an empty entry for a new id and never resets an existing one. */
    method InitializeCharacterCache(id: string)
      requires Valid()
      modifies this`characterCache
      ensures Valid()
      ensures characterCache == if id in old(characterCache) then old(characterCache) else old(characterCache)[id := EmptyContext]
      ensures Context(id) == old(Context(id))
    {
      if id !in characterCache {
        characterCache := characterCache[id := EmptyContext];
      }
    }

    /** `addToMessageCache`: only this character's message list changes. */
    method AddToMessageCache(id: string, message: string)
      requires Valid()
      modifies this`characterCache
      ensures Valid()
      ensures characterCache == old(characterCache)[id := CharacterContext(Pushed(old(Context(id)).messages, message), old(Context(id)).responses)]
      ensures forall other :: other != id ==> Context(other) == old(Context(other))
    {
      InitializeCharacterCache(id);
      var cache := characterCache[id];
      PushedKeepsNewest(cache.messages, message);
      characterCache := characterCache[id := cache.(messages := Pushed(cache.messages, message))];
    }

    /** `addToResponseCache`: only this character's response list changes. */
    method AddToResponseCache(id: string, response: string)
      requires Valid()
      modifies this`characterCache
      ensures Valid()
      ensures characterCache == old(characterCache)[id := CharacterContext(old(Context(id)).messages, Pushed(old(Context(id)).responses, response))]
      ensures forall other :: other != id ==> Context(other) == old(Context(other))
    {
      InitializeCharacterCache(id);
      var cache := characterCache[id];
      PushedKeepsNewest(cache.responses, response);
      characterCache := characterCache[id := cache.(responses := Pushed(cache.responses, response))];
    }

    /** `getCachedMessages`: the stored list, after making sure the entry exists. */
    method GetCachedMessages(id: string) returns (messages: seq<string>)
      requires Valid()
      modifies this`characterCache
      ensures Valid() && id in characterCache
      ensures messages == old(Context(id)).messages && |messages| <= MaxCacheSize
      ensures characterCache == if id in old(characterCache) then old(characterCache) else old(characterCache)[id := EmptyContext]
      ensures forall other :: Context(other) == old(Context(other))
    {
      InitializeCharacterCache(id);
      messages := characterCache[id].messages;
    }

    /** `getCachedResponses`: the stored list, after making sure the entry exists. */
    method GetCachedResponses(id: string) returns (responses: seq<string>)
      requires Valid()
      modifies this`characterCache
      ensures Valid() && id in characterCache
      ensures responses == old(Context(id)).responses && |responses| <= MaxCacheSize
      ensures characterCache == if id in old(characterCache) then old(characterCache) else old(characterCache)[id := EmptyContext]
      ensures forall other :: Context(other) == old(Context(other))
    {
      InitializeCharacterCache(id);
      responses := characterCache[id].responses;
    }

    /**
     * `startCooldown`: the end is always `now + 15000`, also when the caller
     * had just set `cooldownEndTime` to an end restored from storage.
     */
    method StartCooldown(now: nat)
      requires Valid()
      modifies this`cooldownActive, this`cooldownEndTime, this`sessionStorage, this`cooldownInterval
      ensures Valid()
      ensures cooldownActive && cooldownInterval && cooldownEndTime == now + CooldownMillis
      ensures sessionStorage == old(sessionStorage)[CooldownEndKey := NatToString(now + CooldownMillis)]
    {
      cooldownActive := true;
      cooldownEndTime := now + CooldownMillis;
      sessionStorage := sessionStorage[CooldownEndKey := NatToString(cooldownEndTime)];
      cooldownInterval := true;
    }

    /** `endCooldown`: the flag drops, the stored end is removed and the interval is cleared. */
    method EndCooldown()
      requires Valid()
      modifies this`cooldownActive, this`sessionStorage, this`cooldownInterval
      ensures Valid()
      ensures !cooldownActive && !cooldownInterval
      ensures sessionStorage == old(sessionStorage) - {CooldownEndKey}
    {
      cooldownActive := false;
      sessionStorage := sessionStorage - {CooldownEndKey};
      cooldownInterval := false;
    }

    /** One firing of the cooldown interval at time `now`. */
    method CooldownTick(now: nat)
      requires Valid() && cooldownInterval
      modifies this`cooldownActive, this`sessionStorage, this`cooldownInterval, this`shownSeconds
      ensures Valid()
      ensures now >= cooldownEndTime ==>
        !cooldownActive && sessionStorage == old(sessionStorage) - {CooldownEndKey} && shownSeconds == old(shownSeconds)
      ensures now < cooldownEndTime ==>
        cooldownActive && sessionStorage == old(sessionStorage) && shownSeconds > 0
        && (shownSeconds - 1) * 1000 < cooldownEndTime - now <= shownSeconds * 1000
    {
      var remaining := CeilSeconds(cooldownEndTime - now);
      CeilSecondsBounds(cooldownEndTime - now);
      if remaining <= 0 {
        EndCooldown();
      } else {
        shownSeconds := remaining;
      }
    }

    /**
     * `loadCharacters`: a stored cooldown end still in the future starts a
     * cooldown, which `startCooldown` then re-times to a full 15 seconds from
     * `now`; a loaded list resets the selection.
     */
    method LoadCharacters(now: nat, outcome: CharactersOutcome)
      requires Valid()
      modifies this`cooldownActive, this`cooldownEndTime, this`sessionStorage, this`cooldownInterval,
        this`characters, this`currentCharacter
      ensures Valid()
      ensures var stored := StoredNumber(old(sessionStorage), CooldownEndKey);
        if stored.Some? && stored.value > now then
          cooldownActive && cooldownEndTime == now + CooldownMillis
          && sessionStorage == old(sessionStorage)[CooldownEndKey := NatToString(now + CooldownMillis)]
        else
          cooldownActive == old(cooldownActive) && cooldownEndTime == old(cooldownEndTime)
          && sessionStorage == old(sessionStorage)
      ensures outcome.Loaded? ==> characters == outcome.characters && currentCharacter == ""
      ensures !outcome.Loaded? ==> characters == old(characters) && currentCharacter == old(currentCharacter)
    {
      var cooldownEnd := StoredNumber(sessionStorage, CooldownEndKey);
      if cooldownEnd.Some? && cooldownEnd.value > now {
        cooldownEndTime := cooldownEnd.value;
        StartCooldown(now);
      }
      match outcome
      case ServerFull =>
      case LoadFailed =>
      case Loaded(list) =>
        characters := list;
        currentCharacter := "";
    }

    /** `enableAudioControls`: marks audio as allowed. */
    method EnableAudio()
      requires Valid()
      modifies this`audioEnabled
      ensures Valid()
      ensures audioEnabled
    {
      audioEnabled := true;
    }

    /** Speech ended or failed: `enableAllControlsAfterSpeaking`. */
    method SpeechEnded()
      requires Valid()
      modifies this`isSpeaking
      ensures Valid()
      ensures !isSpeaking
    {
      isSpeaking := false;
    }

    /** `toggleSpeech`: refused during a cooldown; switching off also stops speech. */
    method ToggleSpeech()
      requires Valid()
      modifies this`speechEnabled, this`isSpeaking
      ensures Valid()
      ensures old(cooldownActive) ==> speechEnabled == old(speechEnabled) && isSpeaking == old(isSpeaking)
      ensures !old(cooldownActive) ==> speechEnabled == !old(speechEnabled)
      ensures !old(cooldownActive) ==> isSpeaking == (old(isSpeaking) && speechEnabled)
    {
      if cooldownActive {
        return;
      }
      speechEnabled := !speechEnabled;
      if !speechEnabled {
        isSpeaking := false;
      }
    }

    /**
     * The bookkeeping of `speakText`: nothing happens without audio or speech
     * synthesis, or for an empty cleaned text, or for a key already cached;
     * otherwise the key is remembered and an utterance starts.
     */
    method SpeakText(text: string, characterId: string) returns (spoken: bool)
      requires Valid()
      modifies this`speechCache, this`isSpeaking
      ensures Valid()
      ensures spoken == (audioEnabled && synthesisSupported && Utters(old(speechCache), characterId, text))
      ensures speechCache == if audioEnabled && synthesisSupported then SpeechCacheAfter(old(speechCache), characterId, text) else old(speechCache)
      ensures isSpeaking == (old(isSpeaking) || spoken)
    {
      spoken := false;
      if !audioEnabled || !synthesisSupported {
        return;
      }
      var key := SpeechKey(characterId, text);
      if key.None? {
        return;
      }
      var cacheKey := key.value;
      if cacheKey in speechCache {
        return;
      }
      RememberUtterance(cacheKey);
      isSpeaking := true;
      spoken := true;
    }

    /** `speechCache.set(cacheKey, true)`, then `clear()` once it holds more than 50 keys. */
    method RememberUtterance(cacheKey: string)
      requires Valid()
      modifies this`speechCache
      ensures Valid()
      ensures speechCache == Remember(old(speechCache), cacheKey)
    {
      speechCache := speechCache + {cacheKey};
      if |speechCache| > SpeechCacheLimit {
        speechCache := {};
      }
    }

    /**
     * The steps of `sendMessage` between its gate and its request: cache the
     * prompt, count the message in `sessionStorage`, and start a cooldown on
     * every fifth message.
     */
    method RecordPrompt(text: string, now: nat)
      requires Valid() && !cooldownActive
      modifies this`characterCache, this`sessionStorage, this`cooldownActive, this`cooldownEndTime,
        this`cooldownInterval, this`isWaitingForResponse
      ensures Valid()
      ensures characterCache == old(characterCache)[currentCharacter :=
        CharacterContext(Pushed(old(Context(currentCharacter)).messages, text), old(Context(currentCharacter)).responses)]
      ensures isWaitingForResponse
      ensures cooldownActive == StartsCooldown(NextCount(old(sessionStorage)))
      ensures cooldownActive ==> (cooldownEndTime == now + CooldownMillis
        && sessionStorage == old(sessionStorage)[SessionQueriesKey := CountText(NextCount(old(sessionStorage)))][CooldownEndKey := NatToString(now + CooldownMillis)])
      ensures !cooldownActive ==> (cooldownEndTime == old(cooldownEndTime)
        && sessionStorage == old(sessionStorage)[SessionQueriesKey := CountText(NextCount(old(sessionStorage)))])
    {
      AddToMessageCache(currentCharacter, text);
      isWaitingForResponse := true;
      var newSessionCount := NextCount(sessionStorage);
      sessionStorage := sessionStorage[SessionQueriesKey := CountText(newSessionCount)];
      if StartsCooldown(newSessionCount) && !cooldownActive {
        StartCooldown(now);
      }
    }

    /**
     * The steps of `sendMessage` after its request: speak the reply or the
     * error text when speech is on, cache the response only after a stream
     * read to its end, and re-enable input on every path.
     */
    method FinishRequest(outcome: FetchOutcome)
      requires Valid()
      modifies this`characterCache, this`isWaitingForResponse, this`speechCache, this`isSpeaking
      ensures Valid()
      ensures characterCache == if outcome.OkStream? then
        old(characterCache)[currentCharacter := CharacterContext(old(Context(currentCharacter)).messages,
          Pushed(old(Context(currentCharacter)).responses, outcome.body))]
        else old(characterCache)
      ensures !isWaitingForResponse
      ensures speechCache == if speechEnabled && audioEnabled && synthesisSupported
        then SpeechCacheAfter(old(speechCache), currentCharacter, ReplyText(outcome))
        else old(speechCache)
      ensures isSpeaking == (old(isSpeaking) ||
        (speechEnabled && audioEnabled && synthesisSupported && Utters(old(speechCache), currentCharacter, ReplyText(outcome))))
    {
      var reply := ReplyText(outcome);
      if speechEnabled {
        var _ := SpeakText(reply, currentCharacter);
      }
      if outcome.OkStream? {
        AddToResponseCache(currentCharacter, outcome.body);
      }
      isWaitingForResponse := false;
    }

    /**
     * `sendMessage`, with the request's outcome given. An empty text, an
     * active cooldown or no selected character returns at once; every other
     * message is accepted.
     */
    method SendMessage(argument: Option<string>, inputValue: string, now: nat, outcome: FetchOutcome)
      returns (request: Option<ChatRequest>)
      requires Valid()
      modifies this`characterCache, this`sessionStorage, this`cooldownActive, this`cooldownEndTime,
        this`cooldownInterval, this`isWaitingForResponse, this`speechCache, this`isSpeaking
      ensures Valid()
      ensures request.Some? <==> MessageText(argument, inputValue) != "" && !old(cooldownActive) && currentCharacter != ""
      ensures request.None? ==>
        && characterCache == old(characterCache) && sessionStorage == old(sessionStorage)
        && cooldownActive == old(cooldownActive) && cooldownEndTime == old(cooldownEndTime)
        && isWaitingForResponse == old(isWaitingForResponse)
        && speechCache == old(speechCache) && isSpeaking == old(isSpeaking)
      ensures request.Some? ==> request.value == ChatRequest(MessageText(argument, inputValue), currentCharacter,
        Pushed(old(Context(currentCharacter)).messages, MessageText(argument, inputValue)),
        old(Context(currentCharacter)).responses)
      ensures request.Some? ==> characterCache == old(characterCache)[currentCharacter := CharacterContext(
        Pushed(old(Context(currentCharacter)).messages, MessageText(argument, inputValue)),
        if outcome.OkStream? then Pushed(old(Context(currentCharacter)).responses, outcome.body)
        else old(Context(currentCharacter)).responses)]
      ensures request.Some? ==> cooldownActive == StartsCooldown(NextCount(old(sessionStorage)))
      ensures request.Some? && cooldownActive ==> (cooldownEndTime == now + CooldownMillis
        && sessionStorage == old(sessionStorage)[SessionQueriesKey := CountText(NextCount(old(sessionStorage)))][CooldownEndKey := NatToString(now + CooldownMillis)])
      ensures request.Some? && !cooldownActive ==> (cooldownEndTime == old(cooldownEndTime)
        && sessionStorage == old(sessionStorage)[SessionQueriesKey := CountText(NextCount(old(sessionStorage)))])
      ensures request.Some? ==> !isWaitingForResponse
      ensures request.Some? ==> speechCache == if speechEnabled && audioEnabled && synthesisSupported
        then SpeechCacheAfter(old(speechCache), currentCharacter, ReplyText(outcome))
        else old(speechCache)
      ensures request.Some? ==>
        isSpeaking == (old(isSpeaking) || (speechEnabled && audioEnabled && synthesisSupported
          && Utters(old(speechCache), currentCharacter, ReplyText(outcome))))
    {
      var messageText := MessageText(argument, inputValue);
      if messageText == "" || cooldownActive || currentCharacter == "" {
        return None;
      }
      var accepted := AcceptMessage(messageText, now, outcome);
      request := Some(accepted);
    }

    /**
     * An accepted message: the prompt is cached, the session counter goes up
     * by one, every fifth message starts a cooldown and its request is still
     * sent with the cached context; the response is cached only when its
     * stream was read to the end.
     */
    method AcceptMessage(text: string, now: nat, outcome: FetchOutcome) returns (request: ChatRequest)
      requires Valid() && !cooldownActive
      modifies this`characterCache, this`sessionStorage, this`cooldownActive, this`cooldownEndTime,
        this`cooldownInterval, this`isWaitingForResponse, this`speechCache, this`isSpeaking
      ensures Valid()
      ensures request == ChatRequest(text, currentCharacter,
        Pushed(old(Context(currentCharacter)).messages, text), old(Context(currentCharacter)).responses)
      ensures characterCache == old(characterCache)[currentCharacter := CharacterContext(
        Pushed(old(Context(currentCharacter)).messages, text),
        if outcome.OkStream? then Pushed(old(Context(currentCharacter)).responses, outcome.body)
        else old(Context(currentCharacter)).responses)]
      ensures cooldownActive == StartsCooldown(NextCount(old(sessionStorage)))
      ensures cooldownActive ==> (cooldownEndTime == now + CooldownMillis
        && sessionStorage == old(sessionStorage)[SessionQueriesKey := CountText(NextCount(old(sessionStorage)))][CooldownEndKey := NatToString(now + CooldownMillis)])
      ensures !cooldownActive ==> (cooldownEndTime == old(cooldownEndTime)
        && sessionStorage == old(sessionStorage)[SessionQueriesKey := CountText(NextCount(old(sessionStorage)))])
      ensures !isWaitingForResponse
      ensures speechCache == if speechEnabled && audioEnabled && synthesisSupported
        then SpeechCacheAfter(old(speechCache), currentCharacter, ReplyText(outcome))
        else old(speechCache)
      ensures isSpeaking == (old(isSpeaking) ||
        (speechEnabled && audioEnabled && synthesisSupported && Utters(old(speechCache), currentCharacter, ReplyText(outcome))))
    {
      RecordPrompt(text, now);
      var cachedMessages := GetCachedMessages(currentCharacter);
      var cachedResponses := GetCachedResponses(currentCharacter);
      request := ChatRequest(text, currentCharacter, cachedMessages, cachedResponses);
      FinishRequest(outcome);
    }

    /**
     * The `change` handler of the character selector: refused while a
     * response is awaited, speech is playing or a cooldown runs; otherwise the
     * selection changes, speech stops and a chosen character's greeting is
     * spoken.
     */
    method ChangeCharacter(value: string) returns (accepted: bool)
      requires Valid()
      modifies this`currentCharacter, this`isSpeaking, this`speechCache
      ensures Valid()
      ensures accepted == !(old(isWaitingForResponse) || old(isSpeaking) || cooldownActive)
      ensures !accepted ==> currentCharacter == old(currentCharacter) && isSpeaking == old(isSpeaking) && speechCache == old(speechCache)
      ensures accepted ==> currentCharacter == value
      ensures accepted ==> (speechCache ==
        if value != "" && speechEnabled && audioEnabled && synthesisSupported
        then SpeechCacheAfter(old(speechCache), value, Greeting(characters, value))
        else old(speechCache))
      ensures accepted ==>
        isSpeaking == (value != "" && speechEnabled && audioEnabled && synthesisSupported
          && Utters(old(speechCache), value, Greeting(characters, value)))
    {
      if isWaitingForResponse || isSpeaking || cooldownActive {
        return false;
      }
      accepted := true;
      currentCharacter := value;
      isSpeaking := false;
      if currentCharacter != "" {
        var greeting := Greeting(characters, currentCharacter);
        if speechEnabled {
          var _ := SpeakText(greeting, currentCharacter);
        }
      }
    }
  }
}
