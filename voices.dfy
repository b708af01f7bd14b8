/**
 * Fallback voice choice of the browser page (public/app.js,
 * `getBestFallbackVoice`): when a character's configured voice is missing,
 * pick a voice by the character's preference words, then a natural-sounding
 * voice, then the first voice.
 */
module Voices {

  import opened Decimal

  /** A speech-synthesis voice: its display name and its language tag. */
  datatype Voice = Voice(name: string, lang: string)

  /** `toLowerCase` on the ASCII letters. */
  function Lower(s: string): (r: string)
    ensures |r| == |s|
    ensures forall i :: 0 <= i < |s| ==> r[i] == LowerChar(s[i])
    ensures forall i :: 0 <= i < |r| ==> !IsUpper(r[i])
    ensures (forall i :: 0 <= i < |s| ==> !IsUpper(s[i])) ==> r == s
  {
    if s == [] then []
    else [LowerChar(s[0])] + Lower(s[1..])
  }

  predicate IsUpper(c: char) {
    'A' <= c <= 'Z'
  }

  /** One character of `toLowerCase`: `A`..`Z` move to `a`..`z`, the rest stay. */
  function LowerChar(c: char): (d: char)
    ensures !IsUpper(d)
    ensures IsUpper(c) ==> 'a' <= d <= 'z' && d as int - c as int == 32
    ensures !IsUpper(c) ==> d == c
  {
    if IsUpper(c) then (c as int + 32) as char else c
  }

  /** `s.includes(sub)`. */
  predicate Contains(s: string, sub: string)
    decreases |s|
  {
    if |sub| > |s| then false
    else s[..|sub|] == sub || Contains(s[1..], sub)
  }

  /** The preference words per character id; any other id uses the default list. */
  function Preferences(characterId: string): (prefs: seq<string>)
    ensures characterId == "vampire" ==> prefs == ["male", "man", "masculine", "deep", "low"]
    ensures characterId == "witch" ==> prefs == ["female", "woman", "feminine", "high", "soprano"]
    ensures characterId == "werewolf" ==> prefs == ["male", "man", "masculine", "deep", "growl"]
    ensures characterId == "zombie" ==> prefs == ["male", "man", "masculine", "deep", "slow"]
    ensures characterId !in {"vampire", "witch", "werewolf", "zombie"} ==>
              prefs == ["female", "woman", "feminine", "natural"]
  {
    if characterId == "vampire" then ["male", "man", "masculine", "deep", "low"]
    else if characterId == "witch" then ["female", "woman", "feminine", "high", "soprano"]
    else if characterId == "werewolf" then ["male", "man", "masculine", "deep", "growl"]
    else if characterId == "zombie" then ["male", "man", "masculine", "deep", "slow"]
    else ["female", "woman", "feminine", "natural"]
  }

  /** Not robotic, synthetic or artificial by name. */
  predicate IsQuality(v: Voice) {
    var n := Lower(v.name);
    !Contains(n, "robotic") && !Contains(n, "synthetic") && !Contains(n, "artificial")
  }

  /** A quality voice, not a system voice, whose name sounds natural. */
  predicate IsNatural(v: Voice) {
    var n := Lower(v.name);
    && IsQuality(v)
    && !Contains(n, "system")
    && (Contains(n, "natural") || Contains(n, "human") || Contains(n, "neural") || Contains(n, "enhanced"))
  }

  /** A voice whose name or language mentions the preference word. */
  predicate MatchesPreference(v: Voice, preference: string) {
    Contains(Lower(v.name), preference) || Contains(Lower(v.lang), preference)
  }

  function QualityVoices(voices: seq<Voice>): (r: seq<Voice>)
    ensures forall v :: v in r ==> v in voices && IsQuality(v)
    ensures forall v :: v in voices && IsQuality(v) ==> v in r
  {
    if voices == [] then []
    else (if IsQuality(voices[0]) then [voices[0]] else []) + QualityVoices(voices[1..])
  }

  function NaturalVoices(voices: seq<Voice>): (r: seq<Voice>)
    ensures forall v :: v in r ==> v in voices && IsNatural(v)
    ensures forall v :: v in voices && IsNatural(v) ==> v in r
  {
    if voices == [] then []
    else (if IsNatural(voices[0]) then [voices[0]] else []) + NaturalVoices(voices[1..])
  }

  /** The quality voices, or all voices when there is none. */
  function VoicesToUse(voices: seq<Voice>): (r: seq<Voice>)
    ensures forall v :: v in r ==> v in voices
    ensures |r| == 0 <==> |voices| == 0
    ensures |QualityVoices(voices)| > 0 ==> r == QualityVoices(voices)
    ensures |QualityVoices(voices)| == 0 ==> r == voices
  {
    var q := QualityVoices(voices);
    if |q| > 0 then q else voices
  }

  /** `voices.find(...)` for one preference word. */
  function FindMatch(voices: seq<Voice>, preference: string): (r: Option<Voice>)
    ensures r.Some? ==> r.value in voices && MatchesPreference(r.value, preference)
    ensures r.None? <==> forall v :: v in voices ==> !MatchesPreference(v, preference)
  {
    if voices == [] then None
    else if MatchesPreference(voices[0], preference) then Some(voices[0])
    else FindMatch(voices[1..], preference)
  }

  /** A voice that matches, with none before it matching, is the one found. */
  lemma {:induction false} FindMatchIsFirst(voices: seq<Voice>, preference: string, k: nat)
    requires k < |voices| && MatchesPreference(voices[k], preference)
    requires forall j :: 0 <= j < k ==> !MatchesPreference(voices[j], preference)
    ensures FindMatch(voices, preference) == Some(voices[k])
  {
    if k > 0 {
      assert !MatchesPreference(voices[0], preference);
      FindMatchIsFirst(voices[1..], preference, k - 1);
    }
  }

  /** Filtering keeps order: the quality voices of `a + b` are those of `a`, then those of `b`. */
  lemma {:induction false} QualityVoicesAppend(a: seq<Voice>, b: seq<Voice>)
    ensures QualityVoices(a + b) == QualityVoices(a) + QualityVoices(b)
  {
    if a == [] {
      assert a + b == b;
    } else {
      assert (a + b)[0] == a[0];
      assert (a + b)[1..] == a[1..] + b;
      QualityVoicesAppend(a[1..], b);
    }
  }

  /** The natural voices of `a + b` are those of `a`, then those of `b`. */
  lemma {:induction false} NaturalVoicesAppend(a: seq<Voice>, b: seq<Voice>)
    ensures NaturalVoices(a + b) == NaturalVoices(a) + NaturalVoices(b)
  {
    if a == [] {
      assert a + b == b;
    } else {
      assert (a + b)[0] == a[0];
      assert (a + b)[1..] == a[1..] + b;
      NaturalVoicesAppend(a[1..], b);
    }
  }

  /** The first voice found for the first preference word that finds one. */
  function FirstPreferred(voices: seq<Voice>, prefs: seq<string>): (r: Option<Voice>)
    ensures r.Some? ==> r.value in voices
  {
    if prefs == [] then None
    else if FindMatch(voices, prefs[0]).Some? then FindMatch(voices, prefs[0])
    else FirstPreferred(voices, prefs[1..])
  }

  /** What `getBestFallbackVoice(characterId, voices)` returns; `None` is `null`. */
  function BestFallbackVoice(characterId: string, voices: seq<Voice>): Option<Voice> {
    if voices == [] then None
    else
      var preferred := FirstPreferred(VoicesToUse(voices), Preferences(characterId));
      if preferred.Some? then preferred
      else
        var natural := NaturalVoices(voices);
        if |natural| > 0 then Some(natural[0]) else Some(voices[0])
  }

  /** The preference loop of `getBestFallbackVoice`, with its early return. */
  method GetBestFallbackVoice(characterId: string, voices: seq<Voice>) returns (r: Option<Voice>)
    ensures r == BestFallbackVoice(characterId, voices)
  {
    if |voices| == 0 {
      return None;
    }
    var preferences := Preferences(characterId);
    var voicesToUse := VoicesToUse(voices);
    var i := 0;
    while i < |preferences|
      invariant 0 <= i <= |preferences|
      invariant FirstPreferred(voicesToUse, preferences) == FirstPreferred(voicesToUse, preferences[i..])
    {
      assert preferences[i..][1..] == preferences[i + 1..];
      var voice := FindMatch(voicesToUse, preferences[i]);
      if voice.Some? {
        return voice;
      }
      i := i + 1;
    }
    var naturalVoices := NaturalVoices(voices);
    if |naturalVoices| > 0 {
      return Some(naturalVoices[0]);
    }
    r := Some(voices[0]);
  }

  /** The fallback is `null` exactly when there are no voices, and otherwise one of them. */
  lemma FallbackIsAvailableVoice(characterId: string, voices: seq<Voice>)
    ensures BestFallbackVoice(characterId, voices).None? <==> |voices| == 0
    ensures BestFallbackVoice(characterId, voices).Some? ==> BestFallbackVoice(characterId, voices).value in voices
  {
    var r := BestFallbackVoice(characterId, voices);
    if r.Some? && voices != [] {
      var preferred := FirstPreferred(VoicesToUse(voices), Preferences(characterId));
      if preferred.Some? {
        assert preferred.value in VoicesToUse(voices);
      }
    }
  }

  /** When some usable voice matches the character's first preference word, that word decides. */
  lemma FirstPreferenceWins(characterId: string, voices: seq<Voice>, v: Voice)
    requires v in VoicesToUse(voices) && MatchesPreference(v, Preferences(characterId)[0])
    ensures BestFallbackVoice(characterId, voices) == FindMatch(VoicesToUse(voices), Preferences(characterId)[0])
    ensures BestFallbackVoice(characterId, voices).Some?
    ensures MatchesPreference(BestFallbackVoice(characterId, voices).value, Preferences(characterId)[0])
  {
    assert voices != [];
  }

  lemma {:induction false} NoPreferredMatch(voices: seq<Voice>, prefs: seq<string>)
    requires forall v, p :: v in voices && p in prefs ==> !MatchesPreference(v, p)
    ensures FirstPreferred(voices, prefs).None?
  {
    if prefs != [] {
      NoPreferredMatch(voices, prefs[1..]);
    }
  }

  /** With no preference match and no natural voice, the first voice is chosen. */
  lemma FirstVoiceAsLastResort(characterId: string, voices: seq<Voice>)
    requires voices != []
    requires forall v, p :: v in voices && p in Preferences(characterId) ==> !MatchesPreference(v, p)
    requires forall v :: v in voices ==> !IsNatural(v)
    ensures BestFallbackVoice(characterId, voices) == Some(voices[0])
  {
    NoPreferredMatch(VoicesToUse(voices), Preferences(characterId));
    NoNaturalVoice(voices);
  }

  lemma {:induction false} NoNaturalVoice(voices: seq<Voice>)
    requires forall v :: v in voices ==> !IsNatural(v)
    ensures NaturalVoices(voices) == []
  {
    if voices != [] {
      assert voices[0] in voices;
      NoNaturalVoice(voices[1..]);
    }
  }
}
