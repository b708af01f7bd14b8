/**
 * The ESP32-C3 LED controller firmware (src/main.cpp): a BLE characteristic
 * whose writes are read as `LED_ON:<ms>`, `LED_OFF` or `PING`, one LED pin
 * that is active-low, and a `loop` that restarts advertising after a
 * disconnect.
 *
 * Bytes written to the characteristic are characters here. The effects the
 * firmware has on the world (pin writes, `delay`s, notifications, restarts of
 * advertising) are recorded in order in `Controller.effects`; Serial logging
 * is not modelled.
 */
module Firmware {
  import opened Decimal

  const LongMin: int := -0x8000_0000
  const LongMax: int := 0x7FFF_FFFF
  const DefaultDuration: int := 3000
  const OnPrefix: string := "LED_ON:"
  const ReadyValue: string := "Halloween LED Controller Ready"

  /** The pin level; the built-in LED is lit while the pin is LOW. */
  datatype Level = Low | High

  /** What the firmware does to the outside world, in order. */
  datatype Effect =
    | PinWrite(level: Level)
    | Wait(ms: nat)               // `delay(ms)`, `ms` as the `uint32_t` it is passed as
    | Notify(value: string)       // `notify()` of the characteristic's value
    | StartAdvertising

  /** The three commands `onWrite` acts on, and everything else. */
  datatype Command = LedOn(duration: int) | LedOff | Ping | Ignored

  // ---------------------------------------------------------------------
  // Text handling

  /** `String(rxValue.c_str())`: the text up to the first NUL byte. */
  function CString(s: string): (r: string)
    ensures '\0' !in r
    ensures r <= s
    ensures |r| < |s| ==> s[|r|] == '\0'
  {
    if s == [] || s[0] == '\0' then [] else [s[0]] + CString(s[1..])
  }

  /** `isspace` in the C locale. */
  predicate IsCSpace(c: char) {
    c == ' ' || c == '\t' || c == '\n' || c == '\U{000B}' || c == '\U{000C}' || c == '\r'
  }

  /** How many white-space characters `s` starts with. */
  function CSpaceCount(s: string): (n: nat)
    ensures n <= |s|
    ensures forall i :: 0 <= i < n ==> IsCSpace(s[i])
    ensures n < |s| ==> !IsCSpace(s[n])
  {
    if s != [] && IsCSpace(s[0]) then 1 + CSpaceCount(s[1..]) else 0
  }

  function SkipCSpace(s: string): string {
    s[CSpaceCount(s)..]
  }

  /** The longest run of decimal digits at the start of `s`. */
  function LeadingDigits(s: string): (r: string)
    ensures r <= s && AllDigits(r)
    ensures |r| < |s| ==> !IsDigit(s[|r|])
  {
    if s != [] && IsDigit(s[0]) then [s[0]] + LeadingDigits(s[1..]) else []
  }

  /**
   * Arduino's `String::toInt`, which is `atol` on a 32-bit `long`: leading
   * white space, an optional sign, then as many digits as follow; no digits
   * read as 0, and a value out of range saturates as `strtol` does.
   */
  function ToInt(s: string): (r: int)
    ensures LongMin <= r <= LongMax
  {
    var t := SkipCSpace(s);
    var negative := t != [] && t[0] == '-';
    var unsigned := if t != [] && (t[0] == '-' || t[0] == '+') then t[1..] else t;
    var magnitude: int := DigitsValue(LeadingDigits(unsigned));
    if negative then (if -magnitude < LongMin then LongMin else -magnitude)
    else (if magnitude > LongMax then LongMax else magnitude)
  }

  /** `LED_ON:`'s duration: the parsed number, with 0 replaced by the default. */
  function OnDuration(text: string): (d: int)
    ensures d != 0
    ensures ToInt(text) != 0 ==> d == ToInt(text)
    ensures ToInt(text) == 0 ==> d == DefaultDuration
  {
    var duration := ToInt(text);
    if duration == 0 then DefaultDuration else duration
  }

  /** The branch `onWrite` takes for a written value. */
  function Classify(raw: string): (command: Command)
    ensures command.LedOn? <==> raw != [] && OnPrefix <= CString(raw)
    ensures command == LedOff <==> raw != [] && CString(raw) == "LED_OFF"
    ensures command == Ping <==> raw != [] && CString(raw) == "PING"
    ensures command.LedOn? ==> command.duration == OnDuration(CString(raw)[|OnPrefix|..])
  {
    if |raw| == 0 then Ignored
    else
      var command := CString(raw);
      assert !(OnPrefix <= "LED_OFF") by { assert "LED_OFF"[5] != OnPrefix[5]; }
      if OnPrefix <= command then LedOn(OnDuration(command[|OnPrefix|..]))
      else if command == "LED_OFF" then LedOff
      else if command == "PING" then Ping
      else Ignored
  }

  /** `delay(duration)`: the `int` reaches `delay` as a `uint32_t`. */
  function AsDelay(duration: int): nat {
    duration % 0x1_0000_0000
  }

  /** The effects of handling one command. */
  function CommandEffects(command: Command): seq<Effect> {
    match command
    case LedOn(duration) => [PinWrite(Low), Wait(AsDelay(duration)), PinWrite(High)]
    case LedOff => [PinWrite(High)]
    case Ping => [Notify("PONG")]
    case Ignored => []
  }

  /** Commands that drive the pin always leave it HIGH (LED off) at the end. */
  lemma EveryHandlerEndsHigh(command: Command)
    ensures (command.LedOn? || command == LedOff) ==>
      CommandEffects(command)[|CommandEffects(command)| - 1] == PinWrite(High)
    ensures (command == Ping || command == Ignored) ==>
      forall e :: e in CommandEffects(command) ==> !e.PinWrite?
  {
  }

  // ---------------------------------------------------------------------
  // Properties of the parse

  /** A non-negative number in range, written in decimal, is read back by `toInt`. */
  lemma ToIntReadsDecimal(n: nat)
    requires n <= LongMax
    ensures ToInt(NatToString(n)) == n
  {
    var s := NatToString(n);
    DigitsOfNatToString(n);
    NatToStringDigits(n);
    assert SkipCSpace(s) == s by {
      assert !IsCSpace(s[0]) by { assert IsDigit(s[0]); }
    }
    AllDigitsLeading(s);
  }

  lemma {:induction false} AllDigitsLeading(s: string)
    requires AllDigits(s)
    ensures LeadingDigits(s) == s
  {
    if s != [] {
      AllDigitsLeading(s[1..]);
    }
  }

  /** Parsing stops at the first non-digit. */
  lemma ToIntStopsAtNonDigit(n: nat, rest: string)
    requires n <= LongMax
    requires rest == [] || !IsDigit(rest[0])
    ensures ToInt(NatToString(n) + rest) == n
  {
    var s := NatToString(n);
    DigitsOfNatToString(n);
    NatToStringDigits(n);
    assert (s + rest)[0] == s[0];
    assert SkipCSpace(s + rest) == s + rest by {
      assert !IsCSpace((s + rest)[0]) by { assert IsDigit(s[0]); }
    }
    LeadingDigitsOfDigitsThen(s, rest);
  }

  lemma {:induction false} LeadingDigitsOfDigitsThen(s: string, rest: string)
    requires AllDigits(s)
    requires rest == [] || !IsDigit(rest[0])
    ensures LeadingDigits(s + rest) == s
  {
    if s == [] {
      assert s + rest == rest;
    } else {
      assert (s + rest)[0] == s[0];
      assert (s + rest)[1..] == s[1..] + rest;
      LeadingDigitsOfDigitsThen(s[1..], rest);
      assert [s[0]] + s[1..] == s;
    }
  }

  /** `LED_ON:` followed by a positive number in range lights the LED for that many milliseconds. */
  lemma LedOnWithDuration(n: nat)
    requires 0 < n <= LongMax
    ensures Classify(OnPrefix + NatToString(n)) == LedOn(n)
  {
    DigitsOfNatToString(n);
    var s := NatToString(n);
    assert forall i :: 0 <= i < |s| ==> s[i] != '\0';
    ClassifyOnPrefix(s);
    ToIntReadsDecimal(n);
  }

  /** Any NUL-free text after `LED_ON:` is the duration text. */
  lemma ClassifyOnPrefix(tail: string)
    requires '\0' !in tail
    ensures Classify(OnPrefix + tail) == LedOn(OnDuration(tail))
  {
    var raw := OnPrefix + tail;
    CStringOfPlain(raw);
    assert raw[..|OnPrefix|] == OnPrefix;
    assert raw[|OnPrefix|..] == tail;
  }

  /** `LED_ON:` with nothing after it, or with 0, uses the default of 3000 ms. */
  lemma LedOnDefaults()
    ensures Classify(OnPrefix) == LedOn(DefaultDuration)
    ensures Classify(OnPrefix + "0") == LedOn(DefaultDuration)
  {
    ClassifyOnPrefix([]);
    assert OnPrefix + [] == OnPrefix;
    ClassifyOnPrefix("0");
    assert NatToString(0) == "0";
    ToIntReadsDecimal(0);
  }

  /** A negative duration reaches `delay` wrapped to 32 bits: `LED_ON:-1` keeps the LED lit for 2^32 - 1 ms. */
  lemma NegativeDurationWraps()
    ensures Classify(OnPrefix + "-1") == LedOn(-1)
    ensures CommandEffects(Classify(OnPrefix + "-1"))[1] == Wait(0xFFFF_FFFF)
  {
    assert Classify(OnPrefix + "-1") == LedOn(OnDuration("-1")) by { ClassifyOnPrefix("-1"); }
    assert OnDuration("-1") == -1 by { ReadMinusOne(); }
  }

  lemma ReadMinusOne()
    ensures ToInt("-1") == -1
  {
    assert CSpaceCount("-1") == 0;
    assert SkipCSpace("-1") == "-1";
    assert "-1"[1..] == "1";
    assert LeadingDigits("1") == "1";
  }

  lemma {:induction false} CStringOfPlain(s: string)
    requires '\0' !in s
    ensures CString(s) == s
  {
    if s != [] {
      CStringOfPlain(s[1..]);
      assert [s[0]] + s[1..] == s;
    }
  }

  /** Anything after a NUL byte is not seen: `LED_OFF` followed by a NUL and more is still `LED_OFF`. */
  lemma NulEndsCommand(s: string, junk: string)
    requires '\0' !in s && s != []
    ensures Classify(s + ['\0'] + junk) == Classify(s)
  {
    CStringOfPlain(s);
    CStringAtNul(s, junk);
  }

  lemma {:induction false} CStringAtNul(s: string, junk: string)
    requires '\0' !in s
    ensures CString(s + ['\0'] + junk) == s
  {
    if s == [] {
      assert s + ['\0'] + junk == ['\0'] + junk;
    } else {
      assert (s + ['\0'] + junk)[0] == s[0];
      assert (s + ['\0'] + junk)[1..] == s[1..] + ['\0'] + junk;
      CStringAtNul(s[1..], junk);
      assert [s[0]] + s[1..] == s;
    }
  }

  /** A write whose text is empty, including one that starts with NUL, does nothing. */
  lemma EmptyCommandIgnored(raw: string)
    requires raw == [] || raw[0] == '\0'
    ensures Classify(raw) == Ignored
    ensures CommandEffects(Classify(raw)) == []
  {
  }

  /** A NUL-free text that is none of the three commands is ignored. */
  lemma OtherTextIgnored(s: string)
    requires '\0' !in s
    requires !(OnPrefix <= s) && s != "LED_OFF" && s != "PING"
    ensures Classify(s) == Ignored
  {
    CStringOfPlain(s);
  }

  /** `LED_PARTY` is not a command. */
  lemma PartyIgnored()
    ensures Classify("LED_PARTY") == Ignored
  {
    assert "LED_PARTY"[4] != OnPrefix[4];
    OtherTextIgnored("LED_PARTY");
  }

  /** `LED_ON` without its colon is not a command either. */
  lemma OnWithoutColonIgnored()
    ensures Classify("LED_ON") == Ignored
  {
    OtherTextIgnored("LED_ON");
  }

  // ---------------------------------------------------------------------
  // The controller: the firmware's globals, callbacks, `setup` and `loop`

  class Controller {
    var pin: Level
    /** The characteristic's current value. */
    var value: string
    var deviceConnected: bool
    var oldDeviceConnected: bool
    var effects: seq<Effect>

    /** The globals before `setup` runs. */
    constructor ()
      ensures pin == High && value == [] && !deviceConnected && !oldDeviceConnected && effects == []
    {
      pin := High;
      value := [];
      deviceConnected := false;
      oldDeviceConnected := false;
      effects := [];
    }

    /** The LED is off between handlers. */
    predicate Idle()
      reads this
    {
      pin == High
    }

    /** `setup`: LED off, the ready value, advertising, then three 200 ms blinks. */
    method Setup()
      modifies this`pin, this`value, this`effects
      ensures pin == High && value == ReadyValue
      ensures effects == old(effects) + [PinWrite(High), StartAdvertising] + SetupBlinks(3)
    {
      pin := High;
      effects := effects + [PinWrite(High)];
      value := ReadyValue;
      effects := effects + [StartAdvertising];
      var i := 0;
      while i < 3
        invariant 0 <= i <= 3
        invariant pin == High && value == ReadyValue
        invariant effects == old(effects) + [PinWrite(High), StartAdvertising] + SetupBlinks(i)
      {
        pin := Low;
        effects := effects + [PinWrite(Low), Wait(200)];
        pin := High;
        effects := effects + [PinWrite(High), Wait(200)];
        i := i + 1;
      }
    }

    /** `MyServerCallbacks::onConnect`. */
    method OnConnect()
      modifies this`deviceConnected
      ensures deviceConnected
    {
      deviceConnected := true;
    }

    /** `MyServerCallbacks::onDisconnect`. */
    method OnDisconnect()
      modifies this`deviceConnected
      ensures !deviceConnected
    {
      deviceConnected := false;
    }

    /**
     * A client's write of the bytes `raw`: the BLE stack stores them as the
     * characteristic's value, then calls `MyCallbacks::onWrite`, which reads
     * them back with `getValue`.
     */
    method OnWrite(raw: string)
      requires Idle()
      modifies this`pin, this`value, this`effects
      ensures Idle()
      ensures effects == old(effects) + CommandEffects(Classify(raw))
      ensures value == if Classify(raw) == Ping then "PONG" else raw
    {
      value := raw;
      if |raw| > 0 {
        var command := CString(raw);
        if OnPrefix <= command {
          var duration := ToInt(command[|OnPrefix|..]);
          if duration == 0 {
            duration := DefaultDuration;
          }
          pin := Low;
          effects := effects + [PinWrite(Low)];
          effects := effects + [Wait(AsDelay(duration))];
          pin := High;
          effects := effects + [PinWrite(High)];
          assert Classify(raw) == LedOn(duration);
        } else if command == "LED_OFF" {
          pin := High;
          effects := effects + [PinWrite(High)];
          assert Classify(raw) == LedOff;
        } else if command == "PING" {
          value := "PONG";
          effects := effects + [Notify(value)];
          assert Classify(raw) == Ping;
        } else {
          assert Classify(raw) == Ignored;
        }
      } else {
        assert Classify(raw) == Ignored;
      }
    }

    /** One pass of `loop`. */
    method Loop()
      modifies this`oldDeviceConnected, this`effects
      ensures oldDeviceConnected == deviceConnected
      ensures effects == old(effects)
        + (if !deviceConnected && old(oldDeviceConnected) then [Wait(500), StartAdvertising] else [])
        + [Wait(100)]
    {
      if !deviceConnected && oldDeviceConnected {
        effects := effects + [Wait(500), StartAdvertising];
        oldDeviceConnected := deviceConnected;
      }
      if deviceConnected && !oldDeviceConnected {
        oldDeviceConnected := deviceConnected;
      }
      effects := effects + [Wait(100)];
    }
  }

  /** `n` blinks of `setup`: LOW, 200 ms, HIGH, 200 ms. */
  function SetupBlinks(n: nat): seq<Effect> {
    if n == 0 then [] else SetupBlinks(n - 1) + [PinWrite(Low), Wait(200), PinWrite(High), Wait(200)]
  }

  /** `setup` lights the LED three times and leaves it off. */
  lemma {:induction false} SetupBlinksShape(n: nat)
    ensures |SetupBlinks(n)| == 4 * n
    ensures forall k :: 0 <= k < n ==> SetupBlinks(n)[4 * k] == PinWrite(Low) && SetupBlinks(n)[4 * k + 2] == PinWrite(High)
    ensures n > 0 ==> SetupBlinks(n)[4 * n - 2] == PinWrite(High)
  {
    if n > 0 {
      SetupBlinksShape(n - 1);
      var prev := SetupBlinks(n - 1);
      assert forall k :: 0 <= k < n - 1 ==> SetupBlinks(n)[4 * k] == prev[4 * k] && SetupBlinks(n)[4 * k + 2] == prev[4 * k + 2];
    }
  }
}
