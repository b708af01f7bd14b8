/**
 * What the firmware makes of the commands the iOS app sends. The app's only
 * colour commands start with `LED_COLOR:`, a prefix the firmware's
 * dispatcher does not know, so they leave the LED untouched; `LED_OFF` is
 * the one app command the firmware acts on.
 */
module CommandCompat {
  import LedApp
  import Firmware

  /** No text starting with `LED_COLOR:` is a firmware command. */
  lemma ColorPrefixIgnored(s: string)
    requires LedApp.ColorPrefix <= s
    ensures Firmware.Classify(s) == Firmware.Ignored
    ensures Firmware.CommandEffects(Firmware.Classify(s)) == []
  {
    if s != [] && s[0] != '\0' {
      var c := Firmware.CString(s);
      // `CString` keeps at least the NUL-free prefix `LED_COLOR:`, which differs from `LED_ON:` at index 4.
      CStringKeepsPlainPrefix(s, LedApp.ColorPrefix);
      assert c[4] == 'C' && Firmware.OnPrefix[4] == 'O';
      assert |c| >= |LedApp.ColorPrefix|;
    }
  }

  lemma {:induction false} CStringKeepsPlainPrefix(s: string, p: string)
    requires p <= s && '\0' !in p
    ensures p <= Firmware.CString(s)
  {
    if p != [] {
      assert s[0] == p[0];
      CStringKeepsPlainPrefix(s[1..], p[1..]);
    }
  }

  /** The flash the app sends for a new query does nothing on the firmware. */
  lemma QueryFlashIgnored(c: LedApp.Rgb)
    ensures Firmware.Classify(LedApp.QueryFlashCommand(c)) == Firmware.Ignored
  {
    ColorPrefixIgnored(LedApp.QueryFlashCommand(c));
  }

  /** The colour picker's command does nothing on the firmware either. */
  lemma ColorPickerIgnored(c: LedApp.Rgb)
    ensures Firmware.Classify(LedApp.ColorPickerCommand(c)) == Firmware.Ignored
  {
    ColorPrefixIgnored(LedApp.ColorPickerCommand(c));
  }

  /** `LED_OFF`, sent when the colour picker is closed or LEDs are switched off, drives the pin HIGH. */
  lemma OffCommandUnderstood()
    ensures Firmware.Classify(LedApp.OffCommand) == Firmware.LedOff
    ensures Firmware.CommandEffects(Firmware.Classify(LedApp.OffCommand)) == [Firmware.PinWrite(Firmware.High)]
  {
    Firmware.CStringOfPlain(LedApp.OffCommand);
  }
}
