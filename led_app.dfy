/**
 * The iOS LED bridge (HalloweenLEDApp.swift): `APIManager` polls the
 * server's query total and, when it has grown past the last total it
 * processed, asks `BLEManager` to send a colour-flash command to the ESP32.
 *
 * Network replies and CoreBluetooth callbacks are inputs of the methods that
 * handle them; JSON decoding is reduced to the decoded value or a failure.
 */
module LedApp {
  import opened Decimal

  // ---------------------------------------------------------------------
  // Command strings

  type Channel = c: int | 0 <= c <= 255

  /** A colour as the app sends it: `Color.toRGB()`'s three integer channels. */
  datatype Rgb = Rgb(red: Channel, green: Channel, blue: Channel)

  const ColorPrefix: string := "LED_COLOR:"
  const FlashSuffix: string := ":3000"
  const OffCommand: string := "LED_OFF"

  /** `"\(r),\(g),\(b)"`. */
  function ChannelsText(c: Rgb): string {
    NatToString(c.red) + "," + NatToString(c.green) + "," + NatToString(c.blue)
  }

  /** The flash sent for a new query: `LED_COLOR:<r>,<g>,<b>:3000`. */
  function QueryFlashCommand(c: Rgb): string {
    ColorPrefix + ChannelsText(c) + FlashSuffix
  }

  /** The colour-picker command: `LED_COLOR:<r>,<g>,<b>`, with no duration. */
  function ColorPickerCommand(c: Rgb): string {
    ColorPrefix + ChannelsText(c)
  }

  /** The text before the first `sep`, and the text after it. */
  function SplitOnce(s: string, sep: char): Option<(string, string)>
    decreases |s|
  {
    if s == [] then None
    else if s[0] == sep then Some(([], s[1..]))
    else
      match SplitOnce(s[1..], sep)
      case None => None
      case Some(parts) => Some(([s[0]] + parts.0, parts.1))
  }

  /** A channel written as one or more decimal digits. */
  function ParseChannel(s: string): Option<Channel> {
    if s != [] && AllDigits(s) && DigitsValue(s) <= 255 then Some(DigitsValue(s)) else None
  }

  /** The blue channel and the optional `:<duration>` after it. */
  function ReadBlueAndDuration(t: string): Option<(Channel, Option<nat>)> {
    match SplitOnce(t, ':')
    case None =>
      var b := ParseChannel(t);
      if b.None? then None else Some((b.value, None))
    case Some(parts) =>
      var b := ParseChannel(parts.0);
      var duration := ParseNumber(parts.1);
      if b.None? || parts.1 == [] || duration.None? then None else Some((b.value, Some(duration.value)))
  }

  /** `<r>,<g>,<b>[:<duration>]`. */
  function ReadChannels(body: string): Option<(Rgb, Option<nat>)> {
    match SplitOnce(body, ',')
    case None => None
    case Some(p1) =>
      match SplitOnce(p1.1, ',')
      case None => None
      case Some(p2) =>
        var r := ParseChannel(p1.0);
        var g := ParseChannel(p2.0);
        var rest := ReadBlueAndDuration(p2.1);
        if r.None? || g.None? || rest.None? then None
        else Some((Rgb(r.value, g.value, rest.value.0), rest.value.1))
  }

  /**
   * How a receiver reads a `LED_COLOR` command literally: the three channels
   * and, when a further `:` follows, the duration in milliseconds.
   */
  function ReadColorCommand(s: string): Option<(Rgb, Option<nat>)> {
    if |s| < |ColorPrefix| || s[..|ColorPrefix|] != ColorPrefix then None
    else ReadChannels(s[|ColorPrefix|..])
  }

  lemma {:induction false} SplitOnceAt(a: string, sep: char, b: string)
    requires sep !in a
    ensures SplitOnce(a + [sep] + b, sep) == Some((a, b))
  {
    if a == [] {
      assert a + [sep] + b == [sep] + b;
    } else {
      assert (a + [sep] + b)[0] == a[0] != sep;
      assert (a + [sep] + b)[1..] == a[1..] + [sep] + b;
      SplitOnceAt(a[1..], sep, b);
      assert [a[0]] + a[1..] == a;
    }
  }

  lemma {:induction false} SplitOnceAbsent(a: string, sep: char)
    requires sep !in a
    ensures SplitOnce(a, sep) == None
  {
    if a != [] { SplitOnceAbsent(a[1..], sep); }
  }

  lemma ChannelText(x: Channel)
    ensures ',' !in NatToString(x) && ':' !in NatToString(x)
    ensures ParseChannel(NatToString(x)) == Some(x)
  {
    DigitsOfNatToString(x);
    var s := NatToString(x);
    assert forall i :: 0 <= i < |s| ==> IsDigit(s[i]);
    assert forall i :: 0 <= i < |s| ==> s[i] != ',' && s[i] != ':';
  }

  lemma ReadBlueWithDuration(b: Channel)
    ensures ReadBlueAndDuration(NatToString(b) + FlashSuffix) == Some((b, Some(3000)))
  {
    ChannelText(b);
    assert NatToString(b) + FlashSuffix == NatToString(b) + [':'] + "3000";
    SplitOnceAt(NatToString(b), ':', "3000");
    ReadThreeThousand();
  }

  lemma ReadThreeThousand()
    ensures ParseNumber("3000") == Some(3000)
  {
    assert NatToString(3000) == "3000";
    ParseNatToString(3000);
  }

  lemma ReadBlueAlone(b: Channel)
    ensures ReadBlueAndDuration(NatToString(b)) == Some((b, None))
  {
    ChannelText(b);
    SplitOnceAbsent(NatToString(b), ':');
  }

  lemma ReadChannelsOf(c: Rgb, tail: string)
    ensures ReadChannels(NatToString(c.red) + "," + NatToString(c.green) + "," + tail) ==
      match ReadBlueAndDuration(tail)
      case None => None
      case Some(rest) => Some((Rgb(c.red, c.green, rest.0), rest.1))
  {
    ChannelText(c.red);
    ChannelText(c.green);
    var r, g := NatToString(c.red), NatToString(c.green);
    assert r + "," + g + "," + tail == r + [','] + (g + [','] + tail);
    SplitOnceAt(r, ',', g + [','] + tail);
    SplitOnceAt(g, ',', tail);
  }

  lemma ReadPrefixed(body: string)
    ensures ReadColorCommand(ColorPrefix + body) == ReadChannels(body)
  {
    assert (ColorPrefix + body)[..|ColorPrefix|] == ColorPrefix;
    assert (ColorPrefix + body)[|ColorPrefix|..] == body;
  }

  /** The flash command carries exactly its colour and a 3000 ms duration. */
  lemma ReadQueryFlash(c: Rgb)
    ensures ReadColorCommand(QueryFlashCommand(c)) == Some((c, Some(3000)))
  {
    var r, g, b := NatToString(c.red), NatToString(c.green), NatToString(c.blue);
    assert QueryFlashCommand(c) == ColorPrefix + (r + "," + g + "," + (b + FlashSuffix));
    ReadPrefixed(r + "," + g + "," + (b + FlashSuffix));
    ReadChannelsOf(c, b + FlashSuffix);
    ReadBlueWithDuration(c.blue);
  }

  /** The colour-picker command carries exactly its colour and no duration. */
  lemma ReadColorPicker(c: Rgb)
    ensures ReadColorCommand(ColorPickerCommand(c)) == Some((c, None))
  {
    var r, g, b := NatToString(c.red), NatToString(c.green), NatToString(c.blue);
    assert ColorPickerCommand(c) == ColorPrefix + (r + "," + g + "," + b);
    ReadPrefixed(r + "," + g + "," + b);
    ReadChannelsOf(c, b);
    ReadBlueAlone(c.blue);
  }

  /** Two different colours never produce the same flash command, and a flash is never a picker command. */
  lemma CommandsAreDistinct(c: Rgb, d: Rgb)
    ensures QueryFlashCommand(c) == QueryFlashCommand(d) ==> c == d
    ensures ColorPickerCommand(c) == ColorPickerCommand(d) ==> c == d
    ensures QueryFlashCommand(c) != ColorPickerCommand(d)
  {
    ReadQueryFlash(c);
    ReadQueryFlash(d);
    ReadColorPicker(c);
    ReadColorPicker(d);
  }

  // ---------------------------------------------------------------------
  // The processed-total watermark

  /** `lastProcessedQueryCount` after a successfully decoded total. */
  function Watermark(last: int, total: int): int {
    if total > last then total else last
  }

  /** The watermark after a run of decoded totals. */
  function WatermarkAfter(start: int, totals: seq<int>): int
    decreases |totals|
  {
    if totals == [] then start else Watermark(WatermarkAfter(start, totals[..|totals| - 1]), totals[|totals| - 1])
  }

  /** Whether the `j`-th decoded total counts as a new query (and flashes when connected). */
  predicate IsNewQuery(start: int, totals: seq<int>, j: nat)
    requires j < |totals|
  {
    totals[j] > WatermarkAfter(start, totals[..j])
  }

  /** The watermark never decreases and is the largest of its start and all totals seen. */
  lemma {:induction false} WatermarkIsMaximum(start: int, totals: seq<int>)
    ensures WatermarkAfter(start, totals) >= start
    ensures forall k :: 0 <= k < |totals| ==> WatermarkAfter(start, totals) >= totals[k]
    ensures WatermarkAfter(start, totals) == start || WatermarkAfter(start, totals) in totals
    decreases |totals|
  {
    if totals != [] {
      var init := totals[..|totals| - 1];
      WatermarkIsMaximum(start, init);
      assert forall k :: 0 <= k < |init| ==> init[k] == totals[k];
    }
  }

  lemma {:induction false} WatermarkMonotone(start: int, totals: seq<int>, i: nat, j: nat)
    requires i <= j <= |totals|
    ensures WatermarkAfter(start, totals[..i]) <= WatermarkAfter(start, totals[..j])
    decreases j - i
  {
    if i < j {
      WatermarkMonotone(start, totals, i, j - 1);
      assert totals[..j][..j - 1] == totals[..j - 1];
    }
  }

  /**
   * A total already seen is never flashed again: once poll `i` saw total
   * `totals[i]`, a later poll of a total no larger does not count as new,
   * also when poll `i` itself could not flash because BLE was disconnected.
   */
  lemma SeenTotalNeverFlashedAgain(start: int, totals: seq<int>, i: nat, j: nat)
    requires i < j < |totals| && totals[j] <= totals[i]
    ensures !IsNewQuery(start, totals, j)
  {
    WatermarkMonotone(start, totals, i + 1, j);
    assert totals[..i + 1][..i] == totals[..i];
  }

  /** With the counter starting at 0, the first decoded total counts as new exactly when it is positive. */
  lemma FirstPollFiresOnAnyQuery(totals: seq<int>)
    requires |totals| > 0
    ensures IsNewQuery(0, totals, 0) <==> totals[0] > 0
  {
    assert totals[..0] == [];
  }

  // ---------------------------------------------------------------------
  // BLEManager

  const DeviceName: string := "SpookyGPT-LEDS"
  const ServiceUuid: string := "12345678-1234-1234-1234-123456789abc"
  const CharacteristicUuid: string := "87654321-4321-4321-4321-cba987654321"

  datatype CentralState = PoweredOn | PoweredOff | Unauthorized | Unsupported | Resetting | Unknown

  /** A discovered peripheral, by advertised name and identity. */
  datatype Peripheral = Peripheral(name: Option<string>, id: nat)

  /** A discovered characteristic, by UUID and identity. */
  datatype Characteristic = Characteristic(uuid: string, id: nat)

  function StateMessage(state: CentralState): string {
    match state
    case PoweredOn => "Bluetooth ready"
    case PoweredOff => "Bluetooth is off"
    case Unauthorized => "Bluetooth permission denied"
    case Unsupported => "Bluetooth not supported"
    case Resetting => "Bluetooth resetting"
    case Unknown => "Bluetooth state unknown"
  }

  /** The last characteristic with the LED UUID, or `current` when there is none. */
  function LastMatching(characteristics: seq<Characteristic>, current: Option<Characteristic>): Option<Characteristic>
    decreases |characteristics|
  {
    if characteristics == [] then current
    else
      var last := characteristics[|characteristics| - 1];
      if last.uuid == CharacteristicUuid then Some(last)
      else LastMatching(characteristics[..|characteristics| - 1], current)
  }

  /** The chosen characteristic is one with the LED UUID from the list, or the previous one when none matches. */
  lemma {:induction false} LastMatchingIsMatch(characteristics: seq<Characteristic>, current: Option<Characteristic>)
    ensures var r := LastMatching(characteristics, current);
      (exists k :: 0 <= k < |characteristics| && characteristics[k].uuid == CharacteristicUuid) ==>
        r.Some? && r.value in characteristics && r.value.uuid == CharacteristicUuid
    ensures (forall k :: 0 <= k < |characteristics| ==> characteristics[k].uuid != CharacteristicUuid) ==>
      LastMatching(characteristics, current) == current
    decreases |characteristics|
  {
    if characteristics != [] {
      var init := characteristics[..|characteristics| - 1];
      LastMatchingIsMatch(init, current);
      assert forall k :: 0 <= k < |init| ==> init[k] == characteristics[k];
      if characteristics[|characteristics| - 1].uuid != CharacteristicUuid {
        if exists k :: 0 <= k < |characteristics| && characteristics[k].uuid == CharacteristicUuid {
          var k :| 0 <= k < |characteristics| && characteristics[k].uuid == CharacteristicUuid;
          assert k < |init| && init[k].uuid == CharacteristicUuid;
        }
      }
    }
  }

  /** The status line `sendCommand(command)` leaves: a refusal without a characteristic. */
  function SentStatus(target: Option<Characteristic>, command: string): string {
    if target.None? then "Not connected to ESP32" else "Sent: " + command
  }

  class BleManager {
    var centralState: CentralState
    var connectedPeripheral: Option<Peripheral>
    var targetCharacteristic: Option<Characteristic>
    var isConnected: bool
    var isScanning: bool
    var statusMessage: string
    /** The commands handed to `writeValue`, oldest first. */
    var written: seq<string>
    /** The peripherals handed to `cancelPeripheralConnection`, oldest first. */
    var cancelled: seq<Peripheral>

    constructor ()
      ensures centralState == Unknown && connectedPeripheral.None? && targetCharacteristic.None?
      ensures !isConnected && !isScanning && statusMessage == "Ready to connect" && written == []
      ensures cancelled == []
    {
      centralState := Unknown;
      connectedPeripheral := None;
      targetCharacteristic := None;
      isConnected := false;
      isScanning := false;
      statusMessage := "Ready to connect";
      written := [];
      cancelled := [];
    }

    /** The writes after `sendCommand(command)`. */
    function WrittenAfterSend(command: string): seq<string>
      reads this
    {
      if targetCharacteristic.Some? && connectedPeripheral.Some? then written + [command] else written
    }

    /**
     * `sendCommand`: without a discovered characteristic nothing is written and
     * the status says so; otherwise the command goes to the connected
     * peripheral, if there still is one.
     */
    method SendCommand(command: string)
      modifies this`statusMessage, this`written
      ensures written == old(WrittenAfterSend(command))
      ensures statusMessage == SentStatus(targetCharacteristic, command)
    {
      if targetCharacteristic.None? {
        statusMessage := "Not connected to ESP32";
        return;
      }
      if connectedPeripheral.Some? {
        written := written + [command];
      }
      statusMessage := "Sent: " + command;
    }

    /** `centralManagerDidUpdateState`. */
    method DidUpdateState(state: CentralState)
      modifies this`centralState, this`statusMessage, this`isConnected
      ensures centralState == state && statusMessage == StateMessage(state)
      ensures isConnected == (old(isConnected) && state != PoweredOff)
    {
      centralState := state;
      statusMessage := StateMessage(state);
      if state == PoweredOff {
        isConnected := false;
      }
    }

    /** `startScanning`: refused unless Bluetooth is powered on. */
    method StartScanning()
      modifies this`isScanning, this`statusMessage
      ensures centralState != PoweredOn ==> isScanning == old(isScanning) && statusMessage == "Bluetooth not available"
      ensures centralState == PoweredOn ==> isScanning && statusMessage == "Scanning for " + DeviceName + "..."
    {
      if centralState != PoweredOn {
        statusMessage := "Bluetooth not available";
        return;
      }
      isScanning := true;
      statusMessage := "Scanning for " + DeviceName + "...";
    }

    method StopScanning()
      modifies this`isScanning
      ensures !isScanning
    {
      isScanning := false;
    }

    /** The ten-second scan timeout. */
    method ScanTimedOut()
      modifies this`isScanning, this`statusMessage
      ensures !isScanning
      ensures old(isScanning) ==> statusMessage == "Device not found. Make sure ESP32 is running."
      ensures !old(isScanning) ==> statusMessage == old(statusMessage)
    {
      if isScanning {
        StopScanning();
        statusMessage := "Device not found. Make sure ESP32 is running.";
      }
    }

    /**
     * `disconnect`: asks the central to cancel the connection to the connected
     * peripheral, if there is one. The connection state itself changes only
     * when the central reports the disconnection.
     */
    method Disconnect()
      modifies this`cancelled
      ensures connectedPeripheral.Some? ==> cancelled == old(cancelled) + [connectedPeripheral.value]
      ensures connectedPeripheral.None? ==> cancelled == old(cancelled)
    {
      if connectedPeripheral.Some? {
        cancelled := cancelled + [connectedPeripheral.value];
      }
    }

    /** `didDiscover`: only the LED controller's name is taken up. */
    method DidDiscover(peripheral: Peripheral)
      modifies this`isScanning, this`connectedPeripheral, this`statusMessage
      ensures peripheral.name == Some(DeviceName) ==>
        !isScanning && connectedPeripheral == Some(peripheral) && statusMessage == "Connecting to " + DeviceName + "..."
      ensures peripheral.name != Some(DeviceName) ==>
        isScanning == old(isScanning) && connectedPeripheral == old(connectedPeripheral) && statusMessage == old(statusMessage)
    {
      if peripheral.name == Some(DeviceName) {
        StopScanning();
        connectedPeripheral := Some(peripheral);
        statusMessage := "Connecting to " + DeviceName + "...";
      }
    }

    /** `didConnect`. */
    method DidConnect()
      modifies this`isConnected, this`statusMessage
      ensures isConnected && statusMessage == "Connected to " + DeviceName
    {
      isConnected := true;
      statusMessage := "Connected to " + DeviceName;
    }

    /** `didDisconnectPeripheral`: forgets the peripheral and the characteristic. */
    method DidDisconnect()
      modifies this`isConnected, this`statusMessage, this`connectedPeripheral, this`targetCharacteristic
      ensures !isConnected && connectedPeripheral.None? && targetCharacteristic.None?
      ensures statusMessage == "Disconnected from " + DeviceName
    {
      isConnected := false;
      statusMessage := "Disconnected from " + DeviceName;
      connectedPeripheral := None;
      targetCharacteristic := None;
    }

    /** `didDiscoverCharacteristicsFor`: keeps the last characteristic with the LED UUID. */
    method DidDiscoverCharacteristics(characteristics: Option<seq<Characteristic>>)
      modifies this`targetCharacteristic, this`statusMessage
      ensures characteristics.None? ==>
        targetCharacteristic == old(targetCharacteristic) && statusMessage == old(statusMessage)
      ensures characteristics.Some? ==> targetCharacteristic == LastMatching(characteristics.value, old(targetCharacteristic))
      ensures characteristics.Some? ==> (statusMessage ==
        if exists k :: 0 <= k < |characteristics.value| && characteristics.value[k].uuid == CharacteristicUuid
        then "\U{2705} Ready to send commands" else old(statusMessage))
    {
      if characteristics.None? {
        return;
      }
      var list := characteristics.value;
      var i := 0;
      while i < |list|
        invariant 0 <= i <= |list|
        invariant targetCharacteristic == LastMatching(list[..i], old(targetCharacteristic))
        invariant statusMessage == if exists k :: 0 <= k < i && list[k].uuid == CharacteristicUuid
          then "\U{2705} Ready to send commands" else old(statusMessage)
      {
        assert list[..i + 1][..i] == list[..i];
        if list[i].uuid == CharacteristicUuid {
          targetCharacteristic := Some(list[i]);
          statusMessage := "\U{2705} Ready to send commands";
        }
        i := i + 1;
      }
      assert list[..i] == list;
    }
  }

  // ---------------------------------------------------------------------
  // APIManager

  /** What the login request came to. */
  datatype LoginReply = LoginNetworkError(description: string) | LoginNoData
    | LoginDecoded(token: string, success: bool) | LoginUndecodable(description: string)

  /** What a status request came to. */
  datatype StatusReply = StatusNetworkError(description: string) | StatusNoData
    | StatusDecoded(totalQueries: int) | StatusUndecodable(description: string)

  class ApiManager {
    var ledStatus: Option<int>
    var lastError: Option<string>
    var isPolling: bool
    var isAuthenticated: bool
    /** Whether the repeating poll timer is scheduled. */
    var pollingTimer: bool
    /** Whether `URL(string:)` accepts the base URL followed by an endpoint path. */
    const urlValid: bool
    var authToken: Option<string>
    var lastProcessedQueryCount: int
    var bleManager: BleManager?
    var selectedColor: Rgb

    constructor (urlValid: bool, initialColor: Rgb)
      ensures this.urlValid == urlValid && selectedColor == initialColor
      ensures ledStatus.None? && lastError.None? && !isPolling && !isAuthenticated && !pollingTimer
      ensures authToken.None? && lastProcessedQueryCount == 0 && bleManager == null
    {
      ledStatus := None;
      lastError := None;
      isPolling := false;
      isAuthenticated := false;
      pollingTimer := false;
      this.urlValid := urlValid;
      authToken := None;
      lastProcessedQueryCount := 0;
      bleManager := null;
      selectedColor := initialColor;
    }

    method SetBleManager(manager: BleManager)
      modifies this`bleManager
      ensures bleManager == manager
    {
      bleManager := manager;
    }

    /** The content view passes every newly picked colour on. */
    method SetSelectedColor(color: Rgb)
      modifies this`selectedColor
      ensures selectedColor == color
    {
      selectedColor := color;
    }

    /**
     * `login`, with the server's reply given: the token is stored and the
     * manager authenticated only for a decoded reply whose `success` is true.
     * The result is what the completion handler receives.
     */
    method Login(reply: LoginReply) returns (ok: bool, message: Option<string>)
      modifies this`authToken, this`isAuthenticated
      ensures ok <==> urlValid && reply.LoginDecoded? && reply.success
      ensures ok ==> authToken == Some(reply.token) && isAuthenticated && message.None?
      ensures !ok ==> authToken == old(authToken) && isAuthenticated == old(isAuthenticated) && message.Some?
      ensures !urlValid ==> message == Some("Invalid URL")
      ensures urlValid && reply.LoginDecoded? && !reply.success ==> message == Some("Invalid password")
    {
      if !urlValid {
        return false, Some("Invalid URL");
      }
      match reply
      case LoginNetworkError(description) =>
        return false, Some("Network error: " + description);
      case LoginNoData =>
        return false, Some("No data received");
      case LoginUndecodable(description) =>
        return false, Some("JSON error: " + description);
      case LoginDecoded(token, success) =>
        if success {
          authToken := Some(token);
          isAuthenticated := true;
          return true, None;
        } else {
          return false, Some("Invalid password");
        }
    }

    method StopPolling()
      modifies this`pollingTimer, this`isPolling
      ensures !pollingTimer && !isPolling
    {
      pollingTimer := false;
      isPolling := false;
    }

    /** `logout`: forgets the token and stops polling; the processed total is kept. */
    method Logout()
      modifies this`authToken, this`isAuthenticated, this`pollingTimer, this`isPolling
      ensures authToken.None? && !isAuthenticated && !isPolling && !pollingTimer
    {
      authToken := None;
      isAuthenticated := false;
      StopPolling();
    }

    /**
     * One status fetch and the handling of its reply: a decoded total is shown,
     * clears the error, and when it exceeds the processed total it becomes the
     * new processed total and is flashed if BLE is connected.
     */
    method FetchLedStatus(reply: StatusReply) returns (flashed: bool)
      modifies this`ledStatus, this`lastError, this`lastProcessedQueryCount, bleManager
      ensures bleManager != null ==> unchanged(bleManager`centralState, bleManager`connectedPeripheral,
        bleManager`targetCharacteristic, bleManager`isConnected, bleManager`isScanning, bleManager`cancelled)
      ensures (!urlValid ==> lastError == Some("Invalid URL"))
        && (urlValid && authToken.None? ==> lastError == Some("Not authenticated"))
        && (!(urlValid && authToken.Some? && reply.StatusDecoded?) ==> (ledStatus == old(ledStatus)
              && lastProcessedQueryCount == old(lastProcessedQueryCount) && lastError.Some? && !flashed))
        && (urlValid && authToken.Some? && reply.StatusDecoded? ==> (ledStatus == Some(reply.totalQueries) && lastError.None?
              && lastProcessedQueryCount == Watermark(old(lastProcessedQueryCount), reply.totalQueries)
              && flashed == (reply.totalQueries > old(lastProcessedQueryCount) && bleManager != null && old(bleManager.isConnected))))
        && (flashed ==> (bleManager.written == old(bleManager.WrittenAfterSend(QueryFlashCommand(selectedColor)))
              && bleManager.statusMessage == SentStatus(bleManager.targetCharacteristic, QueryFlashCommand(selectedColor))))
        && (!flashed && bleManager != null ==> (bleManager.written == old(bleManager.written)
              && bleManager.statusMessage == old(bleManager.statusMessage)))
    {
      flashed := false;
      if !urlValid {
        lastError := Some("Invalid URL");
        return;
      }
      if authToken.None? {
        lastError := Some("Not authenticated");
        return;
      }
      match reply
      case StatusNetworkError(description) =>
        lastError := Some("Network error: " + description);
      case StatusNoData =>
        lastError := Some("No data received");
      case StatusUndecodable(description) =>
        lastError := Some("JSON error: " + description);
      case StatusDecoded(totalQueries) =>
        ledStatus := Some(totalQueries);
        lastError := None;
        if totalQueries > lastProcessedQueryCount {
          lastProcessedQueryCount := totalQueries;
          if bleManager != null && bleManager.isConnected {
            SendQueryLedCommand(bleManager);
            flashed := true;
          }
        }
    }

    /** `sendQueryLEDCommand`: the selected colour for three seconds. */
    method SendQueryLedCommand(manager: BleManager)
      modifies manager`statusMessage, manager`written
      ensures manager.written == old(manager.WrittenAfterSend(QueryFlashCommand(selectedColor)))
      ensures manager.statusMessage == SentStatus(manager.targetCharacteristic, QueryFlashCommand(selectedColor))
    {
      manager.SendCommand(QueryFlashCommand(selectedColor));
    }

    /**
     * `startPolling`: refused without authentication; otherwise polling
     * restarts, the first fetch happens at once and the timer is scheduled.
     */
    method StartPolling(firstReply: StatusReply) returns (flashed: bool)
      modifies this`lastError, this`pollingTimer, this`isPolling, this`ledStatus, this`lastProcessedQueryCount,
        bleManager
      ensures bleManager != null ==> unchanged(bleManager`centralState, bleManager`connectedPeripheral,
        bleManager`targetCharacteristic, bleManager`isConnected, bleManager`isScanning, bleManager`cancelled)
      ensures !isAuthenticated ==> (lastError == Some("Not authenticated. Please login first.") && !flashed
        && isPolling == old(isPolling) && pollingTimer == old(pollingTimer)
        && ledStatus == old(ledStatus) && lastProcessedQueryCount == old(lastProcessedQueryCount)
        && (bleManager != null ==> (bleManager.written == old(bleManager.written)
              && bleManager.statusMessage == old(bleManager.statusMessage))))
      ensures isAuthenticated ==> isPolling && pollingTimer
      ensures isAuthenticated ==> ((!urlValid ==> lastError == Some("Invalid URL"))
        && (urlValid && authToken.None? ==> lastError == Some("Not authenticated"))
        && (!(urlValid && authToken.Some? && firstReply.StatusDecoded?) ==> (ledStatus == old(ledStatus)
              && lastProcessedQueryCount == old(lastProcessedQueryCount) && lastError.Some? && !flashed))
        && (urlValid && authToken.Some? && firstReply.StatusDecoded? ==> (ledStatus == Some(firstReply.totalQueries) && lastError.None?
              && lastProcessedQueryCount == Watermark(old(lastProcessedQueryCount), firstReply.totalQueries)
              && flashed == (firstReply.totalQueries > old(lastProcessedQueryCount) && bleManager != null && old(bleManager.isConnected))))
        && (flashed ==> (bleManager.written == old(bleManager.WrittenAfterSend(QueryFlashCommand(selectedColor)))
              && bleManager.statusMessage == SentStatus(bleManager.targetCharacteristic, QueryFlashCommand(selectedColor))))
        && (!flashed && bleManager != null ==> (bleManager.written == old(bleManager.written)
              && bleManager.statusMessage == old(bleManager.statusMessage))))
      ensures lastProcessedQueryCount >= old(lastProcessedQueryCount)
    {
      flashed := false;
      if !isAuthenticated {
        lastError := Some("Not authenticated. Please login first.");
        return;
      }
      StopPolling();
      isPolling := true;
      flashed := FetchLedStatus(firstReply);
      pollingTimer := true;
    }

    /** One firing of the repeating poll timer. */
    method TimerFired(reply: StatusReply) returns (flashed: bool)
      requires pollingTimer
      modifies this`ledStatus, this`lastError, this`lastProcessedQueryCount, bleManager
      ensures bleManager != null ==> unchanged(bleManager`centralState, bleManager`connectedPeripheral,
        bleManager`targetCharacteristic, bleManager`isConnected, bleManager`isScanning, bleManager`cancelled)
      ensures (!urlValid ==> lastError == Some("Invalid URL"))
        && (urlValid && authToken.None? ==> lastError == Some("Not authenticated"))
        && (!(urlValid && authToken.Some? && reply.StatusDecoded?) ==> (ledStatus == old(ledStatus)
              && lastProcessedQueryCount == old(lastProcessedQueryCount) && lastError.Some? && !flashed))
        && (urlValid && authToken.Some? && reply.StatusDecoded? ==> (ledStatus == Some(reply.totalQueries) && lastError.None?
              && lastProcessedQueryCount == Watermark(old(lastProcessedQueryCount), reply.totalQueries)
              && flashed == (reply.totalQueries > old(lastProcessedQueryCount) && bleManager != null && old(bleManager.isConnected))))
        && (flashed ==> (bleManager.written == old(bleManager.WrittenAfterSend(QueryFlashCommand(selectedColor)))
              && bleManager.statusMessage == SentStatus(bleManager.targetCharacteristic, QueryFlashCommand(selectedColor))))
        && (!flashed && bleManager != null ==> (bleManager.written == old(bleManager.written)
              && bleManager.statusMessage == old(bleManager.statusMessage)))
    {
      flashed := FetchLedStatus(reply);
    }
  }
}
