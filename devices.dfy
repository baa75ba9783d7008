/** The parse part of `getDeviceData`: the decoded device list of the Tahoma gateway is
    narrowed to one device (or kept whole) and each entry is reduced to its name, its id,
    its widget name and, from its `core:ManufacturerSettingsState`, the raw position and
    tilt together with the derived `up` and `down`. Raw positions run from 0 (retracted)
    to 51200 (extended). */
module Devices {
  import opened Strings

  const ManufacturerSettingsState: string := "core:ManufacturerSettingsState"

  /** One element of a device's `states`: its name and, for the settings state, the
      `current_position` and the `current_tilt` (absent or `null` is `None`). */
  datatype RawState = RawState(name: string, position: int, tilt: Option<int>)

  /** One element of the decoded device list. */
  datatype RawDevice = RawDevice(deviceLabel: string, deviceURL: string, widgetName: string, states: seq<RawState>)

  /** What the settings state contributes to a device record. */
  datatype Settings = Settings(position: int, tilt: Option<int>, up: bool, down: bool)

  /** A device record: `name`, `id`, `type` and, when a settings state was seen, `position`,
      `tilt`, `up` and `down` (otherwise those keys are never set). */
  datatype Device = Device(name: string, id: string, kind: string, settings: Option<Settings>)

  // ---------------------------------------------------------------------------------------------
  // Deriving up and down

  /** Retracted: every position below 1000 counts as up. */
  predicate IsUp(position: int) { position < 1000 }

  /** `$tilt == null` compares loosely, so a tilt of 0 is as good as no tilt. */
  predicate TiltAbsent(tilt: Option<int>) { tilt.None? || tilt.value == 0 }

  /** Extended: beyond 50000, and either untilted or tilted beyond 40000. */
  predicate IsDown(position: int, tilt: Option<int>) {
    position > 50000 && (TiltAbsent(tilt) || tilt.value > 40000)
  }

  /** The record fields the settings state sets. */
  function SettingsOf(state: RawState): Settings {
    Settings(state.position, state.tilt, IsUp(state.position), IsDown(state.position, state.tilt))
  }

  // ---------------------------------------------------------------------------------------------
  // The loop over a device's states: the last settings state wins

  predicate IsSettingsState(state: RawState) { state.name == ManufacturerSettingsState }

  /** The settings of the last settings state, if there is one. */
  function LastSettings(states: seq<RawState>): Option<Settings>
    decreases |states|
  {
    if states == [] then None
    else if IsSettingsState(states[|states| - 1]) then Some(SettingsOf(states[|states| - 1]))
    else LastSettings(states[..|states| - 1])
  }

  /** `LastSettings` picks the settings state with no other one after it, and finds none only
      when there is none. */
  lemma {:induction false} LastSettingsIsLast(states: seq<RawState>)
    ensures LastSettings(states).None? <==> forall k :: 0 <= k < |states| ==> !IsSettingsState(states[k])
    ensures LastSettings(states).Some? ==>
              exists k :: 0 <= k < |states| && IsSettingsState(states[k]) && LastSettings(states) == Some(SettingsOf(states[k]))
                       && forall j :: k < j < |states| ==> !IsSettingsState(states[j])
    decreases |states|
  {
    if states != [] {
      var n := |states| - 1;
      var init := states[..n];
      LastSettingsIsLast(init);
      if IsSettingsState(states[n]) {
        assert LastSettings(states) == Some(SettingsOf(states[n]));
      } else {
        assert LastSettings(states) == LastSettings(init);
        if LastSettings(init).None? {
          forall k | 0 <= k < |states| ensures !IsSettingsState(states[k]) {
            if k < n { assert states[k] == init[k]; }
          }
        } else {
          var k :| 0 <= k < n && IsSettingsState(init[k]) && LastSettings(init) == Some(SettingsOf(init[k]))
                   && forall j :: k < j < n ==> !IsSettingsState(init[j]);
          assert states[k] == init[k];
          forall j | k < j < |states| ensures !IsSettingsState(states[j]) {
            if j < n { assert states[j] == init[j]; }
          }
        }
      }
    }
  }

  /** Whatever settings a device reports, it is never both up and down: up is exactly a
      position below 1000, down exactly a position beyond 50000 with no tilt, a tilt of 0 or
      a tilt beyond 40000. At the ends of the scale, 0 is up and 51200 untilted is down. */
  lemma UpDownExclusive(states: seq<RawState>)
    ensures LastSettings(states).Some? ==>
              var s := LastSettings(states).value;
              !(s.up && s.down)
              && (s.up <==> s.position < 1000)
              && (s.down <==> s.position > 50000 && (s.tilt.None? || s.tilt.value == 0 || s.tilt.value > 40000))
              && (s.position == 0 ==> s.up)
              && (s.position == 51200 && s.tilt.None? ==> s.down)
  {
    LastSettingsIsLast(states);
  }

  /** The inner `foreach` over `$result[$i]->states`. */
  method ReadSettings(states: seq<RawState>) returns (settings: Option<Settings>)
    ensures settings == LastSettings(states)
  {
    settings := None;
    for k := 0 to |states|
      invariant settings == LastSettings(states[..k])
    {
      assert states[..k + 1][..k] == states[..k];
      if states[k].name == ManufacturerSettingsState {
        settings := Some(SettingsOf(states[k]));
      }
    }
    assert states[..|states|] == states;
  }

  // ---------------------------------------------------------------------------------------------
  // The loop over the device list

  /** `empty($deviceID)`: the empty string and `"0"`. */
  predicate NoDeviceId(deviceId: string) { deviceId == "" || deviceId == "0" }

  /** The entries the loop keeps: all of them without a device id, otherwise those whose
      `deviceURL` is the id, in their order. */
  function Selected(result: seq<RawDevice>, deviceId: string): seq<RawDevice>
    decreases |result|
  {
    if result == [] then []
    else
      var init := Selected(result[..|result| - 1], deviceId);
      var last := result[|result| - 1];
      if NoDeviceId(deviceId) || last.deviceURL == deviceId then init + [last] else init
  }

  function Parsed(raw: RawDevice): Device {
    Device(raw.deviceLabel, raw.deviceURL, raw.widgetName, LastSettings(raw.states))
  }

  function ParsedAll(raws: seq<RawDevice>): (devices: seq<Device>)
    ensures |devices| == |raws|
  {
    seq(|raws|, k requires 0 <= k < |raws| => Parsed(raws[k]))
  }

  /** `getDeviceData` after the JSON is decoded. */
  method DeviceData(result: seq<RawDevice>, deviceId: string) returns (devices: seq<Device>)
    ensures devices == ParsedAll(Selected(result, deviceId))
  {
    devices := [];
    for i := 0 to |result|
      invariant devices == ParsedAll(Selected(result[..i], deviceId))
    {
      assert result[..i + 1][..i] == result[..i];
      if !NoDeviceId(deviceId) && deviceId != result[i].deviceURL {
        continue;
      }
      var settings := ReadSettings(result[i].states);
      devices := devices + [Device(result[i].deviceLabel, result[i].deviceURL, result[i].widgetName, settings)];
    }
    assert result[..|result|] == result;
  }

  /** Without a device id every entry is kept; with one, exactly the entries with that
      `deviceURL` are. */
  lemma {:induction false} SelectedMembers(result: seq<RawDevice>, deviceId: string)
    ensures NoDeviceId(deviceId) ==> Selected(result, deviceId) == result
    ensures forall d :: d in Selected(result, deviceId) <==>
                          d in result && (NoDeviceId(deviceId) || d.deviceURL == deviceId)
    decreases |result|
  {
    if result != [] {
      var n := |result| - 1;
      SelectedMembers(result[..n], deviceId);
      assert result == result[..n] + [result[n]];
    }
  }

  /** Selection keeps the input order: selecting from two lists one after the other is
      selecting from their concatenation. */
  lemma {:induction false} SelectedAppend(a: seq<RawDevice>, b: seq<RawDevice>, deviceId: string)
    ensures Selected(a + b, deviceId) == Selected(a, deviceId) + Selected(b, deviceId)
    decreases |b|
  {
    if b == [] {
      assert a + b == a;
    } else {
      var n := |b| - 1;
      assert (a + b)[..|a + b| - 1] == a + b[..n];
      SelectedAppend(a, b[..n], deviceId);
    }
  }
}
