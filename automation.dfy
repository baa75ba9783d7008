/** The automatic mode of control.php: telemetry is merged into the configured devices,
    each device's rules are tried in order until one holds, and the first one that holds
    either does nothing (the blind already is where the action would take it), sends its
    command and stamps the day in the state data, or, in a dry run, is only reported.
    A rule that fails validation ends the run where it stands. */
module Automation {
  import opened Strings
  import opened Scalars
  import opened Conditions
  import opened Rewriting
  import opened Devices
  import opened Weather
  import opened Clock

  /** One `condition => action` pair of a device's `rules`, in configuration order. */
  datatype Rule = Rule(condition: string, action: string)

  /** One element of `TAHOMA_DEVICES`; `rules` is `None` when the key is missing or `null`. */
  datatype ConfiguredDevice = ConfiguredDevice(name: string, id: string, rules: Option<seq<Rule>>)

  /** An element of `$infrastructure`: the configured device and the `up`, `down` and `moved`
      the merge sets (`Null` while never set). */
  datatype Entry = Entry(device: ConfiguredDevice, up: Scalar, down: Scalar, moved: Scalar)

  /** An element of `$stateData`; each key may be missing. */
  datatype StateEntry = StateEntry(name: Option<string>, id: Option<string>, lastMoved: Option<string>)

  type StateData = map<nat, StateEntry>

  /** `sendCommand($device['id'], $action)` for the configured device with index `device`. */
  datatype Command = Command(device: nat, deviceId: string, action: string)

  /** The dry-run line `Would execute action '<action>' for blind '<name>'`. */
  datatype Report = Report(deviceName: string, action: string)

  /** What a run has done so far: commands sent, dry-run lines printed, and the state data. */
  datatype Progress = Progress(commands: seq<Command>, reports: seq<Report>, state: StateData)

  /** A run either reaches the end (and the state data is written) or stops at an invalid
      rule (and it is not). */
  datatype Outcome =
    | Completed(progress: Progress)
    | Aborted(error: ConfigError, progress: Progress)

  /** `eval` of the rewritten condition with the rule variables bound. */
  type Eval = (string, map<string, Scalar>) -> bool

  /** What the run reads besides configuration, telemetry and state: the time, the weather
      values, the `--execute` flag and the meaning of conditions. */
  datatype Context = Context(time: Time, weather: Reading, execute: bool, eval: Eval)

  // ---------------------------------------------------------------------------------------------
  // Merging telemetry into the configured devices

  function Initial(config: seq<ConfiguredDevice>): (entries: seq<Entry>)
    ensures |entries| == |config|
  {
    seq(|config|, i requires 0 <= i < |config| => Entry(config[i], Null, Null, Null))
  }

  /** `$device['up']` of a telemetry record: unset without a settings state. */
  function UpOf(d: Device): Scalar { if d.settings.Some? then Bool(d.settings.value.up) else Null }

  function DownOf(d: Device): Scalar { if d.settings.Some? then Bool(d.settings.value.down) else Null }

  /** `isset($stateData[$i]['lastMoved']) && $stateData[$i]['lastMoved'] == date('Ymd')`. */
  predicate MovedToday(state: StateData, i: nat, today: string) {
    i in state && state[i].lastMoved == Some(today)
  }

  /** The state entry with `name` and `id` taken from the telemetry record. */
  function Touched(state: StateData, i: nat, d: Device): StateEntry {
    var old_ := if i in state then state[i] else StateEntry(None, None, None);
    old_.(name := Some(d.name), id := Some(d.id))
  }

  datatype Merge = Merge(entries: seq<Entry>, state: StateData)

  /** The inner loop for one telemetry record, over the first `k` configured devices. */
  function MergeOne(m: Merge, d: Device, today: string, k: nat): (r: Merge)
    requires k <= |m.entries|
    ensures |r.entries| == |m.entries|
    decreases k
  {
    if k == 0 then m
    else
      var r := MergeOne(m, d, today, k - 1);
      var i := k - 1;
      if m.entries[i].device.id == d.id then
        Merge(r.entries[i := r.entries[i].(up := UpOf(d), down := DownOf(d), moved := Bool(MovedToday(r.state, i, today)))],
              r.state[i := Touched(r.state, i, d)])
      else r
  }

  /** The outer loop over the first `n` telemetry records. */
  function MergeAll(m: Merge, devices: seq<Device>, today: string, n: nat): (r: Merge)
    requires n <= |devices|
    ensures |r.entries| == |m.entries|
    decreases n
  {
    if n == 0 then m
    else
      var r := MergeAll(m, devices, today, n - 1);
      MergeOne(r, devices[n - 1], today, |r.entries|)
  }

  /** Lines 106-123: the nested `foreach` over telemetry and configured devices. */
  method MergeTelemetry(config: seq<ConfiguredDevice>, devices: seq<Device>, stateData: StateData, today: string)
    returns (infrastructure: seq<Entry>, state: StateData)
    ensures Merge(infrastructure, state) == MergeAll(Merge(Initial(config), stateData), devices, today, |devices|)
  {
    var m0 := Merge(Initial(config), stateData);
    infrastructure, state := m0.entries, stateData;
    for n := 0 to |devices|
      invariant Merge(infrastructure, state) == MergeAll(m0, devices, today, n)
      invariant |infrastructure| == |config|
    {
      var device := devices[n];
      ghost var before := Merge(infrastructure, state);
      for i := 0 to |infrastructure|
        invariant |infrastructure| == |before.entries|
        invariant Merge(infrastructure, state) == MergeOne(before, device, today, i)
      {
        if infrastructure[i].device.id == device.id {
          assert before.entries[i].device.id == device.id by { MergeOneDevices(before, device, today, i); }
          var moved := MovedToday(state, i, today);
          infrastructure := infrastructure[i := infrastructure[i].(up := UpOf(device), down := DownOf(device), moved := Bool(moved))];
          state := state[i := Touched(state, i, device)];
        } else {
          assert before.entries[i].device.id != device.id by { MergeOneDevices(before, device, today, i); }
        }
      }
    }
  }

  /** The merge never changes which configured device an entry is. */
  lemma {:induction false} MergeOneDevices(m: Merge, d: Device, today: string, k: nat)
    requires k <= |m.entries|
    ensures forall i :: 0 <= i < |m.entries| ==> MergeOne(m, d, today, k).entries[i].device == m.entries[i].device
    decreases k
  {
    if k > 0 { MergeOneDevices(m, d, today, k - 1); }
  }

  // ---------------------------------------------------------------------------------------------
  // The merge in closed form

  /** The last telemetry record among the first `n` with the given id: later records
      overwrite earlier ones. */
  function LastWithId(devices: seq<Device>, id: string, n: nat): Option<Device>
    requires n <= |devices|
    decreases n
  {
    if n == 0 then None
    else if devices[n - 1].id == id then Some(devices[n - 1])
    else LastWithId(devices, id, n - 1)
  }

  /** One telemetry record, pointwise: matching entries get its `up` and `down`, and `moved`
      from `lastMoved`; the other entries do not change. */
  lemma {:induction false} MergeOneEntries(m: Merge, d: Device, today: string, k: nat)
    requires k <= |m.entries|
    ensures var r := MergeOne(m, d, today, k);
      && |r.entries| == |m.entries|
      && (forall i :: 0 <= i < |m.entries| ==>
            r.entries[i] == if i < k && m.entries[i].device.id == d.id
                            then m.entries[i].(up := UpOf(d), down := DownOf(d), moved := Bool(MovedToday(m.state, i, today)))
                            else m.entries[i])
    decreases k
  {
    if k > 0 {
      MergeOneEntries(m, d, today, k - 1);
      MergeOneState(m, d, today, k - 1);
      var r := MergeOne(m, d, today, k - 1);
      var i := k - 1;
      if m.entries[i].device.id == d.id {
        assert MovedToday(r.state, i, today) == MovedToday(m.state, i, today);
      }
    }
  }

  /** One telemetry record, pointwise: the state entries of matching devices get its `name`
      and `id`; no other state entry changes. */
  lemma {:induction false} MergeOneState(m: Merge, d: Device, today: string, k: nat)
    requires k <= |m.entries|
    ensures var r := MergeOne(m, d, today, k);
      && (forall i: nat :: i in r.state <==> i in m.state || (i < k && m.entries[i].device.id == d.id))
      && (forall i: nat :: i in r.state ==>
            r.state[i] == if i < k && m.entries[i].device.id == d.id then Touched(m.state, i, d) else m.state[i])
    decreases k
  {
    if k > 0 {
      MergeOneState(m, d, today, k - 1);
      var r := MergeOne(m, d, today, k - 1);
      var i := k - 1;
      if m.entries[i].device.id == d.id {
        var state := MergeOne(m, d, today, k).state;
        assert state == r.state[i := Touched(r.state, i, d)];
        assert Touched(r.state, i, d) == Touched(m.state, i, d);
        forall j: nat | j != i && j in state ensures state[j] == r.state[j] {
        }
      } else {
        assert MergeOne(m, d, today, k) == r;
      }
    }
  }

  /** The telemetry record that configured device `i` takes its values from after the first
      `n` records: the last one with its id. */
  function Telemetry(config: seq<ConfiguredDevice>, devices: seq<Device>, i: nat, n: nat): Option<Device>
    requires n <= |devices|
  {
    if i < |config| then LastWithId(devices, config[i].id, n) else None
  }

  /** After the merge, the state data differs from the stored one only in the `name` and `id`
      of configured devices some telemetry record matched; entries appear for those devices
      and `lastMoved` is never touched. */
  lemma {:induction false} MergeState(config: seq<ConfiguredDevice>, devices: seq<Device>, stateData: StateData, today: string, n: nat)
    requires n <= |devices|
    ensures var r := MergeAll(Merge(Initial(config), stateData), devices, today, n);
      && |r.entries| == |config|
      && (forall i: nat :: i in r.state <==> i in stateData || Telemetry(config, devices, i, n).Some?)
      && (forall i: nat :: i in r.state ==>
            r.state[i] == match Telemetry(config, devices, i, n)
                          case None => stateData[i]
                          case Some(d) => Touched(stateData, i, d))
    decreases n
  {
    if n > 0 {
      MergeState(config, devices, stateData, today, n - 1);
      var r := MergeAll(Merge(Initial(config), stateData), devices, today, n - 1);
      var d := devices[n - 1];
      forall i: nat
        ensures i in MergeOne(r, d, today, |r.entries|).state <==> i in stateData || Telemetry(config, devices, i, n).Some?
        ensures i in MergeOne(r, d, today, |r.entries|).state ==>
                  MergeOne(r, d, today, |r.entries|).state[i] == match Telemetry(config, devices, i, n)
                                 case None => stateData[i]
                                 case Some(d) => Touched(stateData, i, d)
      {
        MergeStateKey(config, devices, stateData, today, n, i);
      }
    }
  }

  /** One telemetry record more, for one key of the state data. */
  lemma MergeStateKey(config: seq<ConfiguredDevice>, devices: seq<Device>, stateData: StateData, today: string, n: nat, i: nat)
    requires 0 < n <= |devices|
    requires var r := MergeAll(Merge(Initial(config), stateData), devices, today, n - 1);
      && (i in r.state <==> i in stateData || Telemetry(config, devices, i, n - 1).Some?)
      && (i in r.state ==>
            r.state[i] == match Telemetry(config, devices, i, n - 1)
                          case None => stateData[i]
                          case Some(d) => Touched(stateData, i, d))
    ensures var r := MergeAll(Merge(Initial(config), stateData), devices, today, n);
      && (i in r.state <==> i in stateData || Telemetry(config, devices, i, n).Some?)
      && (i in r.state ==>
            r.state[i] == match Telemetry(config, devices, i, n)
                          case None => stateData[i]
                          case Some(d) => Touched(stateData, i, d))
  {
    var r := MergeAll(Merge(Initial(config), stateData), devices, today, n - 1);
    var d := devices[n - 1];
    MergeOneState(r, d, today, |r.entries|);
    MergeAllDevices(config, devices, stateData, today, n - 1);
    if i < |config| && config[i].id == d.id {
      assert Telemetry(config, devices, i, n) == Some(d);
      assert Touched(r.state, i, d) == Touched(stateData, i, d);
    } else {
      assert Telemetry(config, devices, i, n) == Telemetry(config, devices, i, n - 1);
    }
  }

  lemma {:induction false} MergeAllDevices(config: seq<ConfiguredDevice>, devices: seq<Device>, stateData: StateData, today: string, n: nat)
    requires n <= |devices|
    ensures var r := MergeAll(Merge(Initial(config), stateData), devices, today, n);
      |r.entries| == |config| && forall i :: 0 <= i < |config| ==> r.entries[i].device == config[i]
    decreases n
  {
    if n > 0 {
      MergeAllDevices(config, devices, stateData, today, n - 1);
      var r := MergeAll(Merge(Initial(config), stateData), devices, today, n - 1);
      MergeOneDevices(r, devices[n - 1], today, |r.entries|);
    }
  }

  /** After the merge every configured device carries the `up` and `down` of the last
      telemetry record with its id, and is `moved` exactly when its stored `lastMoved` is
      today; a device no record matched keeps all three unset. */
  lemma {:induction false} MergeEntries(config: seq<ConfiguredDevice>, devices: seq<Device>, stateData: StateData, today: string, n: nat)
    requires n <= |devices|
    ensures var r := MergeAll(Merge(Initial(config), stateData), devices, today, n);
      && |r.entries| == |config|
      && (forall i :: 0 <= i < |config| ==> r.entries[i] == MergedEntry(config, devices, stateData, today, i, n))
    decreases n
  {
    if n > 0 {
      MergeEntries(config, devices, stateData, today, n - 1);
      forall i | 0 <= i < |config| ensures MergeAll(Merge(Initial(config), stateData), devices, today, n).entries[i] == MergedEntry(config, devices, stateData, today, i, n) {
        MergeEntriesStep(config, devices, stateData, today, n, i);
      }
    }
  }

  /** The entry the merge leaves for configured device `i` after `n` telemetry records. */
  function MergedEntry(config: seq<ConfiguredDevice>, devices: seq<Device>, stateData: StateData, today: string, i: nat, n: nat): Entry
    requires n <= |devices| && i < |config|
  {
    match Telemetry(config, devices, i, n)
    case None => Entry(config[i], Null, Null, Null)
    case Some(d) => Entry(config[i], UpOf(d), DownOf(d), Bool(MovedToday(stateData, i, today)))
  }

  /** One telemetry record more, for one configured device. */
  lemma MergeEntriesStep(config: seq<ConfiguredDevice>, devices: seq<Device>, stateData: StateData, today: string, n: nat, i: nat)
    requires 0 < n <= |devices| && i < |config|
    requires MergeAll(Merge(Initial(config), stateData), devices, today, n - 1).entries[i] == MergedEntry(config, devices, stateData, today, i, n - 1)
    ensures MergeAll(Merge(Initial(config), stateData), devices, today, n).entries[i] == MergedEntry(config, devices, stateData, today, i, n)
  {
    var r := MergeAll(Merge(Initial(config), stateData), devices, today, n - 1);
    var d := devices[n - 1];
    MergeOneEntries(r, d, today, |r.entries|);
    MergeAllDevices(config, devices, stateData, today, n - 1);
    if config[i].id == d.id {
      MergeState(config, devices, stateData, today, n - 1);
      assert Telemetry(config, devices, i, n) == Some(d);
      assert MovedToday(r.state, i, today) == MovedToday(stateData, i, today);
    } else {
      assert Telemetry(config, devices, i, n) == Telemetry(config, devices, i, n - 1);
    }
  }

  /** `moved` holds exactly when the device was matched and its stored `lastMoved` is today. */
  lemma MovedIffToday(config: seq<ConfiguredDevice>, devices: seq<Device>, stateData: StateData, today: string)
    ensures var r := MergeAll(Merge(Initial(config), stateData), devices, today, |devices|);
      forall i :: 0 <= i < |config| ==>
        (Truthy(r.entries[i].moved) <==>
           Telemetry(config, devices, i, |devices|).Some? && i in stateData && stateData[i].lastMoved == Some(today))
  {
    MergeEntries(config, devices, stateData, today, |devices|);
  }

  // ---------------------------------------------------------------------------------------------
  // The rule variables

  /** The variables a condition is evaluated against: the time variables as the script
      computes them (`week` with every `0` deleted), the weather values and the device's
      `moved`, `down` and `up`. */
  function Bindings(t: Time, w: Reading, e: Entry): (b: map<string, Scalar>)
    requires ValidTime(t)
    ensures forall name :: name in b <==> name in AllowedVariables()
  {
    map["hour" := Hour(t), "minute" := Minute(t), "day" := Day(t), "month" := Month(t),
        "week" := Str(WeekAsWritten(t)), "yearday" := Yearday(t), "temperature" := w.temperature,
        "wind" := w.wind, "gust" := w.gust, "radiation" := w.radiation, "rain" := w.rain,
        "moved" := e.moved, "down" := e.down, "up" := e.up]
  }

  /** `hour` and `minute` are the clock's two-digit texts. */
  lemma BindingsClock(t: Time, w: Reading, e: Entry)
    requires ValidTime(t)
    ensures var b := Bindings(t, w, e);
      b["hour"] == Hour(t) && b["minute"] == Minute(t)
  {
  }

  /** `month` is the month without a leading zero and `week` the week as the script computes
      it. */
  lemma BindingsCalendar(t: Time, w: Reading, e: Entry)
    requires ValidTime(t)
    ensures var b := Bindings(t, w, e);
      b["month"] == Month(t) && b["week"] == Str(WeekAsWritten(t))
  {
  }

  /** The counted time variables: `day` from 1 (Sunday) to 7 and `yearday` from 1. */
  lemma BindingsCounts(t: Time, w: Reading, e: Entry)
    requires ValidTime(t)
    ensures var b := Bindings(t, w, e);
      && b["day"] == Int(t.weekday + 1) && 1 <= b["day"].i <= 7
      && b["yearday"] == Int(t.dayOfYear + 1) && 1 <= b["yearday"].i <= 366
  {
  }

  /** The weather variables are the station's values. */
  lemma BindingsWeather(t: Time, w: Reading, e: Entry)
    requires ValidTime(t)
    ensures var b := Bindings(t, w, e);
      && b["temperature"] == w.temperature && b["rain"] == w.rain && b["radiation"] == w.radiation
      && b["wind"] == w.wind && b["gust"] == w.gust
  {
  }

  /** `moved`, `down` and `up` are the device's, as the merge left them. */
  lemma BindingsDevice(t: Time, w: Reading, e: Entry)
    requires ValidTime(t)
    ensures var b := Bindings(t, w, e);
      b["moved"] == e.moved && b["down"] == e.down && b["up"] == e.up
  {
  }

  /** `week` is the ISO week number except in weeks 10, 20, 30, 40 and 50, where the deleted
      `0` makes it the number of week 1, 2, 3, 4 or 5. */
  lemma BindingsWeek(t: Time, w: Reading, e: Entry)
    requires ValidTime(t)
    ensures t.isoWeek % 10 != 0 ==> Bindings(t, w, e)["week"] == Week(t)
    ensures t.isoWeek % 10 == 0 ==> Bindings(t, w, e)["week"] == Str(Decimal(t.isoWeek / 10))
  {
    if t.isoWeek % 10 != 0 {
      WeekAgrees(t);
    } else {
      var u := t.(isoWeek := t.isoWeek / 10);
      WeekCollision(t, u);
      WeekAgrees(u);
    }
  }

  // ---------------------------------------------------------------------------------------------
  // The walk over one device's rules

  /** How the walk over a device's rules ends: at an invalid rule, without any rule holding,
      or at the first rule that holds. */
  datatype Walk =
    | Rejected(index: nat, error: ConfigError)
    | NoMatch
    | Matched(index: nat)

  /** `checkCondition`, then `checkAction`: the first error of a rule, if any. */
  function RuleError(r: Rule): Option<ConfigError> {
    if ConditionError(r.condition).Some? then ConditionError(r.condition) else ActionError(r.action)
  }

  /** `eval` of the condition with a `$` in front of every variable, with the rule variables
      bound. This is the expression `getSanitizedExpression` builds for every accepted
      condition without `yearday` (`VerdictAsWritten`); for one with `yearday` the script's
      expression is not valid PHP. */
  predicate Holds(r: Rule, b: map<string, Scalar>, eval: Eval) {
    eval(IntendedExpression(r.condition), b)
  }

  /** What trying one rule gives: a validation error, or whether its condition holds. */
  datatype Verdict = Invalid(error: ConfigError) | Valid(holds: bool)

  function VerdictOf(r: Rule, b: map<string, Scalar>, eval: Eval): Verdict {
    match RuleError(r)
    case Some(error) => Invalid(error)
    case None => Valid(Holds(r, b, eval))
  }

  function Verdicts(rules: seq<Rule>, b: map<string, Scalar>, eval: Eval): (vs: seq<Verdict>)
    ensures |vs| == |rules|
  {
    seq(|rules|, k requires 0 <= k < |rules| => VerdictOf(rules[k], b, eval))
  }

  /** The walk from rule `from` on, given each rule's verdict. */
  function WalkFrom(verdicts: seq<Verdict>, from: nat): (w: Walk)
    requires from <= |verdicts|
    ensures !w.NoMatch? ==> from <= w.index < |verdicts|
    decreases |verdicts| - from
  {
    if from == |verdicts| then NoMatch
    else match verdicts[from]
      case Invalid(error) => Rejected(from, error)
      case Valid(holds) => if holds then Matched(from) else WalkFrom(verdicts, from + 1)
  }

  /** Lines 142-184: each rule is validated and evaluated in turn; the walk stops at the first
      invalid rule or the first rule that holds. */
  method WalkRules(rules: seq<Rule>, b: map<string, Scalar>, eval: Eval) returns (w: Walk)
    ensures w == WalkFrom(Verdicts(rules, b, eval), 0)
  {
    ghost var verdicts := Verdicts(rules, b, eval);
    for k := 0 to |rules|
      invariant WalkFrom(verdicts, 0) == WalkFrom(verdicts, k)
    {
      var verdict := TryRule(rules[k], b, eval);
      assert verdict == verdicts[k];
      match verdict
      case Invalid(error) =>
        return Rejected(k, error);
      case Valid(holds) =>
        if holds {
          return Matched(k);
        }
    }
    return NoMatch;
  }

  /** One pass of the loop body: `checkCondition`, then `checkAction`, then `eval`. */
  method TryRule(rule: Rule, b: map<string, Scalar>, eval: Eval) returns (verdict: Verdict)
    ensures verdict == VerdictOf(rule, b, eval)
  {
    var conditionError := CheckCondition(rule.condition);
    if conditionError.Some? {
      return Invalid(conditionError.value);
    }
    var actionError := ActionError(rule.action);
    if actionError.Some? {
      return Invalid(actionError.value);
    }
    var expression := IntendedExpression(rule.condition);
    return Valid(eval(expression, b));
  }

  /** For a rule without `yearday`, the verdict is what `eval(getSanitizedExpression(...))` gives
      once both checks pass. */
  lemma VerdictAsWritten(r: Rule, b: map<string, Scalar>, eval: Eval)
    requires "yearday" !in Pieces(r.condition)
    ensures RuleError(r).None? ==>
              VerdictOf(r, b, eval) == Valid(eval("return (" + RewriteNames(r.condition, AllowedVariables()) + ");", b))
  {
    if RuleError(r).None? {
      AsWrittenAgrees(r.condition);
    }
  }

  /** First match wins: the walk stops at rule `k` exactly when every earlier rule is valid and
      does not hold, and rule `k` is invalid (`Rejected`, with its error) or valid and holds
      (`Matched`); it finds nothing exactly when every rule is valid and none holds. */
  lemma {:induction false} FirstMatchWins(verdicts: seq<Verdict>, from: nat)
    requires from <= |verdicts|
    ensures var w := WalkFrom(verdicts, from);
      && (w.NoMatch? <==> forall j :: from <= j < |verdicts| ==> verdicts[j] == Valid(false))
      && (!w.NoMatch? ==> forall j :: from <= j < w.index ==> verdicts[j] == Valid(false))
      && (w.Rejected? ==> verdicts[w.index] == Invalid(w.error))
      && (w.Matched? ==> verdicts[w.index] == Valid(true))
    decreases |verdicts| - from
  {
    if from < |verdicts| && verdicts[from] == Valid(false) {
      FirstMatchWins(verdicts, from + 1);
    }
  }

  /** Rules after the one that holds are never looked at, not even validated. */
  lemma {:induction false} LaterRulesIgnored(verdicts: seq<Verdict>, rest: seq<Verdict>, from: nat)
    requires from <= |verdicts|
    requires !WalkFrom(verdicts, from).NoMatch?
    ensures WalkFrom(verdicts + rest, from) == WalkFrom(verdicts, from)
    decreases |verdicts| - from
  {
    assert (verdicts + rest)[from] == verdicts[from];
    if verdicts[from] == Valid(false) {
      LaterRulesIgnored(verdicts, rest, from + 1);
    }
  }

  // One device of the run

  predicate HasRules(e: Entry) { e.device.rules.Some? && e.device.rules.value != [] }

  /** The walk of device `e`'s rules; a device without rules is skipped, which reads as no
      rule holding. */
  function DeviceWalk(e: Entry, ctx: Context): (w: Walk)
    requires ValidTime(ctx.time)
    ensures FitsWalk(e, w)
  {
    if HasRules(e) then WalkFrom(Verdicts(e.device.rules.value, Bindings(ctx.time, ctx.weather, e), ctx.eval), 0)
    else NoMatch
  }

  /** A walk that stops, stops at one of the device's rules. */
  predicate FitsWalk(e: Entry, w: Walk) {
    !w.NoMatch? ==> HasRules(e) && w.index < |e.device.rules.value|
  }

  /** The walks of all devices. */
  function Walks(entries: seq<Entry>, ctx: Context): (walks: seq<Walk>)
    requires ValidTime(ctx.time)
    ensures |walks| == |entries| && forall i :: 0 <= i < |entries| ==> FitsWalk(entries[i], walks[i])
  {
    seq(|entries|, i requires 0 <= i < |entries| => DeviceWalk(entries[i], ctx))
  }

  predicate FitsWalks(entries: seq<Entry>, walks: seq<Walk>) {
    |walks| == |entries| && forall i :: 0 <= i < |entries| ==> FitsWalk(entries[i], walks[i])
  }

  /** The no-op test: an `up` action on a device that is up, or `down` on one that is down. */
  predicate AlreadyThere(action: string, e: Entry) {
    (action == "up" && Truthy(e.up)) || (action == "down" && Truthy(e.down))
  }

  /** `$stateData[$i]['lastMoved'] = date('Ymd')`. */
  function Stamped(state: StateData, i: nat, today: string): StateData {
    var old_ := if i in state then state[i] else StateEntry(None, None, None);
    state[i := old_.(lastMoved := Some(today))]
  }

  /** Lines 137-185 for the device with index `i`, whose rules walked as `w`. */
  function Step(p: Progress, i: nat, e: Entry, w: Walk, ctx: Context): Outcome
    requires ValidTime(ctx.time) && FitsWalk(e, w)
  {
    if !HasRules(e) then Completed(p)
    else
      match w
      case Rejected(_, error) => Aborted(error, p)
      case NoMatch => Completed(p)
      case Matched(k) =>
        var action := e.device.rules.value[k].action;
        if AlreadyThere(action, e) then Completed(p)
        else if ctx.execute then
          Completed(p.(commands := p.commands + [Command(i, e.device.id, action)],
                       state := Stamped(p.state, i, Today(ctx.time))))
        else Completed(p.(reports := p.reports + [Report(e.device.name, action)]))
  }

  /** The run over the first `n` devices, starting from the merged state data. */
  function RunPrefix(entries: seq<Entry>, walks: seq<Walk>, state: StateData, ctx: Context, n: nat): Outcome
    requires ValidTime(ctx.time) && FitsWalks(entries, walks) && n <= |entries|
    decreases n
  {
    if n == 0 then Completed(Progress([], [], state))
    else
      match RunPrefix(entries, walks, state, ctx, n - 1)
      case Aborted(error, p) => Aborted(error, p)
      case Completed(p) => Step(p, n - 1, entries[n - 1], walks[n - 1], ctx)
  }

  /** An invalid rule ends the run: once aborted, the devices after it change nothing. */
  lemma {:induction false} AbortStops(entries: seq<Entry>, walks: seq<Walk>, state: StateData, ctx: Context, k: nat, n: nat)
    requires ValidTime(ctx.time) && FitsWalks(entries, walks) && k <= n <= |entries|
    requires RunPrefix(entries, walks, state, ctx, k).Aborted?
    ensures RunPrefix(entries, walks, state, ctx, n) == RunPrefix(entries, walks, state, ctx, k)
    decreases n
  {
    if k < n {
      AbortStops(entries, walks, state, ctx, k, n - 1);
    }
  }

  // ---------------------------------------------------------------------------------------------
  // What a run does

  /** The device's rules stop at an invalid rule. */
  predicate Rejects(e: Entry, w: Walk) { HasRules(e) && w.Rejected? }

  /** The action of the first rule of the device that holds. */
  function ChosenAction(e: Entry, w: Walk): string
    requires FitsWalk(e, w) && w.Matched?
  {
    e.device.rules.value[w.index].action
  }

  /** A rule of the device holds and its action would change the blind. */
  predicate Fires(e: Entry, w: Walk) requires FitsWalk(e, w) {
    HasRules(e) && w.Matched? && !AlreadyThere(ChosenAction(e, w), e)
  }

  /** One device in terms of the guard: an invalid rule aborts with its error and changes
      nothing; otherwise a device that fires gets exactly one command and its day stamped when
      executing, or exactly one dry-run line otherwise, and any other device changes nothing. */
  lemma StepEffect(p: Progress, i: nat, e: Entry, w: Walk, ctx: Context)
    requires ValidTime(ctx.time) && FitsWalk(e, w)
    ensures Step(p, i, e, w, ctx).Aborted? <==> Rejects(e, w)
    ensures Rejects(e, w) ==> Step(p, i, e, w, ctx) == Aborted(w.error, p)
    ensures !Rejects(e, w) ==>
              Step(p, i, e, w, ctx) ==
                if !Fires(e, w) then Completed(p)
                else if ctx.execute then
                  Completed(p.(commands := p.commands + [Command(i, e.device.id, ChosenAction(e, w))],
                               state := Stamped(p.state, i, Today(ctx.time))))
                else Completed(p.(reports := p.reports + [Report(e.device.name, ChosenAction(e, w))]))
  {
  }

  /** The command the run sends for configured device `c.device`: that device fires, the run
      executes, and the command carries the device's id and its chosen action. */
  predicate IsCommandFor(entries: seq<Entry>, walks: seq<Walk>, ctx: Context, c: Command)
    requires FitsWalks(entries, walks)
  {
    c.device < |entries| && ctx.execute && Fires(entries[c.device], walks[c.device])
    && c == Command(c.device, entries[c.device].device.id, ChosenAction(entries[c.device], walks[c.device]))
  }

  predicate Dispatched(commands: seq<Command>, i: nat) {
    exists j :: 0 <= j < |commands| && commands[j].device == i
  }

  /** The commands of a run (up to where it stops): at most one per device, in device order,
      each one the chosen action of a device that fires; a dry run sends none and leaves the
      state data alone, and a real run prints no dry-run line. */
  lemma {:induction false} RunCommands(entries: seq<Entry>, walks: seq<Walk>, state: StateData, ctx: Context, n: nat)
    requires ValidTime(ctx.time) && FitsWalks(entries, walks) && n <= |entries|
    ensures var p := RunPrefix(entries, walks, state, ctx, n).progress;
      && (forall j, k :: 0 <= j < k < |p.commands| ==> p.commands[j].device < p.commands[k].device)
      && (forall j :: 0 <= j < |p.commands| ==> p.commands[j].device < n && IsCommandFor(entries, walks, ctx, p.commands[j]))
      && (!ctx.execute ==> p.commands == [] && p.state == state)
      && (ctx.execute ==> p.reports == [])
    decreases n
  {
    if n > 0 {
      RunCommands(entries, walks, state, ctx, n - 1);
      var r := RunPrefix(entries, walks, state, ctx, n - 1);
      if r.Completed? {
        StepEffect(r.progress, n - 1, entries[n - 1], walks[n - 1], ctx);
      }
    }
  }

  /** A run that completes sends a command to exactly the devices that fire (when executing). */
  lemma {:induction false} RunDispatches(entries: seq<Entry>, walks: seq<Walk>, state: StateData, ctx: Context, n: nat)
    requires ValidTime(ctx.time) && FitsWalks(entries, walks) && n <= |entries| && ctx.execute
    requires RunPrefix(entries, walks, state, ctx, n).Completed?
    ensures forall i :: 0 <= i < n ==>
              (Fires(entries[i], walks[i]) <==> Dispatched(RunPrefix(entries, walks, state, ctx, n).progress.commands, i))
    decreases n
  {
    if n > 0 {
      var r := RunPrefix(entries, walks, state, ctx, n - 1);
      StepEffect(r.progress, n - 1, entries[n - 1], walks[n - 1], ctx);
      RunDispatches(entries, walks, state, ctx, n - 1);
      RunCommands(entries, walks, state, ctx, n - 1);
      var before := r.progress.commands;
      var after := RunPrefix(entries, walks, state, ctx, n).progress.commands;
      forall i | 0 <= i < n ensures Fires(entries[i], walks[i]) <==> Dispatched(after, i) {
        if Fires(entries[n - 1], walks[n - 1]) {
          var c := Command(n - 1, entries[n - 1].device.id, ChosenAction(entries[n - 1], walks[n - 1]));
          assert after == before + [c];
          DispatchedAppend(before, c);
        } else {
          assert after == before;
          if i == n - 1 {
            assert !Dispatched(before, i);
          }
        }
      }
    }
  }

  /** The state data a run leaves: entries appear only for devices it sent a command to, whose
      `lastMoved` becomes today; every other entry is the merged one. */
  lemma {:induction false} RunStamps(entries: seq<Entry>, walks: seq<Walk>, state: StateData, ctx: Context, n: nat)
    requires ValidTime(ctx.time) && FitsWalks(entries, walks) && n <= |entries|
    ensures var p := RunPrefix(entries, walks, state, ctx, n).progress;
      && (forall i: nat :: i in p.state <==> i in state || Dispatched(p.commands, i))
      && (forall i: nat :: i in p.state ==>
            p.state[i] == if Dispatched(p.commands, i) then Stamped(state, i, Today(ctx.time))[i] else state[i])
    decreases n
  {
    if n > 0 {
      RunStamps(entries, walks, state, ctx, n - 1);
      RunCommands(entries, walks, state, ctx, n - 1);
      var r := RunPrefix(entries, walks, state, ctx, n - 1);
      if r.Completed? {
        var e, w := entries[n - 1], walks[n - 1];
        StepEffect(r.progress, n - 1, e, w, ctx);
        if !Rejects(e, w) && Fires(e, w) && ctx.execute {
          var before := r.progress;
          var after := RunPrefix(entries, walks, state, ctx, n).progress;
          var c := Command(n - 1, e.device.id, ChosenAction(e, w));
          assert after.commands == before.commands + [c];
          DispatchedAppend(before.commands, c);
          StampsStep(state, before, after, n - 1, Today(ctx.time));
        }
      }
    }
  }

  /** One command more: the device it is for counts as dispatched, and nothing else changes. */
  lemma DispatchedAppend(commands: seq<Command>, c: Command)
    ensures forall i: nat :: Dispatched(commands + [c], i) <==> Dispatched(commands, i) || i == c.device
  {
    var after := commands + [c];
    forall i: nat ensures Dispatched(after, i) <==> Dispatched(commands, i) || i == c.device {
      if Dispatched(after, i) && i != c.device {
        var j :| 0 <= j < |after| && after[j].device == i;
        assert j < |commands| && commands[j].device == i;
      }
      if Dispatched(commands, i) {
        var j :| 0 <= j < |commands| && commands[j].device == i;
        assert after[j].device == i;
      }
      if i == c.device {
        assert after[|commands|].device == i;
      }
    }
  }

  /** The state data of `RunStamps` after one more device is stamped. */
  lemma StampsStep(state: StateData, before: Progress, after: Progress, m: nat, today: string)
    requires after.state == Stamped(before.state, m, today)
    requires forall i: nat :: Dispatched(after.commands, i) <==> Dispatched(before.commands, i) || i == m
    requires !Dispatched(before.commands, m)
    requires forall i: nat :: i in before.state <==> i in state || Dispatched(before.commands, i)
    requires forall i: nat :: i in before.state ==>
               before.state[i] == if Dispatched(before.commands, i) then Stamped(state, i, today)[i] else state[i]
    ensures forall i: nat :: i in after.state <==> i in state || Dispatched(after.commands, i)
    ensures forall i: nat :: i in after.state ==>
              after.state[i] == if Dispatched(after.commands, i) then Stamped(state, i, today)[i] else state[i]
  {
  }

  /** The run completes exactly when no device's rules stop at an invalid rule; when it aborts,
      it does so at the first such device, with that rule's error and what the devices before
      it did. */
  lemma {:induction false} RunOutcome(entries: seq<Entry>, walks: seq<Walk>, state: StateData, ctx: Context, n: nat)
    requires ValidTime(ctx.time) && FitsWalks(entries, walks) && n <= |entries|
    ensures RunPrefix(entries, walks, state, ctx, n).Completed? <==> forall i :: 0 <= i < n ==> !Rejects(entries[i], walks[i])
    ensures RunPrefix(entries, walks, state, ctx, n).Aborted? ==>
              exists k :: 0 <= k < n && Rejects(entries[k], walks[k]) && RunPrefix(entries, walks, state, ctx, k).Completed?
                          && RunPrefix(entries, walks, state, ctx, n)
                             == Aborted(walks[k].error, RunPrefix(entries, walks, state, ctx, k).progress)
    decreases n
  {
    if n > 0 {
      RunOutcome(entries, walks, state, ctx, n - 1);
      var r := RunPrefix(entries, walks, state, ctx, n - 1);
      if r.Completed? {
        StepEffect(r.progress, n - 1, entries[n - 1], walks[n - 1], ctx);
      } else {
        var k :| 0 <= k < n - 1 && Rejects(entries[k], walks[k]) && RunPrefix(entries, walks, state, ctx, k).Completed?
                 && r == Aborted(walks[k].error, RunPrefix(entries, walks, state, ctx, k).progress);
        assert RunPrefix(entries, walks, state, ctx, n) == r;
      }
    }
  }

  // ---------------------------------------------------------------------------------------------
  // The automatic mode

  /** The whole automatic mode: merge, then the run over all configured devices. */
  function Automation(config: seq<ConfiguredDevice>, devices: seq<Device>, stateData: StateData, ctx: Context): Outcome
    requires ValidTime(ctx.time)
  {
    var m := MergeAll(Merge(Initial(config), stateData), devices, Today(ctx.time), |devices|);
    RunPrefix(m.entries, Walks(m.entries, ctx), m.state, ctx, |m.entries|)
  }

  /** Without `--execute` the automatic mode sends no command and leaves the merged state
      data as it is; with it, it prints no dry-run line. */
  lemma DryRun(config: seq<ConfiguredDevice>, devices: seq<Device>, stateData: StateData, ctx: Context)
    requires ValidTime(ctx.time)
    ensures var p := Automation(config, devices, stateData, ctx).progress;
      && (!ctx.execute ==>
            p.commands == [] && p.state == MergeAll(Merge(Initial(config), stateData), devices, Today(ctx.time), |devices|).state)
      && (ctx.execute ==> p.reports == [])
  {
    var m := MergeAll(Merge(Initial(config), stateData), devices, Today(ctx.time), |devices|);
    RunCommands(m.entries, Walks(m.entries, ctx), m.state, ctx, |m.entries|);
  }

  /** Lines 137-185 for one device: skip it without rules, walk its rules, and carry out the
      action of the first one that holds unless the blind is already there. */
  method RunDevice(p: Progress, i: nat, device: Entry, ctx: Context) returns (outcome: Outcome)
    requires ValidTime(ctx.time)
    ensures outcome == Step(p, i, device, DeviceWalk(device, ctx), ctx)
  {
    if device.device.rules.None? || device.device.rules.value == [] {
      return Completed(p);
    }
    var rules := device.device.rules.value;
    var walk := WalkRules(rules, Bindings(ctx.time, ctx.weather, device), ctx.eval);
    match walk
    case Rejected(_, error) =>
      return Aborted(error, p);
    case NoMatch =>
      return Completed(p);
    case Matched(k) =>
      var action := rules[k].action;
      if (action == "up" && Truthy(device.up)) || (action == "down" && Truthy(device.down)) {
        // the blind is already where the action would take it
        return Completed(p);
      } else if ctx.execute {
        var command := Command(i, device.device.id, action);
        return Completed(p.(commands := p.commands + [command], state := Stamped(p.state, i, Today(ctx.time))));
      } else {
        return Completed(p.(reports := p.reports + [Report(device.device.name, action)]));
      }
  }

  /** Lines 106-185: the automatic mode of control.php. */
  method Automate(config: seq<ConfiguredDevice>, devices: seq<Device>, stateData: StateData, ctx: Context)
    returns (outcome: Outcome)
    requires ValidTime(ctx.time)
    ensures outcome == Automation(config, devices, stateData, ctx)
  {
    var infrastructure, state := MergeTelemetry(config, devices, stateData, Today(ctx.time));
    ghost var walks := Walks(infrastructure, ctx);
    var progress := Progress([], [], state);
    for i := 0 to |infrastructure|
      invariant RunPrefix(infrastructure, walks, state, ctx, i) == Completed(progress)
    {
      var step := RunDevice(progress, i, infrastructure[i], ctx);
      if step.Aborted? {
        AbortStops(infrastructure, walks, state, ctx, i + 1, |infrastructure|);
        return step;
      }
      progress := step.progress;
    }
    return Completed(progress);
  }

  /** Lines 72-189: the device list of the gateway (`getDeviceData('')`, every device) and the
      weather station's values (`getWeatherData`) feed the automatic mode. */
  method AutomaticMode(config: seq<ConfiguredDevice>, result: seq<RawDevice>, csv: string, station: string,
                       stateData: StateData, time: Time, execute: bool, eval: Eval)
    returns (outcome: Outcome)
    requires ValidTime(time)
    ensures outcome == Automation(config, ParsedAll(result), stateData, Context(time, WeatherOf(csv, station), execute, eval))
  {
    var devices := DeviceData(result, "");
    SelectedMembers(result, "");
    var reading := WeatherData(csv, station);
    outcome := Automate(config, devices, stateData, Context(time, reading, execute, eval));
  }
}
