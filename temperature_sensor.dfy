/**
 * The temperature-sensor driver: one process-wide driver object holding the
 * accuracy-sorted copy of the range table (its presence is the "installed"
 * flag), and sensor handles with a two-state lifecycle INIT <-> ENABLE.
 *
 * Calls that can fail for reasons outside the driver (heap allocation,
 * interrupt allocation and release) take their outcome as a parameter;
 * values read from the hardware (the range offset, whether a reading lies in
 * the measurable band) are parameters too. Register writes the driver makes
 * are recorded in the ghost record `hw`, the power reference count it keeps
 * with the shared analog block in `powerRefs`, and the range index it
 * publishes to the other users of the sensor in `syncedIdx`.
 */
module TemperatureSensor {
  import opened Attributes

  /** The driver's error codes (ESP_OK, ESP_FAIL, ESP_ERR_INVALID_ARG,
      ESP_ERR_INVALID_STATE, ESP_ERR_NO_MEM, ESP_ERR_NOT_SUPPORTED). */
  datatype Status = Ok | Fail | InvalidArg | InvalidState | NoMem | NotSupported

  datatype Fsm = FsmInit | FsmEnable

  /** The value a zero-filled handle's `fsm` field holds. The state enum is
      declared outside this model; its first member, INIT, is taken to be 0. */
  const FsmZero: Fsm := FsmInit

  /** The install configuration: requested measurement interval, requested
      clock source (0 = default) and whether the sensor may be powered down
      in light sleep. */
  datatype Config = Config(rangeMin: int, rangeMax: int, clkSrc: nat, allowPd: bool)

  /** A threshold callback, identified by its code address. */
  datatype Callback = Callback(address: nat)

  datatype EventCallbacks = EventCallbacks(onThreshold: Option<Callback>)

  datatype WakeMode = WakeAbsolute | WakeDelta

  /** Sample rate the threshold setters program. */
  const ThresholdSampleRate: nat := 0xffff

  /** Sensor registers the driver writes: clock source, range code, the
      threshold interrupt enable, the wake-up/sampling enables, sample rate
      and threshold mode. */
  datatype HwRegs = HwRegs(clkSel: nat, rangeRegVal: nat, intrEnabled: bool, sampling: bool,
                           sampleRate: nat, wakeMode: WakeMode)

  /** The clock-source test of install: a handle whose `clkSrc` field is
      still 0 gets the default clock, any other gets the configured one. */
  function ClockSelection(current: nat, defaultClk: nat, configured: nat): nat
  {
    if current == 0 then defaultClk else configured
  }

  /** A sensor handle: the heap object `install` hands out. */
  class TempSensor {
    var fsm: Fsm
    var clkSrc: nat
    /** Position in the driver's sorted copy of the range in use; None is a
        null attribute pointer. */
    var attr: Option<nat>
    /** Whether an interrupt service has been allocated for this handle. */
    var hasIsr: bool
    var onThreshold: Option<Callback>
    var userArg: nat

    /** A zero-filled allocation. */
    constructor Zeroed()
      ensures fsm == FsmZero && clkSrc == 0 && attr == None
      ensures !hasIsr && onThreshold == None && userArg == 0
    {
      fsm := FsmZero;
      clkSrc := 0;
      attr := None;
      hasIsr := false;
      onThreshold := None;
      userArg := 0;
    }
  }

  class Driver {
    /** The chip's static range table. */
    const table: seq<Attribute>
    /** The clock source used when none is configured. */
    const defaultClkSrc: nat
    /** Whether the chip can keep the sensor state across a power-down. */
    const sleepRetentionSupported: bool

    /** The heap copy of `table`, sorted by accuracy; null while not installed. */
    var attrCopy: array?<Attribute>

    /** Handle objects allocated by install and not yet freed. */
    ghost var live: set<TempSensor>
    ghost var powerRefs: int
    ghost var syncedIdx: int
    ghost var hw: HwRegs

    ghost predicate Valid()
      reads this, attrCopy
    {
      attrCopy != null ==> attrCopy.Length == |table| && IsAccuracySorted(attrCopy[..], table)
    }

    predicate Installed()
      reads this
    {
      attrCopy != null
    }

    constructor (table: seq<Attribute>, defaultClkSrc: nat, sleepRetentionSupported: bool, hw0: HwRegs)
      ensures Valid() && !Installed()
      ensures this.table == table && this.defaultClkSrc == defaultClkSrc
      ensures this.sleepRetentionSupported == sleepRetentionSupported
      ensures live == {} && powerRefs == 0 && syncedIdx == -1 && hw == hw0
    {
      this.table := table;
      this.defaultClkSrc := defaultClkSrc;
      this.sleepRetentionSupported := sleepRetentionSupported;
      attrCopy := null;
      live := {};
      powerRefs := 0;
      syncedIdx := -1;
      hw := hw0;
    }

    /** Allocates the copy of the range table and sorts it by accuracy;
        `mallocOk` is the outcome of the allocation. */
    method AttributeTableSort(mallocOk: bool) returns (r: Status)
      requires Valid()
      modifies this`attrCopy
      ensures Valid()
      ensures r == (if mallocOk then Ok else NoMem)
      ensures r == Ok ==> attrCopy != null && fresh(attrCopy)
      ensures r == NoMem ==> attrCopy == null
    {
      if !mallocOk {
        attrCopy := null;
        return NoMem;
      }
      var copy := new Attribute[|table|];
      for i := 0 to |table|
        invariant forall k :: 0 <= k < i ==> copy[k] == table[k]
      {
        copy[i] := table[i];
      }
      assert copy[..] == table;
      SortByAccuracy(copy);
      attrCopy := copy;
      r := Ok;
    }

    /** Points `tsens` at the first entry of the sorted copy that covers the
        configured interval and publishes that entry's position in `table`.
        Fails with InvalidArg when the handle ends up without a range. */
    method ChooseBestRange(tsens: TempSensor, cfg: Config) returns (r: Status)
      requires Valid() && Installed()
      modifies tsens`attr, this`syncedIdx
      ensures FirstCovering(attrCopy[..], cfg.rangeMin, cfg.rangeMax).Some? ==>
        && tsens.attr == FirstCovering(attrCopy[..], cfg.rangeMin, cfg.rangeMax)
        && IsFirstWithRegVal(table, attrCopy[tsens.attr.value].regVal, syncedIdx)
      ensures FirstCovering(attrCopy[..], cfg.rangeMin, cfg.rangeMax).None? ==>
        tsens.attr == old(tsens.attr) && syncedIdx == old(syncedIdx)
      ensures r == (if tsens.attr.Some? then Ok else InvalidArg)
    {
      var i := 0;
      while i < attrCopy.Length
        invariant 0 <= i <= attrCopy.Length
        invariant forall k :: 0 <= k < i ==> !Covers(attrCopy[k], cfg.rangeMin, cfg.rangeMax)
        invariant tsens.attr == old(tsens.attr) && syncedIdx == old(syncedIdx)
      {
        if cfg.rangeMin >= attrCopy[i].rangeMin && cfg.rangeMax <= attrCopy[i].rangeMax {
          tsens.attr := Some(i);
          var originalIdx := IndexOfRegVal(table, attrCopy[i].regVal);
          RegValSurvivesReordering(table, attrCopy[..], i);
          if originalIdx != -1 {
            syncedIdx := originalIdx;
          }
          break;
        }
        i := i + 1;
      }
      r := if tsens.attr.Some? then Ok else InvalidArg;
    }

    /** Argument and state checks of install, the zero-filled allocation of
        the handle and its clock-source selection. The allocation is zero
        filled, so the test on its `clkSrc` always picks the default clock
        and the configured one is never read. */
    method BeginInstall(cfg: Option<Config>, outPresent: bool, callocOk: bool) returns (r: Status, t: TempSensor?)
      modifies this`live
      ensures !(cfg.Some? && outPresent) ==> r == InvalidArg
      ensures cfg.Some? && outPresent && Installed() ==> r == InvalidState
      ensures cfg.Some? && outPresent && !Installed() ==> r == (if callocOk then Ok else NoMem)
      ensures r != Ok ==> t == null && live == old(live)
      ensures r == Ok ==> t != null && fresh(t) && live == old(live) + {t}
      ensures r == Ok ==> t.fsm == FsmZero && t.clkSrc == defaultClkSrc && t.attr == None
      ensures r == Ok ==> !t.hasIsr && t.onThreshold == None && t.userArg == 0
    {
      if !(cfg.Some? && outPresent) {
        return InvalidArg, null;
      }
      if attrCopy != null {
        return InvalidState, null;
      }
      if !callocOk {
        return NoMem, null;
      }
      var requested := cfg.value.clkSrc;
      t := new TempSensor.Zeroed();
      live := live + {t};
      t.clkSrc := ClockSelection(t.clkSrc, defaultClkSrc, requested);
      r := Ok;
    }

    /** Install from the point where the sensor is powered: select the clock,
        build the sorted table, choose the range and program it. On a failure
        of either of the last two the handle is torn down through uninstall. */
    method FinishInstall(t: TempSensor, cfg: Config, mallocOk: bool) returns (r: Status, h: TempSensor?)
      requires Valid() && !Installed()
      requires t.fsm == FsmZero && t.attr == None && !t.hasIsr
      modifies this, t
      ensures Valid()
      ensures r == Ok <==> mallocOk && exists a :: a in table && Covers(a, cfg.rangeMin, cfg.rangeMax)
      ensures r != Ok ==> r == (if mallocOk then InvalidArg else NoMem)
      ensures r != Ok ==> && h == null && !Installed()
                          && live == old(live) - {t} && powerRefs == old(powerRefs)
                          && syncedIdx == old(syncedIdx)
                          && hw == old(hw).(clkSel := t.clkSrc, intrEnabled := false)
      ensures r == Ok ==> && h == t && Installed() && fresh(attrCopy)
                          && t.fsm == FsmInit && t.clkSrc == old(t.clkSrc)
                          && t.attr.Some? && t.attr == FirstCovering(attrCopy[..], cfg.rangeMin, cfg.rangeMax)
                          && live == old(live) && powerRefs == old(powerRefs) + 1
                          && hw == old(hw).(clkSel := t.clkSrc, rangeRegVal := attrCopy[t.attr.value].regVal)
                          && IsFirstWithRegVal(table, attrCopy[t.attr.value].regVal, syncedIdx)
      ensures r == Ok ==> Installed() && t.attr.Some? && t.attr.value < attrCopy.Length &&
                          var best := attrCopy[t.attr.value];
                          && best in table && Covers(best, cfg.rangeMin, cfg.rangeMax)
                          && forall a :: a in table && Covers(a, cfg.rangeMin, cfg.rangeMax) ==> best.errorMax <= a.errorMax
      ensures t.hasIsr == old(t.hasIsr) && t.onThreshold == old(t.onThreshold) && t.userArg == old(t.userArg)
    {
      powerRefs := powerRefs + 1;
      hw := hw.(clkSel := t.clkSrc);
      r := AttributeTableSort(mallocOk);
      if r == Ok {
        BestRangeIsMostAccurate(table, attrCopy[..], cfg.rangeMin, cfg.rangeMax);
        r := ChooseBestRange(t, cfg);
      }
      if r != Ok {
        var _ := Uninstall(t, Ok);
        return r, null;
      }
      hw := hw.(rangeRegVal := attrCopy[t.attr.value].regVal);
      t.fsm := FsmInit;
      h := t;
    }

    /** Installs the driver, as the source is written: on a chip without
        sleep retention a configuration asking for power-down is refused
        after the handle has been allocated, and the handle is not freed. */
    method InstallAsWritten(cfg: Option<Config>, outPresent: bool, callocOk: bool, mallocOk: bool)
      returns (r: Status, h: TempSensor?)
      requires Valid()
      modifies this
      ensures Valid()
      ensures cfg.Some? && outPresent && !old(Installed()) && callocOk
              && !sleepRetentionSupported && cfg.value.allowPd ==>
        && r == NotSupported && h == null
        && (exists t: TempSensor :: t !in old(live) && live == old(live) + {t})
        && unchanged(this`attrCopy, this`powerRefs, this`syncedIdx, this`hw)
    {
      var t;
      r, t := BeginInstall(cfg, outPresent, callocOk);
      if r != Ok {
        return r, null;
      }
      if !sleepRetentionSupported && cfg.value.allowPd {
        return NotSupported, null;
      }
      r, h := FinishInstall(t, cfg.value, mallocOk);
    }

    /** Installs the driver: checks the arguments, refuses a second instance,
        allocates the handle, powers the sensor, builds the sorted range
        table and selects the most accurate range covering the requested
        interval. A failed install leaves the driver as it was, apart from
        register writes. */
    method Install(cfg: Option<Config>, outPresent: bool, callocOk: bool, mallocOk: bool)
      returns (r: Status, h: TempSensor?)
      requires Valid()
      modifies this
      ensures Valid()
      ensures !(cfg.Some? && outPresent) ==> r == InvalidArg && unchanged(this)
      ensures cfg.Some? && outPresent && old(Installed()) ==> r == InvalidState && unchanged(this)
      ensures cfg.Some? && outPresent && !old(Installed()) ==>
        r == if !callocOk then NoMem
             else if !sleepRetentionSupported && cfg.value.allowPd then NotSupported
             else if !mallocOk then NoMem
             else if exists a :: a in table && Covers(a, cfg.value.rangeMin, cfg.value.rangeMax) then Ok
             else InvalidArg
      ensures r != Ok ==> && h == null && attrCopy == old(attrCopy) && live == old(live)
                          && powerRefs == old(powerRefs) && syncedIdx == old(syncedIdx)
      ensures r == Ok ==> && h != null && fresh(h) && live == old(live) + {h}
                          && Installed() && !old(Installed()) && fresh(attrCopy)
                          && h.fsm == FsmInit && h.clkSrc == defaultClkSrc
                          && h.attr.Some? && h.attr == FirstCovering(attrCopy[..], cfg.value.rangeMin, cfg.value.rangeMax)
                          && !h.hasIsr && h.onThreshold == None && h.userArg == 0
                          && powerRefs == old(powerRefs) + 1
                          && hw == old(hw).(clkSel := defaultClkSrc, rangeRegVal := attrCopy[h.attr.value].regVal)
                          && IsFirstWithRegVal(table, attrCopy[h.attr.value].regVal, syncedIdx)
      ensures r == Ok ==> h != null && Installed() && h.attr.Some? && h.attr.value < attrCopy.Length &&
                          var best := attrCopy[h.attr.value];
                          && best in table && Covers(best, cfg.value.rangeMin, cfg.value.rangeMax)
                          && forall a :: a in table && Covers(a, cfg.value.rangeMin, cfg.value.rangeMax) ==> best.errorMax <= a.errorMax
    {
      var t;
      r, t := BeginInstall(cfg, outPresent, callocOk);
      if r != Ok {
        return r, null;
      }
      if !sleepRetentionSupported && cfg.value.allowPd {
        live := live - {t};
        return NotSupported, null;
      }
      r, h := FinishInstall(t, cfg.value, mallocOk);
    }

    /** Uninstalls a handle in INIT: frees the sorted table (the driver is no
        longer installed), disables the threshold interrupt, releases the
        interrupt service if one was allocated, drops the power reference and
        frees the handle. When releasing the interrupt service fails with
        `intrFree`, that error is returned with the table already freed and
        the handle and power reference still held. */
    method Uninstall(tsens: TempSensor?, intrFree: Status) returns (r: Status)
      requires Valid()
      modifies this`attrCopy, this`live, this`powerRefs, this`hw
      ensures Valid()
      ensures tsens == null ==> r == InvalidArg && unchanged(this)
      ensures tsens != null && tsens.fsm != FsmInit ==> r == InvalidState && unchanged(this)
      ensures tsens != null && tsens.fsm == FsmInit ==>
        && !Installed()
        && hw == old(hw).(intrEnabled := false)
        && if tsens.hasIsr && intrFree != Ok then
             r == intrFree && live == old(live) && powerRefs == old(powerRefs)
           else
             r == Ok && live == old(live) - {tsens} && powerRefs == old(powerRefs) - 1
    {
      if tsens == null {
        return InvalidArg;
      }
      if tsens.fsm != FsmInit {
        return InvalidState;
      }
      attrCopy := null;
      hw := hw.(intrEnabled := false);
      if tsens.hasIsr && intrFree != Ok {
        return intrFree;
      }
      powerRefs := powerRefs - 1;
      live := live - {tsens};
      r := Ok;
    }

    /** Re-binds the handle to the first entry of the sorted copy whose
        register code equals the range offset `dac` read back from the
        hardware; the binding is kept when no entry has that code. */
    method UpdateAttribute(tsens: TempSensor?, dac: nat) returns (r: Status)
      requires Valid() && (tsens != null ==> Installed())
      modifies tsens
      ensures r == (if tsens == null then InvalidArg else Ok)
      ensures tsens != null ==>
        if forall j :: 0 <= j < attrCopy.Length ==> attrCopy[j].regVal != dac then
          tsens.attr == old(tsens.attr)
        else
          tsens.attr.Some? && IsFirstWithRegVal(attrCopy[..], dac, tsens.attr.value)
      ensures tsens != null ==> && tsens.fsm == old(tsens.fsm) && tsens.clkSrc == old(tsens.clkSrc)
                                && tsens.hasIsr == old(tsens.hasIsr)
                                && tsens.onThreshold == old(tsens.onThreshold)
                                && tsens.userArg == old(tsens.userArg)
    {
      if tsens == null {
        return InvalidArg;
      }
      var i := IndexOfRegVal(attrCopy[..], dac);
      if i != -1 {
        tsens.attr := Some(i);
      }
      r := Ok;
    }

    /** INIT -> ENABLE: starts the sensor's sampling. */
    method Enable(tsens: TempSensor?) returns (r: Status)
      modifies tsens, this`hw
      ensures tsens == null ==> r == InvalidArg && hw == old(hw)
      ensures tsens != null ==>
        && r == (if old(tsens.fsm) == FsmInit then Ok else InvalidState)
        && tsens.fsm == (if r == Ok then FsmEnable else old(tsens.fsm))
        && hw == (if r == Ok then old(hw).(sampling := true) else old(hw))
        && tsens.attr == old(tsens.attr) && tsens.clkSrc == old(tsens.clkSrc)
        && tsens.hasIsr == old(tsens.hasIsr) && tsens.onThreshold == old(tsens.onThreshold)
        && tsens.userArg == old(tsens.userArg)
    {
      if tsens == null {
        return InvalidArg;
      }
      if tsens.fsm != FsmInit {
        return InvalidState;
      }
      hw := hw.(sampling := true);
      tsens.fsm := FsmEnable;
      r := Ok;
    }

    /** ENABLE -> INIT: stops the sensor's sampling. */
    method Disable(tsens: TempSensor?) returns (r: Status)
      modifies tsens, this`hw
      ensures tsens == null ==> r == InvalidArg && hw == old(hw)
      ensures tsens != null ==>
        && r == (if old(tsens.fsm) == FsmEnable then Ok else InvalidState)
        && tsens.fsm == (if r == Ok then FsmInit else old(tsens.fsm))
        && hw == (if r == Ok then old(hw).(sampling := false) else old(hw))
        && tsens.attr == old(tsens.attr) && tsens.clkSrc == old(tsens.clkSrc)
        && tsens.hasIsr == old(tsens.hasIsr) && tsens.onThreshold == old(tsens.onThreshold)
        && tsens.userArg == old(tsens.userArg)
    {
      if tsens == null {
        return InvalidArg;
      }
      if tsens.fsm != FsmEnable {
        return InvalidState;
      }
      hw := hw.(sampling := false);
      tsens.fsm := FsmInit;
      r := Ok;
    }

    /** Reads the temperature. The conversion of the raw reading is not
        modelled: `inMeasureRange` says whether the converted value lies in
        the band the sensor can measure, `rangeChanged` whether the hardware
        switched range while reading, and `dac` the range code it now uses. */
    method GetCelsius(tsens: TempSensor?, outPresent: bool, inMeasureRange: bool, rangeChanged: bool, dac: nat)
      returns (r: Status)
      requires Valid()
      requires tsens != null && outPresent && tsens.fsm == FsmEnable && inMeasureRange && rangeChanged ==> Installed()
      modifies tsens
      ensures tsens == null || !outPresent ==> r == InvalidArg
      ensures tsens != null && outPresent && old(tsens.fsm) != FsmEnable ==> r == InvalidState
      ensures tsens != null && outPresent && old(tsens.fsm) == FsmEnable ==> r == (if inMeasureRange then Ok else Fail)
      ensures tsens != null && !(r == Ok && rangeChanged) ==> tsens.attr == old(tsens.attr)
      ensures tsens != null && r == Ok && rangeChanged ==>
        if forall j :: 0 <= j < attrCopy.Length ==> attrCopy[j].regVal != dac then
          tsens.attr == old(tsens.attr)
        else
          tsens.attr.Some? && IsFirstWithRegVal(attrCopy[..], dac, tsens.attr.value)
      ensures tsens != null ==> && tsens.fsm == old(tsens.fsm) && tsens.clkSrc == old(tsens.clkSrc)
                                && tsens.hasIsr == old(tsens.hasIsr)
                                && tsens.onThreshold == old(tsens.onThreshold)
                                && tsens.userArg == old(tsens.userArg)
    {
      if tsens == null || !outPresent {
        return InvalidArg;
      }
      if tsens.fsm != FsmEnable {
        return InvalidState;
      }
      if !inMeasureRange {
        return Fail;
      }
      if rangeChanged {
        var _ := UpdateAttribute(tsens, dac);
      }
      r := Ok;
    }

    /** Programs absolute wake-up thresholds; only in INIT. The threshold
        values themselves are not modelled. */
    method SetAbsoluteThreshold(tsens: TempSensor?, cfgPresent: bool) returns (r: Status)
      modifies this`hw
      ensures r == if tsens == null then InvalidArg
                   else if tsens.fsm != FsmInit then InvalidState
                   else if !cfgPresent then InvalidArg
                   else Ok
      ensures hw == if r == Ok then old(hw).(sampleRate := ThresholdSampleRate, wakeMode := WakeAbsolute)
                    else old(hw)
    {
      if tsens == null {
        return InvalidArg;
      }
      if tsens.fsm != FsmInit {
        return InvalidState;
      }
      if !cfgPresent {
        return InvalidArg;
      }
      hw := hw.(sampleRate := ThresholdSampleRate, wakeMode := WakeAbsolute);
      r := Ok;
    }

    /** Programs delta wake-up thresholds; only in INIT. The threshold
        values themselves are not modelled. */
    method SetDeltaThreshold(tsens: TempSensor?, cfgPresent: bool) returns (r: Status)
      modifies this`hw
      ensures r == if tsens == null then InvalidArg
                   else if tsens.fsm != FsmInit then InvalidState
                   else if !cfgPresent then InvalidArg
                   else Ok
      ensures hw == if r == Ok then old(hw).(sampleRate := ThresholdSampleRate, wakeMode := WakeDelta)
                    else old(hw)
    {
      if tsens == null {
        return InvalidArg;
      }
      if tsens.fsm != FsmInit {
        return InvalidState;
      }
      if !cfgPresent {
        return InvalidArg;
      }
      hw := hw.(sampleRate := ThresholdSampleRate, wakeMode := WakeDelta);
      r := Ok;
    }

    /** Registers the threshold callback; only in INIT. The interrupt service
        is allocated on first use (`intrAlloc` is the allocator's outcome and
        becomes the result); a present callback enables the interrupt and is
        stored with its argument even when that allocation failed, an absent
        one disables the interrupt and leaves any stored callback in place. */
    method RegisterCallbacks(tsens: TempSensor?, cbs: Option<EventCallbacks>, userArg: nat, intrAlloc: Status)
      returns (r: Status)
      modifies tsens, this`hw
      ensures tsens == null ==> r == InvalidArg && hw == old(hw)
      ensures tsens != null && old(tsens.fsm) != FsmInit ==> r == InvalidState
      ensures tsens != null && old(tsens.fsm) == FsmInit && cbs.None? ==> r == InvalidArg
      ensures tsens != null && !(old(tsens.fsm) == FsmInit && cbs.Some?) ==>
        && hw == old(hw) && tsens.hasIsr == old(tsens.hasIsr)
        && tsens.onThreshold == old(tsens.onThreshold) && tsens.userArg == old(tsens.userArg)
      ensures tsens != null && old(tsens.fsm) == FsmInit && cbs.Some? ==>
        && r == (if old(tsens.hasIsr) then Ok else intrAlloc)
        && tsens.hasIsr == (old(tsens.hasIsr) || intrAlloc == Ok)
        && hw == old(hw).(intrEnabled := cbs.value.onThreshold.Some?)
        && (if cbs.value.onThreshold.Some? then
              tsens.onThreshold == cbs.value.onThreshold && tsens.userArg == userArg
            else
              tsens.onThreshold == old(tsens.onThreshold) && tsens.userArg == old(tsens.userArg))
      ensures tsens != null ==> && tsens.fsm == old(tsens.fsm) && tsens.attr == old(tsens.attr)
                                && tsens.clkSrc == old(tsens.clkSrc)
    {
      if tsens == null {
        return InvalidArg;
      }
      if tsens.fsm != FsmInit {
        return InvalidState;
      }
      if cbs.None? {
        return InvalidArg;
      }
      r := Ok;
      if !tsens.hasIsr {
        r := intrAlloc;
        tsens.hasIsr := intrAlloc == Ok;
      }
      if cbs.value.onThreshold.Some? {
        hw := hw.(intrEnabled := true);
        tsens.onThreshold := cbs.value.onThreshold;
        tsens.userArg := userArg;
      } else {
        hw := hw.(intrEnabled := false);
      }
    }
  }

  /** Only one instance at a time: a second install is refused while the
      first is in place, and after the first is uninstalled a new install
      succeeds (allocations succeeding, a covering range in the table). */
  method ReinstallAfterUninstall(d: Driver, cfg: Config)
    returns (first: Status, second: Status, removed: Status, third: Status)
    requires d.Valid() && !d.Installed()
    requires d.sleepRetentionSupported || !cfg.allowPd
    requires exists a :: a in d.table && Covers(a, cfg.rangeMin, cfg.rangeMax)
    modifies d
    ensures d.Valid() && d.Installed()
    ensures first == Ok && second == InvalidState && removed == Ok && third == Ok
  {
    var h1, h2, h3;
    first, h1 := d.Install(Some(cfg), true, true, true);
    second, h2 := d.Install(Some(cfg), true, true, true);
    removed := d.Uninstall(h1, Ok);
    third, h3 := d.Install(Some(cfg), true, true, true);
  }
}
