# Temperature-sensor driver: range selection and lifecycle

This project models the core of the ESP-IDF on-chip temperature-sensor driver
(`components/esp_driver_tsens/src/temperature_sensor.c`) in Dafny and proves
properties of the model. It covers two parts of the driver.

- **Measurement-range selection.** The chip has a static table of measurement
  ranges. Each range has a register code, an interval `[range_min, range_max]`
  and a worst-case error `error_max`. On install, the driver copies the table
  into a heap array and sorts the copy by `error_max` with `qsort`. It then
  takes the first sorted entry whose interval covers the interval the caller
  asked for. It also tells the rest of the system which table index it chose.
- **Lifecycle.** The driver has one global pointer to the sorted copy. A
  non-null pointer means "installed". Each handle holds a state `fsm`, which is
  INIT or ENABLE. Every public entry point checks its arguments and this state
  in a fixed order, and returns `ESP_ERR_INVALID_ARG` or
  `ESP_ERR_INVALID_STATE` when a check fails.

`attributes.dfy` (module `Attributes`) holds the range records and the
algorithms over them:

- the driver's comparator;
- an in-place sort of an `array`;
- the first-covering search;
- the search by register code;
- the lemmas that relate them.

`temperature_sensor.dfy` (module `TemperatureSensor`) holds two classes:

- `TempSensor`, the handle object with the fields the driver updates;
- `Driver`, the process-wide state: the range table, the sorted copy
  (`attrCopy`, null while not installed) and what the driver does to its
  environment.

The driver's environment is modelled as follows.

- **Outside outcomes as parameters.** Heap allocation (`callocOk`,
  `mallocOk`), interrupt allocation and release (`intrAlloc`, `intrFree`),
  the range code read back from the hardware (`dac`) and whether a reading
  falls in the measurable band (`inMeasureRange`, `rangeChanged`) are
  method parameters.
- **Ghost state.** Register writes go to the ghost record `hw`. The power
  reference count is `powerRefs`. The index passed to the shared range
  bookkeeping is `syncedIdx`. Handles allocated and not yet freed are in
  `live`.

Three points of the source are modelled exactly as written.

- **The clock source is always the default.** The handle comes from a
  zero-filling allocation, so install's test on its `clk_src` always sees 0.
  Install therefore always selects the default clock, and the configured
  clock source is never read (`BeginInstall`, `ClockSelection`).
- **The zero value of `fsm` is INIT.** On a failed install, the zero-filled
  handle goes to uninstall. That only passes uninstall's INIT check if INIT is
  the zero value of the state enum. The enum is declared outside this model,
  so this is an assumption, written down as the constant `FsmZero`.
- **`register_callbacks` stores the callback even when interrupt allocation
  fails.** It enables the interrupt, stores the callback and its argument,
  and then returns the allocation error. A null callback disables the
  interrupt but keeps a callback stored earlier.

The model covers chips with threshold-interrupt support. Whether the chip can
retain the sensor across light sleep is the driver constant
`sleepRetentionSupported`.

## Model

| member | source | states |
|---|---|---|
| `Attributes.AccuracyCompare` | components/esp_driver_tsens/src/temperature_sensor.c:46-49 | the driver's comparator never returns 0, and it is negative exactly when the first range has the smaller `error_max` |
| `Attributes.AccuracyCompareInconsistentOnTies` | components/esp_driver_tsens/src/temperature_sensor.c:46-49 | for two ranges with equal `error_max`, each compares greater than the other (see Findings) |
| `Attributes.AccuracyOrder` | components/esp_driver_tsens/src/temperature_sensor.c:46-49 | the corrected three-way comparator is negative, zero or positive exactly when `error_max` is smaller, equal or larger |
| `Attributes.AccuracyOrderConsistent` | components/esp_driver_tsens/src/temperature_sensor.c:46-49 | the corrected comparator is antisymmetric, and "not greater" is transitive, as a `qsort` comparator must be |
| `Attributes.AccuracyComparatorsAgree` | components/esp_driver_tsens/src/temperature_sensor.c:46-49 | the driver's comparator and the corrected one give the same answer on every pair with different `error_max` |
| `Attributes.SortByAccuracy` | components/esp_driver_tsens/src/temperature_sensor.c:58-59 | the in-place sort leaves the array ordered by non-decreasing `error_max`, and the result is a permutation of the input |
| `Attributes.FirstCovering` | components/esp_driver_tsens/src/temperature_sensor.c:65-67 | the chosen index covers `[lo, hi]` and no earlier entry does; when nothing is chosen, no entry covers the request |
| `Attributes.BestRangeIsMostAccurate` | components/esp_driver_tsens/src/temperature_sensor.c:51-81 | the first covering entry of the sorted copy is an entry of the table, covers the request and has the smallest `error_max` of all covering table entries; when there is none, no table entry covers the request |
| `Attributes.BestErrorIndependentOfTieOrder` | components/esp_driver_tsens/src/temperature_sensor.c:59-80 | any two accuracy-sorted orders of the table accept the same requests, and they choose ranges with the same `error_max` |
| `Attributes.IndexOfRegVal` | components/esp_driver_tsens/src/temperature_sensor.c:69-74 | the result is the first position with the given register code, or -1 exactly when no entry has that code |
| `Attributes.RegValSurvivesReordering` | components/esp_driver_tsens/src/temperature_sensor.c:55-75 | the register code of any entry of the sorted copy occurs in the original table, so the search for the original index always succeeds |
| `TemperatureSensor.TempSensor.Zeroed` | components/esp_driver_tsens/src/temperature_sensor.c:137 | a freshly allocated handle has every field zero: state INIT, clock 0, no range, no interrupt service, no callback |
| `TemperatureSensor.Driver.constructor` | components/esp_driver_tsens/src/temperature_sensor.c:44 | the driver starts not installed (null table copy) and the object invariant holds |
| `TemperatureSensor.Driver.AttributeTableSort` | components/esp_driver_tsens/src/temperature_sensor.c:51-61 | on a successful allocation, the copy is a fresh array holding the table sorted by accuracy (the invariant `Valid`); otherwise the result is `NoMem` and the copy is null |
| `TemperatureSensor.Driver.ChooseBestRange` | components/esp_driver_tsens/src/temperature_sensor.c:63-83 | the handle is bound to the first covering entry of the sorted copy, and the published index is that entry's first position in the table; with no covering entry the handle keeps its binding; the result is `Ok` exactly when the handle has a range |
| `TemperatureSensor.Driver.BeginInstall` | components/esp_driver_tsens/src/temperature_sensor.c:133-143 | a missing argument gives `InvalidArg` before the already-installed test gives `InvalidState`; a failed allocation gives `NoMem`; otherwise the new handle is zero-filled and its clock is the default whatever the configuration asks for (the test at :139 is the helper `ClockSelection`) |
| `TemperatureSensor.Driver.FinishInstall` | components/esp_driver_tsens/src/temperature_sensor.c:167-185 | the result is `Ok` exactly when the copy can be allocated and some table entry covers the request; the handle is then INIT on the most accurate covering range, and that range's code is programmed; any failure tears the handle down through uninstall, leaving the driver not installed, the power count as before the power-up, and the handle freed |
| `TemperatureSensor.Driver.InstallAsWritten` | components/esp_driver_tsens/src/temperature_sensor.c:128-186 | the power-down request refused on a chip without sleep retention returns `NotSupported`, and the live handles are the old ones plus exactly one new handle that nobody holds; the driver state is unchanged (see Findings) |
| `TemperatureSensor.Driver.Install` | components/esp_driver_tsens/src/temperature_sensor.c:128-186 | the full outcome table of install; a second install is refused with `InvalidState` while one is in place; a failed install leaves the installed flag, live handles, power count and published index unchanged; a successful one returns a fresh INIT handle on the default clock, bound to the most accurate table range covering the request |
| `TemperatureSensor.Driver.Uninstall` | components/esp_driver_tsens/src/temperature_sensor.c:188-223 | a null handle gives `InvalidArg`; a handle not in INIT gives `InvalidState` with nothing changed; otherwise the driver is no longer installed and the interrupt is disabled; the handle is freed and the power reference dropped, unless releasing the interrupt service fails, in which case that error is returned |
| `TemperatureSensor.Driver.UpdateAttribute` | components/esp_driver_tsens/src/temperature_sensor.c:225-237 | for a non-null handle the result is `Ok`, and the handle is rebound to the first entry of the sorted copy whose code equals the hardware offset; it keeps its range when no entry has that code |
| `TemperatureSensor.Driver.Enable` | components/esp_driver_tsens/src/temperature_sensor.c:239-261 | allowed only from INIT, which it turns into ENABLE with sampling on; otherwise `InvalidState` with the state unchanged |
| `TemperatureSensor.Driver.Disable` | components/esp_driver_tsens/src/temperature_sensor.c:263-281 | allowed only from ENABLE, which it turns into INIT with sampling off; otherwise `InvalidState` with the state unchanged |
| `TemperatureSensor.Driver.GetCelsius` | components/esp_driver_tsens/src/temperature_sensor.c:302-319 | a null handle or output gives `InvalidArg`; a handle not in ENABLE gives `InvalidState`; an out-of-band reading gives `Fail` with the range untouched; a good reading after a range change rebinds the range as `UpdateAttribute` does |
| `TemperatureSensor.Driver.SetAbsoluteThreshold` | components/esp_driver_tsens/src/temperature_sensor.c:333-346 | the checks run in the order null handle, then not INIT, then null configuration, so a non-INIT handle with a null configuration gives `InvalidState`; on success the absolute wake mode and the threshold sample rate are programmed |
| `TemperatureSensor.Driver.SetDeltaThreshold` | components/esp_driver_tsens/src/temperature_sensor.c:348-361 | the same check order as the absolute setter; on success the delta wake mode and the threshold sample rate are programmed |
| `TemperatureSensor.Driver.RegisterCallbacks` | components/esp_driver_tsens/src/temperature_sensor.c:363-400 | the same check order; the interrupt service is allocated only if none exists yet, and the allocation result is returned; a present callback enables the interrupt and is stored with its argument; an absent one disables the interrupt and keeps the stored callback |
| `TemperatureSensor.ReinstallAfterUninstall` | components/esp_driver_tsens/src/temperature_sensor.c:134-196 | install, install again, uninstall, install: the second install is refused with `InvalidState`, and the install after the uninstall succeeds |

## Left out

- The floating-point part of reading a temperature is not modelled: the calibration value from eFuse, the raw-to-Celsius conversion and the comparison with the measurable band (temperature_sensor.c:283-300, :311-314). The comparison's outcome is the parameter `inMeasureRange`.
- GetCelsius: does not produce the temperature value, because that value comes from the floating-point conversion above.
- SetAbsoluteThreshold: does not model the threshold values written to the registers, because the Celsius-to-register conversion uses fractional factors from a hardware header that is not part of this model.
- SetDeltaThreshold: does not model the threshold values, for the same reason.
- The interrupt handler (temperature_sensor.c:86-105) is not modelled. It runs in interrupt context and only converts a reading and calls the stored callback.
- Sleep-retention setup and teardown, `esp_sleep_pd_config`, logging and the 300 µs settling delay are not modelled. None of them affects the driver's state or results.
- The RC_FAST clock enable and disable in enable and disable is not modelled. That clock is gated by another component, and install always selects the default clock anyway.
- The IRAM-placement checks that `register_callbacks` makes under the ISR-IRAM-safe build option are not modelled. Deciding them needs the memory map.
- The values of the chip's range table and of the default clock source come from files that are not part of this model. The model takes them as the `Driver` constants `table` and `defaultClkSrc`.
- `qsort`'s algorithm is not modelled. `SortByAccuracy` is an insertion sort that asks the driver's comparator only whether one entry is strictly more accurate than another. The model assumes that `qsort`, given the driver's comparator, still returns a permutation of the table ordered by `error_max`. The C standard does not guarantee this, because that comparator is inconsistent on ties (see Findings). Ties may end up in any order, and `BestErrorIndependentOfTieOrder` shows that the tie order does not change the accuracy of the chosen range.
- Register codes are non-negative numbers (`nat`). Comparing the 32-bit unsigned offset with a signed code would wrap only for a negative code. The model takes every code in the table to be non-negative.
- Use of a handle after it has been freed is not prevented. `live` records which handles are freed, but the methods do not check it.
- GetCelsius: requires the sorted copy to exist only on the path that rebinds the range: a non-null handle and output, state ENABLE, an in-band reading and a range change. The source can reach that path without the copy. If releasing the interrupt service fails during uninstall (temperature_sensor.c:201), the copy has already been freed and set to NULL (:194-197), while the handle stays allocated in INIT. A later enable and reading would then make `s_update_tsens_attribute` dereference the NULL copy (:231). That crash is outside the model.
- UpdateAttribute: requires the sorted copy to exist when the handle is non-null, for the same reason.
- The SDIO slave driver and the GDMA link-list interfaces in the repository are declarations only. Their implementations are not part of this model.

## Findings

| source | as written | input that shows it | evidently intended | confidence | as-written member | corrected member |
|---|---|---|---|---|---|---|
| components/esp_driver_tsens/src/temperature_sensor.c:46-49 | The `qsort` comparator returns 1 when `error_max` is equal, so two tied ranges each compare greater than the other. This breaks the consistency the C library requires of a comparator. | two table entries with `error_max` 2 and 2 | return 0 for equal `error_max` | low, not executed | `Attributes.AccuracyCompareInconsistentOnTies` | `Attributes.AccuracyOrderConsistent` |
| components/esp_driver_tsens/src/temperature_sensor.c:137-146 | On chips without sleep retention, a configuration with `allow_pd` set is refused with `ESP_ERR_NOT_SUPPORTED` after the handle was allocated, and the handle is never freed. | `flags.allow_pd = 1` on a chip without sleep-retention support | free the handle before returning | medium, not executed | `TemperatureSensor.Driver.InstallAsWritten` | `TemperatureSensor.Driver.Install` |
