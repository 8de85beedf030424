# measure — rate sampler and unit formatter, modelled in Dafny

`measure` is a pipeline stage (`producer | measure | consumer`) that counts the bytes
flowing through it and, at most once per second, writes the observed rate as a line such as
`195.4 KiB/s` to a side channel. This project models its two pieces of logic:

- **Unit scaler and formatter** (`src/unit.rs`, module `Units` in `unit.dfy`): the five binary
  units with their multipliers (1, 2^10, 2^20, 2^30, 2^40) and prefixes ("", "Ki", "Mi",
  "Gi", "Ti"), `Amount` (a byte count with a display unit), `Amount::new`,
  `Amount::auto_detect` (both the loop as written and a corrected total version),
  `to_quantity` and the `"<quantity to one decimal> <prefix>B"` display.
- **Rate sampler** (`src/main.rs`, module `Measure` in `main.dfy`): the `-u` value to
  `SelectedUnit` mapping, `print_rate`'s choice between a fixed and a detected unit
  (including the detection panic), the `"<amount>/s\n"` line, and the body of the main
  loop as a pure `Step` over a window state (bytes accumulated, time of last report), plus `Run`, which folds `Step` over a finite
  sequence of reads.

Supporting modules: `Wrappers` (`wrappers.dfy`, an `Option` type) and `Decimal`
(`decimal.dfy`, decimal numerals and their parsers, used to state that the display can be
read back).

Modelling choices:

- Byte counts are natural numbers. The only caller passes an integer count
  (`bytes as u64 as f64`), so `auto_detect`'s float loop is modelled over a `real` working copy
  of an integer. Dividing by 1024 is exact in binary floating point and 1024^4 is exactly
  representable, so "the working copy exceeds 1.0 after k divisions" is exactly
  "bytes > 1024^k".
- `UnitValue`'s discriminants (`1 << 10` etc.) appear as the literals in `Units.ToValue`,
  which is proved equal to an independent definition, `Pow1024`.
- The clock is an input: each read comes with the wall-clock time in integer nanoseconds.
  `Duration::as_secs() >= 1` is `now - dt >= 10^9`. A clock that went backwards makes
  `to_std().unwrap()` panic. This is the `ClockWentBack` outcome, not a precondition.
- `{:.1}` is modelled as a whole number of tenths, rounded to nearest (see Left out for ties).
- The `auto_detect` defect (see Findings) is modelled in three members:
  - `AutoDetectAsWritten` runs the loop and indexing as written, with `None` for the panic.
  - `AutoDetectOutcome` is the same result as a function, and the method is proved to compute it.
  - `AutoDetect` is the corrected version, which selects Byte for counts of at most 1.

  The sampler follows the program as written. Under automatic units, a report of at most
  1 byte ends the step in `DetectionPanicked`.

## Model

| member | source | states |
|---|---|---|
| Units.ToValue | src/unit.rs:13-32 | each unit's multiplier is 1024 raised to its position in the scale order: 1, 2^10, 2^20, 2^30, 2^40 |
| Units.ToValueStrictlyIncreasing | src/unit.rs:13-32 | multipliers are strictly increasing in scale order, in both directions |
| Units.Prefix | src/unit.rs:35-45 | the prefix is empty exactly for Byte; every other unit has a two-letter binary prefix ending in 'i' |
| Units.PrefixRoundTrip | src/unit.rs:35-45 | the prefix table is exactly Byte:"", Kilo:"Ki", Mega:"Mi", Giga:"Gi", Tera:"Ti" — each unit has one prefix and each prefix names one unit |
| Units.New | src/unit.rs:53-55 | construction stores the count and the unit as given |
| Units.CountDivisions | src/unit.rs:58-65 | the divide-by-1024 loop runs at most five times and stops after exactly as many divisions as there are powers 1024^j (j < 5) the count exceeds |
| Units.AutoDetectAsWritten | src/unit.rs:57-68 | as written, detection panics exactly when the count is at most 1; otherwise it keeps the original count and picks the largest k <= 4 with bytes > 1024^k; the loop's result is exactly AutoDetectOutcome |
| Units.AutoDetectOutcome | src/unit.rs:57-68 | the source's detection as a value: a panic exactly for counts of at most 1, otherwise the original count in the largest unit k <= 4 with bytes > 1024^k |
| Units.AutoDetect | src/unit.rs:57-68 | detection keeps the original undivided count and picks the largest unit k <= 4 with bytes > 1024^k, Byte when there is none |
| Units.AutoUnitUnique | src/unit.rs:62-67 | the unit detection is meant to choose is unique for each count |
| Units.AutoDetectExamples | src/unit.rs:102-109 | 42 gives Byte, exactly 1024 gives Byte (strict comparison), 2048 Kilo, 1234567 Mega, 1234567890 Giga, 1234567890123 Tera; 0 and 1 give Byte |
| Units.ToQuantity | src/unit.rs:72-74 | the shown quantity times the unit's multiplier is the stored count |
| Units.QuantityTenths | src/unit.rs:72-80 | the one-decimal quantity is the tenth nearest to the shown quantity: (2t-1)/20 <= to_quantity < (2t+1)/20, also stated over integers as (2t-1)·multiplier <= 20·bytes < (2t+1)·multiplier |
| Units.Display | src/unit.rs:77-80 | the rendering ends with a space, the unit's prefix and "B", after at least the three characters of a one-decimal number |
| Units.DisplayRoundTrip | src/unit.rs:77-80 | the display is "<integer part>.<one digit> <prefix>B", from which the tenths and the unit are recovered exactly |
| Units.DisplayBytesExample | src/unit.rs:113 | 42 bytes detected as Byte render as "42.0 B" |
| Units.DisplayKiloExample | src/unit.rs:114 | 200124 bytes detected as Kilo render as "195.4 KiB" |
| Units.DisplayGigaExample | src/unit.rs:72-80 | an amount built with a fixed unit is never rescaled: 100 bytes in Giga render as "0.0 GiB" |
| Decimal.ParseNatToString | src/unit.rs:79 | the integer part of the quantity is written as a decimal numeral that reads back to the same number |
| Decimal.FormatTenths | src/unit.rs:79 | a count of tenths is written as an all-digit integer part, a '.', and one digit equal to the count modulo 10 |
| Decimal.FormatTenthsRoundTrip | src/unit.rs:79 | a quantity written with exactly one decimal digit reads back to the same count of tenths |
| Measure.UnitLetter | src/main.rs:33 | every unit is named by one of the accepted option values b, k, m, g, t |
| Measure.SelectUnit | src/main.rs:68-80 | the selection is Auto exactly when the option is absent or not one of b, k, m, g, t; a fixed unit is selected only by its own letter |
| Measure.SelectUnitRoundTrip | src/main.rs:68-80 | "b", "k", "m", "g", "t" select Byte, Kilo, Mega, Giga, Tera |
| Measure.RateAmount | src/main.rs:16-22 | print_rate panics exactly when the unit is Auto and the count is at most 1; otherwise it shows the count unchanged, in the fixed unit as given or in the detected unit for Auto |
| Measure.RateLine | src/main.rs:24 | the line ends with "/s" and a newline |
| Measure.RateLineReadsBack | src/main.rs:24 | the line is the rendered amount followed by "/s" and a newline: the amount's tenths and unit are read back from what precedes "/s\n" |
| Measure.KiloRateLineExample | src/main.rs:16-24 | 2048 bytes with the unit fixed to Kilo are shown in Kilo and give the line "2.0 KiB/s\n" |
| Measure.Start | src/main.rs:83-84 | the loop starts with no bytes accumulated and the window starting at the start time |
| Measure.Step | src/main.rs:86-109 | a read adds its count. The step crashes on the clock exactly when it went back. It panics in detection exactly when a second has elapsed, the unit is Auto and the accumulated count is at most 1. Otherwise it reports exactly when at least one whole second elapsed: the report shows the whole accumulated count as print_rate does, the counter becomes 0 and the window restarts at now. Without a report the window start is kept |
| Measure.ZeroReadKeepsWindow | src/main.rs:86-92 | a zero-length read within a window leaves the state unchanged and the loop continues |
| Measure.Run | src/main.rs:86-110 | a run emits at most one report per read; every report shows its count as print_rate does and carries that amount's line |
| Measure.RunConservesBytes | src/main.rs:87-108 | the counts reported plus the count still accumulated equal the initial count plus every byte read |
| Measure.RunWithinOneSecondIsQuiet | src/main.rs:101-104 | reads arriving within one second of the last report emit nothing, keep the window start and only add to the counter |
| Measure.QuietStepThenRun | src/main.rs:101-104 | a read within the window passes its accumulated count on to the rest of the run unchanged |
| Measure.FixedUnitCrashesOnlyOnClock | src/main.rs:101-107 | with a fixed unit the loop survives exactly when no read's time is earlier than the start of the window in force, a window restarting at every read a whole second or more after its start |
| Measure.ClockBackInsideWindowExample | src/main.rs:101-107 | a clock stepping back inside a window (0.5 s, then 0.3 s) does not crash the loop |
| Measure.RunOnMonotoneClockNeverCrashes | src/main.rs:101-107 | with a fixed unit and a clock that never goes backwards and starts no earlier than the window, the loop never crashes |
| Measure.RunReportsSpaced | src/main.rs:101-109 | in every run that does not crash, whatever the clock does, reports are at least one second apart and the current window starts at the last report |
| Measure.AutoPanicsAfterInputEnds | src/main.rs:86-109 | under Auto, whatever was accumulated, two zero-length reads one second and two seconds after the last report end in a panic |
| Measure.ReportingRead | src/main.rs:101-109 | a single read a second or more after the last report emits exactly one report of the whole accumulated count and starts a fresh window |
| Measure.KiloWindowExample | src/main.rs:83-109 | 1024 + 1024 bytes read within one second with unit Kilo produce exactly one line "2.0 KiB/s\n" at the second boundary and an empty window |

## Findings

| source | as written | input that shows it | evidently intended | confidence | as-written member | corrected member |
|---|---|---|---|---|---|---|
| src/unit.rs:60-67 | `scales[counter - 1]` with `counter == 0` when no division happened | a report of 0 or 1 bytes under automatic units. For example, once input ends, zero-length reads keep the loop turning. Within about two seconds a report for at most 1 byte is made, and the program panics (Measure.AutoPanicsAfterInputEnds) | select Byte when the count is at most 1 | high, not executed | Units.AutoDetectAsWritten | Units.AutoDetect |

## Left out

- The byte copy from standard input to standard output (src/main.rs:87-99) is not modelled. Only each read's length enters the model. It is not a passthrough: line 94 writes the whole 4096-byte buffer whatever the read length was.
- Command-line parsing and the file-or-standard-error sink (src/main.rs:33-66) are library and OS calls. Only the mapping of the unit option's value is modelled. The parser already rejects values outside b, k, m, g, t, so the `_ => Auto` arm of the match is unreachable from the command line; `SelectUnit` still models it.
- Clock reads (`Local::now`, src/main.rs:84 and 101) are not modelled: each read carries its timestamp.
- I/O failures (src/main.rs:90, 97) and the ignored result of `writeln!` (src/main.rs:24) are not modelled.
- The loop never ends, as in the source. `Step` has no end-of-input outcome, and `Run` covers finite prefixes only.
- Units.QuantityTenths: rounds an exact tie (a quantity ending in x.x5 exactly) upward. The standard library's `{:.1}` rounding of exact ties is not modelled. Away from ties both give the nearest tenth.
- Units.AutoDetect: counts are natural numbers. The source's fractional test input 200124.42 is checked as 200124, which gives the same "195.4 KiB". The `u64` to `f64` rounding above 2^53 is not modelled. It cannot change the unit chosen. It can change the displayed digit only when the quantity lies within that rounding error of a rounding boundary.
- Measure.Step: the `usize` byte counter is unbounded here. Its overflow is not modelled: it wraps in release builds and panics in debug builds, after 2^64 bytes in one window on 64-bit targets and 2^32 on 32-bit ones.
