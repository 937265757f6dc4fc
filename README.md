# measure_temp sensor identity and enumeration, in Dafny

This project models how `measure_temp` names and enumerates hardware
sensors:

- **`Sensor` and its string form.** A `Sensor` is the record
  `(chip, addr, feature, num)`. Its canonical string form is
  `chip` + (`num` if nonzero) + `.` + `feature`. The address never appears.
- **`enumerate_all_sensors`.** It walks the detected chips in reported order.
  Each chip gets the least `num` whose `(label, num)` pair has not been
  recorded yet, and that pair is recorded before the chip's features are
  visited. It emits one `Sensor` per feature. With `readable_only`, it leaves
  out features whose read raises a sensors error.
- **Looking up one sensor (`read_sensor`).** Lookup works by structured
  identity or by string form. The body of `read_sensor` is not part of this
  model, so this part of the model follows the package's tests. The tests-only rows
  below cite test lines.

The hardware layer is abstracted away:

- The detected chips are an input `seq<Chip>`.
- A `Chip` carries its decoded label, its address and its features in order.
- A `Feature` is a name plus a `readable` flag. The flag is false exactly when
  `get_value()` raises a sensors error, which is how the tests' mock features
  behave.

Modules:

- `Decimal` (decimal.dfy): Python's `str()` of an `int`, with its inverse on
  digit strings.
- `SensorName` (sensor_name.dfy): the `Sensor` record, its string form, and a
  parser that reads a string form back.
- `Enumeration` (enumeration.dfy):
  - the specification function `Catalog`;
  - the imperative `EnumerateAllSensors`, a method with the source's loops,
    its `seq` accumulator and its `set<(string, int)>` of recorded pairs,
    proved equal to `Catalog`;
  - the properties of `Catalog`.
- `Resolver` (resolver.dfy): lookup by string form and by identity, modelled
  from the tests.
- `MockChips` (mock_chips.dfy): the five mock chips of the tests and the
  outcomes the tests expect, derived from the general lemmas.

Two points about the behaviour the model follows:

- **Error class.** The tests expect the not-found errors to be `ValueError`
  (measure_temp/tests/test_read_sensors.py:139, 144, 153). The model names
  the kinds of error, not Python classes.
- **Uniqueness of string forms.** The test at
  measure_temp/tests/test_read_sensors.py:37-40 expects the string forms of
  the enumerated sensors to be distinct. The code does not guarantee it. A
  chip labelled `ppu1` and the second chip labelled `ppu` both render as
  `ppu1.x` (`Enumeration.NamesCollide`). So uniqueness is proved only under
  a condition: no label contains a dot, and different chips get different
  chip parts (`Enumeration.NamesDistinct`). Labels without dots or trailing
  digits meet it (`Enumeration.NamesDistinctWellFormed`). The lookup lemmas
  assume only the distinct string forms themselves (`Enumeration.NamesUnique`).

## Model

| member | source | states |
|---|---|---|
| `Decimal.NatToDecimal` | measure_temp/read_sensors.py:71 | the rendered number is a nonempty digit string with a leading zero only for 0 |
| `Decimal.DecimalRoundTrip` | measure_temp/read_sensors.py:71 | reading the rendered digits back gives the number, so distinct nums render differently |
| `Decimal.IntToDecimal` | measure_temp/read_sensors.py:71 | `str()` of an int: the digits of the value with no leading zero (only "0" starts with '0'); for a negative value a '-' followed by the digits of the magnitude, again with no leading zero |
| `SensorName.ChipName` | measure_temp/read_sensors.py:71 | the label is a prefix of the chip part, and the chip part is longer than the label exactly when num is nonzero |
| `SensorName.Name` | measure_temp/read_sensors.py:70-71 | the string form is the chip part, then '.', then the feature name, at the stated positions |
| `SensorName.NameIgnoresAddress` | measure_temp/read_sensors.py:70-71 | changing the address never changes the string form |
| `SensorName.NameWithoutNumber` | measure_temp/tests/test_read_sensors.py:17-18 | num 0 adds no suffix: label, dot, feature |
| `SensorName.NameWithNumber` | measure_temp/tests/test_read_sensors.py:20-21 | a positive num is written right after the label, before the dot |
| `SensorName.NameExamples` | measure_temp/tests/test_read_sensors.py:17-21 | `Sensor("ppu", 314, "temp")` renders "ppu.temp" and `Sensor("ppu", 272, "temp", num=1)` renders "ppu1.temp" |
| `SensorName.ParseName` | measure_temp/read_sensors.py:70-71 | reads a string form back: it succeeds exactly when there is a dot, and the label it gives has no dot and does not end in a digit |
| `SensorName.NameRoundTrip` | measure_temp/read_sensors.py:70-71 | for a label without dots that does not end in a digit, and num >= 0, parsing the string form gives back label, num and feature |
| `SensorName.ChipNameDotFree` | measure_temp/read_sensors.py:71 | a label without a dot gives a chip part without a dot, for every num |
| `SensorName.ChipNameAndFeature` | measure_temp/read_sensors.py:70-71 | when neither chip part contains a dot, equal string forms have equal chip parts and equal feature names |
| `SensorName.NameInjective` | measure_temp/read_sensors.py:70-71 | under that label condition, equal string forms mean equal label, num and feature |
| `SensorName.NameCollision` | measure_temp/tests/test_read_sensors.py:37-40 | without the condition the string form is not one-to-one: ("ppu1", 0) and ("ppu", 1) both give "ppu1.x" |
| `Enumeration.EnumerateAllSensors` | measure_temp/read_sensors.py:74-106 | the nested loops with the least-free-num `while` return exactly `Catalog(chips, readableOnly)` |
| `Enumeration.NextChip` | measure_temp/read_sensors.py:93-105 | processing one chip appends its feature sensors with its assigned num and records exactly its (label, num) pair |
| `Enumeration.UsedPairsExact` | measure_temp/read_sensors.py:92-98 | after any prefix of chips, the nums recorded for a label are exactly 0 .. k-1, where k is the number of chips with that label so far |
| `Enumeration.LeastFreeNum` | measure_temp/read_sensors.py:95-98 | a chip's num is the least n >= 0 whose (label, n) is not yet recorded, and so equals the count of earlier chips with its label |
| `Enumeration.UsedPairsCount` | measure_temp/read_sensors.py:92-98 | each chip records a new pair: there are as many distinct pairs as chips |
| `Enumeration.LaterChipLargerNum` | measure_temp/read_sensors.py:93-99 | a later chip with the same label gets a larger num, even if the earlier chip has no features |
| `Enumeration.PairsDistinct` | measure_temp/read_sensors.py:92-98 | the (label, num) pairs of two different chips differ |
| `Enumeration.CatalogMembership` | measure_temp/read_sensors.py:93-105 | a sensor is enumerated iff it is the sensor of some feature of some chip, with that chip's label, address and num, and that feature is readable when only readable sensors are asked for |
| `Enumeration.CatalogEntryLocated` | measure_temp/read_sensors.py:93-105 | every enumerated sensor has a chip and feature it comes from |
| `Enumeration.LocatedInCatalog` | measure_temp/read_sensors.py:99-105 | every feature that passes the filter is enumerated |
| `Enumeration.CatalogLength` | measure_temp/read_sensors.py:91-106 | unfiltered, there is one sensor per feature, and no chips give an empty list |
| `Enumeration.CatalogOrder` | measure_temp/read_sensors.py:93-105 | unfiltered, feature j of chip i sits at position (features of earlier chips) + j: chip-then-feature order, no re-sorting |
| `Enumeration.CatalogSubsequence` | measure_temp/read_sensors.py:100-105 | the readable-only result is an order-preserving subsequence of the unfiltered one, with identical nums |
| `Enumeration.ReadableExactly` | measure_temp/read_sensors.py:100-105 | with distinct feature names per chip, a feature's sensor is in the readable-only result iff its read succeeds |
| `Enumeration.CatalogKeysDistinct` | measure_temp/read_sensors.py:93-105 | with distinct feature names per chip, no two entries share label, num and feature |
| `Enumeration.SensorsDistinct` | measure_temp/tests/test_read_sensors.py:32-35 | with distinct feature names per chip, the enumerated sensors are pairwise distinct |
| `Enumeration.WellFormedChipNamesDistinct` | measure_temp/read_sensors.py:92-98 | labels with no dot and no trailing digit are dot-free and give every chip its own chip part (label followed by its num) |
| `Enumeration.NameDeterminesKey` | measure_temp/tests/test_read_sensors.py:37-40 | with dot-free labels and distinct chip parts, two enumerated sensors with the same string form agree on label, num and feature |
| `Enumeration.NamesDistinct` | measure_temp/tests/test_read_sensors.py:37-40 | with distinct feature names per chip, dot-free labels and distinct chip parts, the string forms are pairwise distinct |
| `Enumeration.NamesDistinctWellFormed` | measure_temp/tests/test_read_sensors.py:37-40 | with distinct feature names and labels that have no dot and do not end in a digit, the string forms are pairwise distinct |
| `Enumeration.NamesUniqueFeatureNames` | measure_temp/tests/test_read_sensors.py:37-40 | distinct string forms in the unfiltered result imply distinct feature names within each chip |
| `Enumeration.NamesCollide` | measure_temp/tests/test_read_sensors.py:37-40 | chips labelled "ppu1", "ppu", "ppu" enumerate to two sensors that both render "ppu1.x" |
| `Resolver.ResolveName` | measure_temp/tests/test_read_sensors.py:126-127 | a string resolves to an unfiltered enumerated sensor with that string form, and fails with "could not find" iff no enumerated sensor has it |
| `Resolver.NameIndexSpec` | measure_temp/tests/test_read_sensors.py:126-136 | the string-to-sensor mapping has a key for every enumerated sensor's string form, and each key maps to an enumerated sensor with that string form |
| `Resolver.NameIndexLatest` | measure_temp/tests/test_read_sensors.py:126-136 | a string form maps to the last entry that has it: a later entry with the same string form replaces an earlier one |
| `Resolver.NameIndexExact` | measure_temp/tests/test_read_sensors.py:126-136 | when string forms are distinct, the mapping sends each one to its own sensor |
| `Resolver.FindChip` | measure_temp/tests/test_read_sensors.py:129-140 | the first chip at the address, or none when no chip has it; whenever some chip is the first at the address, the result is that chip |
| `Resolver.FindFeature` | measure_temp/tests/test_read_sensors.py:142-149 | the first feature with the name, or none when the chip has no such feature; whenever some feature is the first with the name, the result is that feature |
| `Resolver.ReadLocated` | measure_temp/tests/test_read_sensors.py:121-149 | the exact outcome of reading by identity: "chip not found" iff no chip has the address; otherwise, for the first chip at the address, "feature not found" (naming the feature and the label+num form) iff that chip has no feature with the name; otherwise, for the first such feature, a read of it when readable and a sensors error when not |
| `Resolver.ReadSensor` | measure_temp/tests/test_read_sensors.py:121-160 | reading by either locator: by identity, the exact outcome stated for `ReadLocated`; by string, "could not find" iff the string matches no enumerated string form, and otherwise the exact outcome of reading some enumerated sensor with that string form |
| `Resolver.ReadAtAddress` | measure_temp/tests/test_read_sensors.py:129-133 | with distinct addresses and feature names, the address alone picks the chip, whatever the label and num; an unreadable feature is a sensors error |
| `Resolver.ReadEnumerated` | measure_temp/tests/test_read_sensors.py:158-160 | reading an enumerated sensor reaches its own chip and feature, or a sensors error (not a not-found error) when it is unreadable |
| `Resolver.ReadableEnumeratedReads` | measure_temp/tests/test_read_sensors.py:42-56 | every sensor of the readable-only enumeration can be read |
| `Resolver.ResolveEnumerated` | measure_temp/tests/test_read_sensors.py:126-136 | when the string forms are distinct, the string form of every enumerated sensor resolves back to that sensor |
| `Resolver.NameResolvesToSensor` | measure_temp/tests/test_read_sensors.py:126-136 | when the string forms are distinct, reading by string form and by identity give the same outcome for every enumerated sensor |
| `Resolver.ReadEnumeratedByName` | measure_temp/tests/test_read_sensors.py:126-136 | with distinct addresses and distinct string forms, reading an enumerated sensor by string form reaches its own chip and feature, or a sensors error when it is unreadable |
| `MockChips.ChipsWellFormed` | measure_temp/tests/test_read_sensors.py:85-113 | the mock chips have distinct addresses, distinct feature names per chip and labels without dots or trailing digits |
| `MockChips.ChipsNamesUnique` | measure_temp/tests/test_read_sensors.py:85-113 | the mock chips' string forms are pairwise distinct |
| `MockChips.ChipsNums` | measure_temp/tests/test_read_sensors.py:97-112 | the "fluxcapacitor" chips at 9309 and 1809 get nums 0 and 1, in order; all other chips get 0 |
| `MockChips.MomentumExcluded` | measure_temp/tests/test_read_sensors.py:88-90 | the unreadable "momentum" feature is left out of the readable-only enumeration but not of the full one; "position" is kept |
| `MockChips.ReadByIdentity` | measure_temp/tests/test_read_sensors.py:121-124 | `Sensor("zpm", 2004, "power")` reads the zpm chip's power feature |
| `MockChips.ReadByString` | measure_temp/tests/test_read_sensors.py:126-127 | "ppu.temp" reads the ppu chip's temp feature |
| `MockChips.ReadSharedLabelByAddress` | measure_temp/tests/test_read_sensors.py:129-133 | addresses 9309 and 1809 read the power feature of the first and second fluxcapacitor |
| `MockChips.ReadSharedLabelBySuffix` | measure_temp/tests/test_read_sensors.py:135-136 | "fluxcapacitor1.year" reads the second fluxcapacitor's year |
| `MockChips.ChipNotFoundAtAddress` | measure_temp/tests/test_read_sensors.py:138-140 | address 1997 gives "chip not found" for zpm at 1997 |
| `MockChips.ChipNotFoundMessage` | measure_temp/tests/test_read_sensors.py:139 | its message is "Chip zpm not found at address 1997" |
| `MockChips.FeatureNotFoundOnChip` | measure_temp/tests/test_read_sensors.py:142-149 | "speed" on the chip at 1809 gives "feature not found" naming chip "fluxcapacitor1" |
| `MockChips.FeatureNotFoundMessage` | measure_temp/tests/test_read_sensors.py:145 | its message is "Feature speed not found on chip fluxcapacitor1" |
| `MockChips.StringNotRecognized` | measure_temp/tests/test_read_sensors.py:151-156 | "fluxcapacitor.year" matches no enumerated string form |
| `MockChips.UnreadableIsSensorsError` | measure_temp/tests/test_read_sensors.py:158-160 | "heisenbergcompensator.momentum" resolves, and reading it is a sensors error |

## Left out

- `sensors_session` (measure_temp/read_sensors.py:10-16): it only initialises and cleans up the native library. The chip list is an input instead, so there is no session to open or close.
- `report_all_readings` (measure_temp/read_sensors.py:19-45): it prints, and it chooses between notebook and terminal output by environment detection. detect_notebook is not part of this model.
- Sensor values: they are floating-point readings from the native library. Only whether a read succeeds is modelled, and a successful read returns the position of the chip and feature that was read.
- Exceptions other than a sensors error from `get_value()`: these propagate out of the enumeration and are not modelled.
- `chip.prefix.decode()`: labels are taken as already decoded strings. A decoding failure is not modelled.
- `readable_only` accepts `None`, which behaves like `False`. It is a `bool` here.
- The ordering and hashing that `NamedTuple` gives `Sensor` (used by the tests' `sorted(set(...))`) is not modelled. Distinctness is stated directly.
- `read_sensor`: its body is not part of this model. The `Resolver` module follows the tests. It takes the first chip at the address and the first feature with the name, and a later entry with the same string form replaces an earlier one in the name mapping.
- Matching a structured identity by address alone is a modelling assumption. The tests at measure_temp/tests/test_read_sensors.py:129-149 pass just as well if the chip is matched by label and address together, as the test's own lookup at measure_temp/tests/test_read_sensors.py:46 does.
- The hardware is assumed not to change between enumerating and reading. `ResolveName` enumerates the same `chips` that the read then searches, so chip order, addresses and readability are the same in both. The source queries the live hardware again for each call. The round-trip lemmas (`Resolver.NameResolvesToSensor`, `Resolver.ReadableEnumeratedReads`, `Resolver.ReadEnumeratedByName`) hold only under this assumption.
- `Sensor.num` is an `int` and cannot be `None`. The docstring at measure_temp/read_sensors.py:60-61 allows `None`, which renders like 0 through the truthiness test at measure_temp/read_sensors.py:71.
- measure_temp/_attrdict.py, measure_temp/__init__.py and setup.py: these are a dict wrapper and packaging, and have no logic in the core.
- Enumeration.NamesDistinct: holds only when no label contains '.' and different chips get different chip parts, because the source does not guarantee distinct string forms otherwise (see Enumeration.NamesCollide).
- Enumeration.SensorsDistinct: holds only when feature names are distinct within each chip. The enumeration does not check this, and the native library is what provides it.
- Resolver.ReadEnumerated: holds only for chips with distinct addresses and distinct feature names per chip. Lookup by identity takes the first chip at the address and the first feature with the name, so with repeated addresses or names it can reach a different chip or feature.
- Resolver.ReadableEnumeratedReads: holds only for chips with distinct addresses and distinct feature names per chip, for the same reason.
- Resolver.ReadEnumeratedByName: holds only for chips with distinct addresses and distinct string forms. With repeated string forms, a later sensor with the same string form wins (Resolver.NameIndexLatest).
- Resolver.ResolveEnumerated: holds only when the string forms of the unfiltered result are distinct, for the same reason.
- Resolver.NameResolvesToSensor: holds only when the string forms of the unfiltered result are distinct, for the same reason.
