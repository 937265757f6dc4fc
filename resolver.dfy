// Lookup of one sensor by its structured identity or by its string form
// (read_sensor). The body of read_sensor is not part of this model; the
// behaviour here follows the package's tests: a string is resolved
// against a fresh unfiltered enumeration, the chip is then found by address,
// the feature by name, and a feature that cannot be read is a sensors error
// rather than a not-found error. Matching the chip by address alone is a
// modelling choice: the tests pass just as well when the label is matched
// too. Values are not modelled: a successful read returns the position of
// the chip and feature that was read.

module Resolver {
  import opened Decimal
  import opened SensorName
  import opened Enumeration

  datatype Locator = ByIdentity(sensor: Sensor) | ByName(descriptor: string)

  datatype ReadError =
    | DescriptorNotFound(descriptor: string)
    | ChipNotFound(chip: string, addr: int)
    | FeatureNotFound(feature: string, chipName: string)
    | SensorsError

  /** Which chip (index in the detected list) and which of its features was read. */
  datatype Location = Location(chip: nat, feature: nat)

  datatype Result<T> = Ok(value: T) | Err(error: ReadError)

  /** The messages the not-found errors carry (a sensors error carries the hardware layer's own message). */
  function NotFoundMessage(e: ReadError): string
    requires !e.SensorsError?
  {
    match e
    case DescriptorNotFound(d) => "Could not find a sensor matching descriptor " + d
    case ChipNotFound(chip, addr) => "Chip " + chip + " not found at address " + IntToDecimal(addr)
    case FeatureNotFound(feature, chipName) => "Feature " + feature + " not found on chip " + chipName
  }

  predicate AddressesDistinct(chips: seq<Chip>) {
    forall i, k :: 0 <= i < k < |chips| ==> chips[i].addr != chips[k].addr
  }

  // ---------------------------------------------------------------------
  // From string form to identity

  /** The mapping from string form to sensor; a later entry with the same string replaces an earlier one. */
  function NameIndex(cat: seq<Sensor>): map<string, Sensor>
  {
    if cat == [] then map[]
    else NameIndex(cat[..|cat| - 1])[Name(cat[|cat| - 1]) := cat[|cat| - 1]]
  }

  /** Every entry's string form is a key, and each key maps to an entry with that string form. */
  lemma {:induction false} NameIndexSpec(cat: seq<Sensor>)
    ensures forall k :: k in NameIndex(cat) ==> NameIndex(cat)[k] in cat && Name(NameIndex(cat)[k]) == k
    ensures forall s :: s in cat ==> Name(s) in NameIndex(cat)
  {
    if cat != [] {
      var front, last := cat[..|cat| - 1], cat[|cat| - 1];
      assert cat == front + [last];
      NameIndexSpec(front);
      var m := NameIndex(front);
      forall k | k in NameIndex(cat) ensures NameIndex(cat)[k] in cat && Name(NameIndex(cat)[k]) == k {
        if k != Name(last) {
          assert k in m && NameIndex(cat)[k] == m[k];
        }
      }
      forall s | s in cat ensures Name(s) in NameIndex(cat) {
        if s != last {
          assert s in front;
        }
      }
    }
  }

  /** A string form maps to the last entry that has it: later entries replace earlier ones. */
  lemma {:induction false} NameIndexLatest(cat: seq<Sensor>, p: nat)
    requires p < |cat|
    requires forall q :: p < q < |cat| ==> Name(cat[q]) != Name(cat[p])
    ensures Name(cat[p]) in NameIndex(cat) && NameIndex(cat)[Name(cat[p])] == cat[p]
  {
    if p < |cat| - 1 {
      var front := cat[..|cat| - 1];
      assert front[p] == cat[p];
      forall q | p < q < |front| ensures Name(front[q]) != Name(front[p]) {
        assert front[q] == cat[q];
      }
      NameIndexLatest(front, p);
      assert Name(cat[|cat| - 1]) != Name(cat[p]);
    }
  }

  /** When all string forms differ, the index maps each string form to its own sensor. */
  lemma NameIndexExact(cat: seq<Sensor>, p: nat)
    requires NamesUnique(cat)
    requires p < |cat|
    ensures Name(cat[p]) in NameIndex(cat) && NameIndex(cat)[Name(cat[p])] == cat[p]
  {
    NameIndexLatest(cat, p);
  }

  /** Resolves a string form against a fresh unfiltered enumeration. */
  function ResolveName(chips: seq<Chip>, descriptor: string): (r: Result<Sensor>)
    ensures r.Ok? ==> r.value in Catalog(chips, false) && Name(r.value) == descriptor
    ensures r.Err? <==> forall s :: s in Catalog(chips, false) ==> Name(s) != descriptor
    ensures r.Err? ==> r.error == DescriptorNotFound(descriptor)
  {
    var index := NameIndex(Catalog(chips, false));
    NameIndexSpec(Catalog(chips, false));
    if descriptor in index then Ok(index[descriptor]) else Err(DescriptorNotFound(descriptor))
  }

  // ---------------------------------------------------------------------
  // From identity to a reading

  /** Chip i is the first one at this address. */
  predicate FirstChipAt(chips: seq<Chip>, addr: int, i: int) {
    0 <= i < |chips| && chips[i].addr == addr && forall k :: 0 <= k < i ==> chips[k].addr != addr
  }

  /** Feature j is the first one with this name. */
  predicate FirstFeatureNamed(fs: seq<Feature>, name: string, j: int) {
    0 <= j < |fs| && fs[j].name == name && forall k :: 0 <= k < j ==> fs[k].name != name
  }

  /**
   * What reading a structured identity gives: chip not found exactly when no
   * chip has its address; otherwise, with i the first chip at that address,
   * feature not found exactly when chip i has no feature with its name;
   * otherwise, with j the first such feature, a read of (i, j) when that
   * feature is readable and a sensors error when it is not.
   */
  ghost predicate IdentityReadOutcome(chips: seq<Chip>, s: Sensor, r: Result<Location>) {
    (r == Err(ChipNotFound(s.chip, s.addr)) <==> forall k :: 0 <= k < |chips| ==> chips[k].addr != s.addr)
    && (forall i :: FirstChipAt(chips, s.addr, i) ==>
          (r == Err(FeatureNotFound(s.feature, ChipName(s.chip, s.num))) <==>
            forall j :: 0 <= j < |chips[i].features| ==> chips[i].features[j].name != s.feature))
    && (forall i, j :: FirstChipAt(chips, s.addr, i) && FirstFeatureNamed(chips[i].features, s.feature, j) ==>
          r == (if chips[i].features[j].readable then Ok(Location(i, j)) else Err(SensorsError)))
  }

  /** The first chip at this address. */
  function FindChip(chips: seq<Chip>, addr: int): (r: Option<nat>)
    ensures r.Some? ==> FirstChipAt(chips, addr, r.value)
    ensures forall k :: FirstChipAt(chips, addr, k) ==> r == Some(k)
    ensures r.None? ==> forall k :: 0 <= k < |chips| ==> chips[k].addr != addr
  {
    if chips == [] then None
    else if chips[0].addr == addr then Some(0)
    else match FindChip(chips[1..], addr)
      case None => None
      case Some(k) => Some(k + 1)
  }

  /** The first feature with this name. */
  function FindFeature(fs: seq<Feature>, name: string): (r: Option<nat>)
    ensures r.Some? ==> FirstFeatureNamed(fs, name, r.value)
    ensures forall k :: FirstFeatureNamed(fs, name, k) ==> r == Some(k)
    ensures r.None? ==> forall k :: 0 <= k < |fs| ==> fs[k].name != name
  {
    if fs == [] then None
    else if fs[0].name == name then Some(0)
    else match FindFeature(fs[1..], name)
      case None => None
      case Some(k) => Some(k + 1)
  }

  /** Reads the sensor a structured identity names: address picks the chip, the feature name picks the feature. */
  function ReadLocated(chips: seq<Chip>, s: Sensor): (r: Result<Location>)
    ensures r.Ok? ==> (r.value.chip < |chips| && r.value.feature < |chips[r.value.chip].features|
      && chips[r.value.chip].addr == s.addr
      && chips[r.value.chip].features[r.value.feature].name == s.feature
      && chips[r.value.chip].features[r.value.feature].readable)
    ensures r == Err(ChipNotFound(s.chip, s.addr)) <==> forall k :: 0 <= k < |chips| ==> chips[k].addr != s.addr
    ensures r.Err? && r.error.FeatureNotFound? ==>
      r.error == FeatureNotFound(s.feature, ChipName(s.chip, s.num))
      && exists k :: 0 <= k < |chips| && chips[k].addr == s.addr
    ensures r.Err? ==> !r.error.DescriptorNotFound?
    ensures IdentityReadOutcome(chips, s, r)
  {
    match FindChip(chips, s.addr)
    case None => Err(ChipNotFound(s.chip, s.addr))
    case Some(i) =>
      match FindFeature(chips[i].features, s.feature)
      case None => Err(FeatureNotFound(s.feature, ChipName(s.chip, s.num)))
      case Some(j) =>
        if chips[i].features[j].readable then Ok(Location(i, j)) else Err(SensorsError)
  }

  /** Reads a sensor given either its identity or its string form. */
  function ReadSensor(chips: seq<Chip>, loc: Locator): (r: Result<Location>)
    ensures r.Err? && r.error.DescriptorNotFound? <==>
      loc.ByName? && forall s :: s in Catalog(chips, false) ==> Name(s) != loc.descriptor
    ensures r.Err? && r.error.DescriptorNotFound? ==> r.error.descriptor == loc.descriptor
    ensures r.Ok? ==> (r.value.chip < |chips| && r.value.feature < |chips[r.value.chip].features|
      && chips[r.value.chip].features[r.value.feature].readable)
    ensures r.Ok? && loc.ByIdentity? ==>
      chips[r.value.chip].addr == loc.sensor.addr
      && chips[r.value.chip].features[r.value.feature].name == loc.sensor.feature
    ensures r.Ok? && loc.ByName? ==>
      exists s :: s in Catalog(chips, false) && Name(s) == loc.descriptor
        && chips[r.value.chip].addr == s.addr
        && chips[r.value.chip].features[r.value.feature].name == s.feature
    ensures loc.ByIdentity? ==> IdentityReadOutcome(chips, loc.sensor, r)
    ensures loc.ByName? && !(r.Err? && r.error.DescriptorNotFound?) ==>
      exists s :: s in Catalog(chips, false) && Name(s) == loc.descriptor && IdentityReadOutcome(chips, s, r)
  {
    match loc
    case ByIdentity(s) => ReadLocated(chips, s)
    case ByName(d) =>
      match ResolveName(chips, d)
      case Err(e) => Err(e)
      case Ok(s) => ReadLocated(chips, s)
  }

  // ---------------------------------------------------------------------
  // Enumeration and lookup agree

  /**
   * With distinct addresses and feature names, a structured identity reaches
   * the chip at its address and the feature with its name, whatever its label
   * and num say; it fails with a sensors error (not a not-found error)
   * exactly when that feature is unreadable.
   */
  lemma ReadAtAddress(chips: seq<Chip>, s: Sensor, i: nat, j: nat)
    requires AddressesDistinct(chips) && FeatureNamesDistinct(chips)
    requires i < |chips| && j < |chips[i].features|
    requires chips[i].addr == s.addr && chips[i].features[j].name == s.feature
    ensures ReadSensor(chips, ByIdentity(s)) ==
      if chips[i].features[j].readable then Ok(Location(i, j)) else Err(SensorsError)
  {
    assert FindChip(chips, s.addr) == Some(i);
    assert FindFeature(chips[i].features, s.feature) == Some(j);
  }

  /** Reading an enumerated sensor by identity reaches its own chip and feature. */
  lemma ReadEnumerated(chips: seq<Chip>, i: nat, j: nat)
    requires AddressesDistinct(chips) && FeatureNamesDistinct(chips)
    requires i < |chips| && j < |chips[i].features|
    ensures ReadSensor(chips, ByIdentity(SensorAt(chips, i, j))) ==
      if chips[i].features[j].readable then Ok(Location(i, j)) else Err(SensorsError)
  {
    ReadAtAddress(chips, SensorAt(chips, i, j), i, j);
  }

  /** Every sensor of a readable-only enumeration can be read (distinct addresses and feature names assumed). */
  lemma ReadableEnumeratedReads(chips: seq<Chip>, s: Sensor)
    requires AddressesDistinct(chips) && FeatureNamesDistinct(chips)
    requires s in Catalog(chips, true)
    ensures ReadSensor(chips, ByIdentity(s)).Ok?
  {
    CatalogMembership(chips, true, s);
    var i, j :| 0 <= i < |chips| && 0 <= j < |chips[i].features|
      && chips[i].features[j].readable && s == SensorAt(chips, i, j);
    ReadEnumerated(chips, i, j);
  }

  /** With distinct string forms, the string form of an enumerated sensor resolves to it. */
  lemma ResolveEnumerated(chips: seq<Chip>, i: nat, j: nat)
    requires NamesUnique(Catalog(chips, false))
    requires i < |chips| && j < |chips[i].features|
    ensures ResolveName(chips, Name(SensorAt(chips, i, j))) == Ok(SensorAt(chips, i, j))
  {
    var cat := Catalog(chips, false);
    var p := TotalFeatures(chips[..i]) + j;
    var s := SensorAt(chips, i, j);
    CatalogOrder(chips, i, j);
    assert p < |cat| && cat[p] == s;
    NameIndexExact(cat, p);
    assert Name(s) in NameIndex(cat) && NameIndex(cat)[Name(s)] == s;
    ResolveIndexed(chips, Name(s), s);
  }

  lemma ResolveIndexed(chips: seq<Chip>, descriptor: string, s: Sensor)
    requires descriptor in NameIndex(Catalog(chips, false)) && NameIndex(Catalog(chips, false))[descriptor] == s
    ensures ResolveName(chips, descriptor) == Ok(s)
  {
  }

  /**
   * Round trip: with distinct string forms, reading an enumerated sensor by
   * its string form and by its identity give the same outcome.
   */
  lemma NameResolvesToSensor(chips: seq<Chip>, i: nat, j: nat)
    requires NamesUnique(Catalog(chips, false))
    requires i < |chips| && j < |chips[i].features|
    ensures ReadSensor(chips, ByName(Name(SensorAt(chips, i, j)))) ==
      ReadSensor(chips, ByIdentity(SensorAt(chips, i, j)))
  {
    ResolveEnumerated(chips, i, j);
  }

  /** Reading an enumerated sensor by its string form reaches its own chip and feature. */
  lemma ReadEnumeratedByName(chips: seq<Chip>, i: nat, j: nat, descriptor: string)
    requires AddressesDistinct(chips) && NamesUnique(Catalog(chips, false))
    requires i < |chips| && j < |chips[i].features|
    requires descriptor == Name(SensorAt(chips, i, j))
    ensures ReadSensor(chips, ByName(descriptor)) ==
      if chips[i].features[j].readable then Ok(Location(i, j)) else Err(SensorsError)
  {
    NamesUniqueFeatureNames(chips);
    NameResolvesToSensor(chips, i, j);
    ReadEnumerated(chips, i, j);
  }
}
