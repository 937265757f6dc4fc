// Enumeration of every sensor on the detected chips (enumerate_all_sensors).
//
// The hardware layer is abstracted as the list of chips it reports, in the
// order it reports them. Each chip has a decoded label, a bus address and its
// features in order; a feature is readable exactly when reading its value
// does not raise a sensors error.

module Enumeration {
  import opened Decimal
  import opened SensorName

  datatype Feature = Feature(name: string, readable: bool)

  datatype Chip = Chip(prefix: string, addr: int, features: seq<Feature>)

  // ---------------------------------------------------------------------
  // Specification of the enumeration

  /** How many of the chips carry this label. */
  function CountLabel(chips: seq<Chip>, prefix: string): (k: nat)
    ensures k <= |chips|
  {
    if chips == [] then 0
    else CountLabel(chips[..|chips| - 1], prefix) + (if chips[|chips| - 1].prefix == prefix then 1 else 0)
  }

  /** The number given to chip i: how many earlier chips carry its label. */
  function AssignedNum(chips: seq<Chip>, i: nat): nat
    requires i < |chips|
  {
    CountLabel(chips[..i], chips[i].prefix)
  }

  /** The (label, num) pairs recorded after processing the chips, one per chip. */
  function UsedPairs(chips: seq<Chip>): set<(string, int)>
  {
    if chips == [] then {}
    else
      var front, c := chips[..|chips| - 1], chips[|chips| - 1];
      UsedPairs(front) + {(c.prefix, CountLabel(front, c.prefix))}
  }

  /** The sensors one chip contributes from the features fs, filtered by readability if asked. */
  function FeatureSensors(c: Chip, fs: seq<Feature>, num: nat, readableOnly: bool): seq<Sensor>
  {
    if fs == [] then []
    else
      var f := fs[|fs| - 1];
      FeatureSensors(c, fs[..|fs| - 1], num, readableOnly)
        + (if !readableOnly || f.readable then [Sensor(c.prefix, c.addr, f.name, num)] else [])
  }

  /** The result of the enumeration: chip by chip, feature by feature. */
  function Catalog(chips: seq<Chip>, readableOnly: bool): seq<Sensor>
  {
    if chips == [] then []
    else
      var front, c := chips[..|chips| - 1], chips[|chips| - 1];
      Catalog(front, readableOnly) + FeatureSensors(c, c.features, CountLabel(front, c.prefix), readableOnly)
  }

  /** The sensor for feature j of chip i. */
  function SensorAt(chips: seq<Chip>, i: nat, j: nat): Sensor
    requires i < |chips| && j < |chips[i].features|
  {
    Sensor(chips[i].prefix, chips[i].addr, chips[i].features[j].name, AssignedNum(chips, i))
  }

  function TotalFeatures(chips: seq<Chip>): nat
  {
    if chips == [] then 0 else TotalFeatures(chips[..|chips| - 1]) + |chips[|chips| - 1].features|
  }

  predicate FeatureNamesDistinct(chips: seq<Chip>) {
    forall i, j, k :: 0 <= i < |chips| && 0 <= j < k < |chips[i].features| ==>
      chips[i].features[j].name != chips[i].features[k].name
  }

  predicate LabelsWellFormed(chips: seq<Chip>) {
    forall i :: 0 <= i < |chips| ==> WellFormedLabel(chips[i].prefix)
  }

  // ---------------------------------------------------------------------
  // The enumeration itself

  /**
   * Walks the chips in the order given. Each chip gets the least num whose
   * (label, num) pair is not yet recorded; the pair is recorded before its
   * features are visited, so a chip without features still uses its num.
   */
  method EnumerateAllSensors(chips: seq<Chip>, readableOnly: bool) returns (sensorsList: seq<Sensor>)
    ensures sensorsList == Catalog(chips, readableOnly)
  {
    sensorsList := [];
    var chipLabels: set<(string, int)> := {};
    for i := 0 to |chips|
      invariant sensorsList == Catalog(chips[..i], readableOnly)
      invariant chipLabels == UsedPairs(chips[..i])
    {
      var chip := chips[i];
      var chipLabel := chip.prefix;
      UsedPairsExact(chips[..i], chipLabel);
      var num := 0;
      while (chipLabel, num) in chipLabels
        invariant 0 <= num <= CountLabel(chips[..i], chipLabel)
        decreases CountLabel(chips[..i], chipLabel) - num
      {
        num := num + 1;
      }
      assert num == AssignedNum(chips, i);
      chipLabels := chipLabels + {(chipLabel, num)};
      ghost var before := sensorsList;
      for j := 0 to |chip.features|
        invariant sensorsList == before + FeatureSensors(chip, chip.features[..j], num, readableOnly)
      {
        var feature := chip.features[j];
        assert chip.features[..j + 1][..j] == chip.features[..j];
        if readableOnly && !feature.readable {
          continue;
        }
        sensorsList := sensorsList + [Sensor(chipLabel, chip.addr, feature.name, num)];
      }
      assert chip.features[..|chip.features|] == chip.features;
      NextChip(chips, i, readableOnly);
    }
    assert chips[..|chips|] == chips;
  }

  /** How the specification grows by one chip. */
  lemma NextChip(chips: seq<Chip>, i: nat, readableOnly: bool)
    requires i < |chips|
    ensures Catalog(chips[..i + 1], readableOnly) == Catalog(chips[..i], readableOnly)
      + FeatureSensors(chips[i], chips[i].features, AssignedNum(chips, i), readableOnly)
    ensures UsedPairs(chips[..i + 1]) == UsedPairs(chips[..i]) + {(chips[i].prefix, AssignedNum(chips, i))}
  {
    assert chips[..i + 1][..i] == chips[..i];
  }

  // ---------------------------------------------------------------------
  // Index assignment

  /** The nums recorded for a label are exactly 0 up to (not including) the number of chips with that label. */
  lemma {:induction false} UsedPairsExact(chips: seq<Chip>, prefix: string)
    ensures forall n :: (prefix, n) in UsedPairs(chips) <==> 0 <= n < CountLabel(chips, prefix)
  {
    if chips != [] {
      UsedPairsExact(chips[..|chips| - 1], prefix);
    }
  }

  /** The num a chip gets is the least one whose pair with its label has not been recorded before it. */
  lemma LeastFreeNum(chips: seq<Chip>, i: nat)
    requires i < |chips|
    ensures (chips[i].prefix, AssignedNum(chips, i)) !in UsedPairs(chips[..i])
    ensures forall n :: 0 <= n < AssignedNum(chips, i) ==> (chips[i].prefix, n) in UsedPairs(chips[..i])
  {
    UsedPairsExact(chips[..i], chips[i].prefix);
  }

  /** Each chip records a new pair, so there are as many distinct pairs as chips. */
  lemma {:induction false} UsedPairsCount(chips: seq<Chip>)
    ensures |UsedPairs(chips)| == |chips|
  {
    if chips != [] {
      var front, c := chips[..|chips| - 1], chips[|chips| - 1];
      UsedPairsCount(front);
      UsedPairsExact(front, c.prefix);
    }
  }

  lemma {:induction false} CountLabelPrefix(chips: seq<Chip>, m: nat, prefix: string)
    requires m <= |chips|
    ensures CountLabel(chips[..m], prefix) <= CountLabel(chips, prefix)
  {
    if m < |chips| {
      assert chips[..|chips| - 1][..m] == chips[..m];
      CountLabelPrefix(chips[..|chips| - 1], m, prefix);
    } else {
      assert chips[..m] == chips;
    }
  }

  /** A later chip with the same label gets a larger num, whether or not the earlier one has features. */
  lemma LaterChipLargerNum(chips: seq<Chip>, i: nat, k: nat)
    requires i < k < |chips| && chips[i].prefix == chips[k].prefix
    ensures AssignedNum(chips, i) < AssignedNum(chips, k)
  {
    var p := chips[i].prefix;
    assert chips[..i + 1][..i] == chips[..i];
    assert chips[..k][..i + 1] == chips[..i + 1];
    CountLabelPrefix(chips[..k], i + 1, p);
  }

  /** The (label, num) pairs of two different chips differ. */
  lemma PairsDistinct(chips: seq<Chip>, i: nat, k: nat)
    requires i < |chips| && k < |chips| && i != k
    ensures (chips[i].prefix, AssignedNum(chips, i)) != (chips[k].prefix, AssignedNum(chips, k))
  {
    if chips[i].prefix == chips[k].prefix {
      if i < k { LaterChipLargerNum(chips, i, k); } else { LaterChipLargerNum(chips, k, i); }
    }
  }

  lemma AssignedNumOfPrefix(chips: seq<Chip>, m: nat, i: nat)
    requires i < m <= |chips|
    ensures AssignedNum(chips[..m], i) == AssignedNum(chips, i)
  {
    assert chips[..m][..i] == chips[..i];
  }

  // ---------------------------------------------------------------------
  // Contents and order of the result

  lemma {:induction false} FeatureSensorsMembership(c: Chip, fs: seq<Feature>, num: nat, readableOnly: bool, s: Sensor)
    ensures s in FeatureSensors(c, fs, num, readableOnly) <==>
      exists j :: 0 <= j < |fs| && (!readableOnly || fs[j].readable) && s == Sensor(c.prefix, c.addr, fs[j].name, num)
  {
    if fs != [] {
      var front := fs[..|fs| - 1];
      FeatureSensorsMembership(c, front, num, readableOnly, s);
      if s in FeatureSensors(c, front, num, readableOnly) {
        var j :| 0 <= j < |front| && (!readableOnly || front[j].readable) && s == Sensor(c.prefix, c.addr, front[j].name, num);
        assert fs[j] == front[j];
      }
      if exists j :: 0 <= j < |fs| && (!readableOnly || fs[j].readable) && s == Sensor(c.prefix, c.addr, fs[j].name, num) {
        var j :| 0 <= j < |fs| && (!readableOnly || fs[j].readable) && s == Sensor(c.prefix, c.addr, fs[j].name, num);
        if j < |front| {
          assert front[j] == fs[j];
        }
      }
    }
  }

  /**
   * A sensor is in the result exactly when it is the sensor of some feature
   * of some chip, with that chip's label, address and num, and, when only
   * readable sensors are asked for, the feature is readable.
   */
  lemma CatalogMembership(chips: seq<Chip>, readableOnly: bool, s: Sensor)
    ensures s in Catalog(chips, readableOnly) <==>
      exists i, j :: 0 <= i < |chips| && 0 <= j < |chips[i].features|
        && (!readableOnly || chips[i].features[j].readable) && s == SensorAt(chips, i, j)
  {
    if s in Catalog(chips, readableOnly) {
      var i, j := CatalogEntryLocated(chips, readableOnly, s);
    }
    if exists i, j ::
        0 <= i < |chips| && 0 <= j < |chips[i].features| &&
        (!readableOnly || chips[i].features[j].readable) && s == SensorAt(chips, i, j)
    {
      var i, j :| 0 <= i < |chips| && 0 <= j < |chips[i].features|
        && (!readableOnly || chips[i].features[j].readable) && s == SensorAt(chips, i, j);
      LocatedInCatalog(chips, readableOnly, i, j);
    }
  }

  lemma {:induction false} CatalogEntryLocated(chips: seq<Chip>, readableOnly: bool, s: Sensor) returns (i: nat, j: nat)
    requires s in Catalog(chips, readableOnly)
    ensures i < |chips| && j < |chips[i].features|
    ensures (!readableOnly || chips[i].features[j].readable) && s == SensorAt(chips, i, j)
  {
    var last := |chips| - 1;
    var front, c := chips[..last], chips[last];
    var num := CountLabel(front, c.prefix);
    if s in Catalog(front, readableOnly) {
      i, j := CatalogEntryLocated(front, readableOnly, s);
      AssignedNumOfPrefix(chips, last, i);
      assert front[i] == chips[i];
    } else {
      assert s in FeatureSensors(c, c.features, num, readableOnly);
      FeatureSensorsMembership(c, c.features, num, readableOnly, s);
      i := last;
      j :| 0 <= j < |c.features| && (!readableOnly || c.features[j].readable)
        && s == Sensor(c.prefix, c.addr, c.features[j].name, num);
      assert chips[..i] == front;
    }
  }

  lemma {:induction false} LocatedInCatalog(chips: seq<Chip>, readableOnly: bool, i: nat, j: nat)
    requires i < |chips| && j < |chips[i].features|
    requires !readableOnly || chips[i].features[j].readable
    ensures SensorAt(chips, i, j) in Catalog(chips, readableOnly)
  {
    var last := |chips| - 1;
    var front, c := chips[..last], chips[last];
    var num := CountLabel(front, c.prefix);
    assert Catalog(chips, readableOnly) == Catalog(front, readableOnly) + FeatureSensors(c, c.features, num, readableOnly);
    if i < last {
      assert front[i] == chips[i];
      LocatedInCatalog(front, readableOnly, i, j);
      AssignedNumOfPrefix(chips, last, i);
    } else {
      assert chips[..i] == front;
      FeatureSensorsMembership(c, c.features, num, readableOnly, SensorAt(chips, i, j));
    }
  }

  lemma {:induction false} FeatureSensorsAll(c: Chip, fs: seq<Feature>, num: nat)
    ensures |FeatureSensors(c, fs, num, false)| == |fs|
    ensures forall j :: 0 <= j < |fs| ==> FeatureSensors(c, fs, num, false)[j] == Sensor(c.prefix, c.addr, fs[j].name, num)
  {
    if fs != [] {
      FeatureSensorsAll(c, fs[..|fs| - 1], num);
    }
  }

  /** Without filtering there is one sensor per feature, and no chips give no sensors. */
  lemma {:induction false} CatalogLength(chips: seq<Chip>)
    ensures |Catalog(chips, false)| == TotalFeatures(chips)
    ensures chips == [] ==> Catalog(chips, false) == []
  {
    if chips != [] {
      var c := chips[|chips| - 1];
      CatalogLength(chips[..|chips| - 1]);
      FeatureSensorsAll(c, c.features, CountLabel(chips[..|chips| - 1], c.prefix));
    }
  }

  lemma {:induction false} TotalFeaturesPrefix(chips: seq<Chip>, i: nat)
    requires i < |chips|
    ensures TotalFeatures(chips[..i]) + |chips[i].features| <= TotalFeatures(chips)
  {
    if i < |chips| - 1 {
      assert chips[..|chips| - 1][..i] == chips[..i];
      TotalFeaturesPrefix(chips[..|chips| - 1], i);
    } else {
      assert chips[..|chips| - 1] == chips[..i];
    }
  }

  /**
   * Without filtering, the sensor of feature j of chip i sits at position
   * (features of the earlier chips) + j: chip-then-feature order, no re-sorting.
   */
  lemma {:induction false} CatalogOrder(chips: seq<Chip>, i: nat, j: nat)
    requires i < |chips| && j < |chips[i].features|
    ensures TotalFeatures(chips[..i]) + j < |Catalog(chips, false)|
    ensures Catalog(chips, false)[TotalFeatures(chips[..i]) + j] == SensorAt(chips, i, j)
    decreases |chips|, 1
  {
    CatalogLength(chips);
    TotalFeaturesPrefix(chips, i);
    if i < |chips| - 1 {
      CatalogOrderEarlier(chips, i, j);
    } else {
      CatalogOrderLast(chips, j);
    }
  }

  lemma CatalogOrderLast(chips: seq<Chip>, j: nat)
    requires chips != [] && j < |chips[|chips| - 1].features|
    ensures TotalFeatures(chips[..|chips| - 1]) + j < |Catalog(chips, false)|
    ensures Catalog(chips, false)[TotalFeatures(chips[..|chips| - 1]) + j] == SensorAt(chips, |chips| - 1, j)
  {
    var front, c := chips[..|chips| - 1], chips[|chips| - 1];
    var b := FeatureSensors(c, c.features, CountLabel(front, c.prefix), false);
    CatalogLength(front);
    FeatureSensorsAll(c, c.features, CountLabel(front, c.prefix));
    assert Catalog(chips, false) == Catalog(front, false) + b;
    assert (Catalog(front, false) + b)[|Catalog(front, false)| + j] == b[j];
  }

  lemma {:induction false} CatalogOrderEarlier(chips: seq<Chip>, i: nat, j: nat)
    requires i < |chips| - 1 && j < |chips[i].features|
    ensures TotalFeatures(chips[..i]) + j < |Catalog(chips, false)|
    ensures Catalog(chips, false)[TotalFeatures(chips[..i]) + j] == SensorAt(chips, i, j)
    decreases |chips|, 0
  {
    var last := |chips| - 1;
    var front, c := chips[..last], chips[last];
    var a := Catalog(front, false);
    var b := FeatureSensors(c, c.features, CountLabel(front, c.prefix), false);
    assert front[..i] == chips[..i];
    assert front[i] == chips[i];
    CatalogOrder(front, i, j);
    AssignedNumOfPrefix(chips, last, i);
    assert Catalog(chips, false) == a + b;
    assert (a + b)[TotalFeatures(chips[..i]) + j] == a[TotalFeatures(chips[..i]) + j];
  }

  // ---------------------------------------------------------------------
  // Filtering by readability

  /** a is b with some elements dropped, order kept. */
  predicate IsSubsequence(a: seq<Sensor>, b: seq<Sensor>)
    decreases |b|
  {
    if a == [] then true
    else if b == [] then false
    else
      (a[|a| - 1] == b[|b| - 1] && IsSubsequence(a[..|a| - 1], b[..|b| - 1]))
      || IsSubsequence(a, b[..|b| - 1])
  }

  lemma {:induction false} SubsequenceConcat(a1: seq<Sensor>, b1: seq<Sensor>, a2: seq<Sensor>, b2: seq<Sensor>)
    requires IsSubsequence(a1, b1) && IsSubsequence(a2, b2)
    ensures IsSubsequence(a1 + a2, b1 + b2)
    decreases |b2|
  {
    if b2 == [] {
      assert a2 == [];
      assert a1 + a2 == a1 && b1 + b2 == b1;
    } else {
      var b2f := b2[..|b2| - 1];
      assert (b1 + b2)[..|b1 + b2| - 1] == b1 + b2f;
      if a2 != [] && a2[|a2| - 1] == b2[|b2| - 1] && IsSubsequence(a2[..|a2| - 1], b2f) {
        SubsequenceConcat(a1, b1, a2[..|a2| - 1], b2f);
        assert (a1 + a2)[..|a1 + a2| - 1] == a1 + a2[..|a2| - 1];
      } else {
        SubsequenceConcat(a1, b1, a2, b2f);
      }
    }
  }

  lemma {:induction false} FeatureSensorsSubsequence(c: Chip, fs: seq<Feature>, num: nat)
    ensures IsSubsequence(FeatureSensors(c, fs, num, true), FeatureSensors(c, fs, num, false))
  {
    if fs != [] {
      var f := fs[|fs| - 1];
      var s := Sensor(c.prefix, c.addr, f.name, num);
      FeatureSensorsSubsequence(c, fs[..|fs| - 1], num);
      var tail := if f.readable then [s] else [];
      assert IsSubsequence(tail, [s]) by {
        assert [s][..0] == [];
        if f.readable { assert tail[..0] == []; }
      }
      SubsequenceConcat(FeatureSensors(c, fs[..|fs| - 1], num, true), FeatureSensors(c, fs[..|fs| - 1], num, false), tail, [s]);
    }
  }

  /** Readable-only enumeration keeps the order of the full one and only drops entries. */
  lemma {:induction false} CatalogSubsequence(chips: seq<Chip>)
    ensures IsSubsequence(Catalog(chips, true), Catalog(chips, false))
  {
    if chips != [] {
      var front, c := chips[..|chips| - 1], chips[|chips| - 1];
      var num := CountLabel(front, c.prefix);
      CatalogSubsequence(front);
      FeatureSensorsSubsequence(c, c.features, num);
      SubsequenceConcat(Catalog(front, true), Catalog(front, false),
        FeatureSensors(c, c.features, num, true), FeatureSensors(c, c.features, num, false));
    }
  }

  /**
   * With feature names distinct per chip, the sensor of a feature is in the
   * readable-only result exactly when the feature is readable.
   */
  lemma ReadableExactly(chips: seq<Chip>, i: nat, j: nat)
    requires FeatureNamesDistinct(chips)
    requires i < |chips| && j < |chips[i].features|
    ensures SensorAt(chips, i, j) in Catalog(chips, true) <==> chips[i].features[j].readable
  {
    CatalogMembership(chips, true, SensorAt(chips, i, j));
    if SensorAt(chips, i, j) in Catalog(chips, true) {
      var i', j' :| 0 <= i' < |chips| && 0 <= j' < |chips[i'].features|
        && chips[i'].features[j'].readable && SensorAt(chips, i, j) == SensorAt(chips, i', j');
      if i' != i { PairsDistinct(chips, i, i'); }
      if j' < j {
        assert chips[i].features[j'].name != chips[i].features[j].name;
      } else if j < j' {
        assert chips[i].features[j].name != chips[i].features[j'].name;
      }
    }
  }

  // ---------------------------------------------------------------------
  // Uniqueness

  /** No two entries agree on label, num and feature (the address aside). */
  predicate KeysDistinct(ss: seq<Sensor>) {
    forall p, q :: 0 <= p < q < |ss| ==>
      ss[p].chip != ss[q].chip || ss[p].num != ss[q].num || ss[p].feature != ss[q].feature
  }

  lemma {:induction false} FeatureSensorsKeysDistinct(c: Chip, fs: seq<Feature>, num: nat, readableOnly: bool)
    requires forall j, k :: 0 <= j < k < |fs| ==> fs[j].name != fs[k].name
    ensures KeysDistinct(FeatureSensors(c, fs, num, readableOnly))
  {
    if fs != [] {
      var front := fs[..|fs| - 1];
      var a := FeatureSensors(c, front, num, readableOnly);
      FeatureSensorsKeysDistinct(c, front, num, readableOnly);
      forall p | 0 <= p < |a| ensures a[p].feature != fs[|fs| - 1].name {
        FeatureSensorsMembership(c, front, num, readableOnly, a[p]);
      }
    }
  }

  lemma KeysDistinctConcat(a: seq<Sensor>, b: seq<Sensor>)
    requires KeysDistinct(a) && KeysDistinct(b)
    requires forall p, q :: 0 <= p < |a| && 0 <= q < |b| ==> a[p].chip != b[q].chip || a[p].num != b[q].num
    ensures KeysDistinct(a + b)
  {
    var ab := a + b;
    forall p, q | 0 <= p < q < |ab|
      ensures ab[p].chip != ab[q].chip || ab[p].num != ab[q].num || ab[p].feature != ab[q].feature
    {
      if q < |a| {
        assert ab[p] == a[p] && ab[q] == a[q];
      } else if p >= |a| {
        assert ab[p] == b[p - |a|] && ab[q] == b[q - |a|];
      } else {
        assert ab[p] == a[p] && ab[q] == b[q - |a|];
      }
    }
  }

  /** The sensors of earlier chips and those of the last chip differ in label or num. */
  lemma LastChipKeysNew(chips: seq<Chip>, readableOnly: bool, s: Sensor, t: Sensor)
    requires chips != []
    requires s in Catalog(chips[..|chips| - 1], readableOnly)
    requires t in FeatureSensors(chips[|chips| - 1], chips[|chips| - 1].features,
      CountLabel(chips[..|chips| - 1], chips[|chips| - 1].prefix), readableOnly)
    ensures s.chip != t.chip || s.num != t.num
  {
    var last := |chips| - 1;
    var front, c := chips[..last], chips[last];
    var i, j := CatalogEntryLocated(front, readableOnly, s);
    AssignedNumOfPrefix(chips, last, i);
    assert front[i] == chips[i];
    FeatureSensorsMembership(c, c.features, CountLabel(front, c.prefix), readableOnly, t);
    PairsDistinct(chips, i, last);
  }

  /** With feature names distinct per chip, every entry has its own label, num and feature. */
  lemma {:induction false} CatalogKeysDistinct(chips: seq<Chip>, readableOnly: bool)
    requires FeatureNamesDistinct(chips)
    ensures KeysDistinct(Catalog(chips, readableOnly))
  {
    if chips != [] {
      var last := |chips| - 1;
      var front, c := chips[..last], chips[last];
      var num := CountLabel(front, c.prefix);
      var a, b := Catalog(front, readableOnly), FeatureSensors(c, c.features, num, readableOnly);
      assert FeatureNamesDistinct(front) by {
        forall i | 0 <= i < |front| ensures front[i] == chips[i] { }
      }
      CatalogKeysDistinct(front, readableOnly);
      FeatureSensorsKeysDistinct(c, c.features, num, readableOnly);
      forall p, q | 0 <= p < |a| && 0 <= q < |b| ensures a[p].chip != b[q].chip || a[p].num != b[q].num {
        LastChipKeysNew(chips, readableOnly, a[p], b[q]);
      }
      KeysDistinctConcat(a, b);
    }
  }

  /** With feature names distinct per chip, the enumerated sensors are pairwise distinct. */
  lemma SensorsDistinct(chips: seq<Chip>, readableOnly: bool)
    requires FeatureNamesDistinct(chips)
    ensures forall p, q :: 0 <= p < q < |Catalog(chips, readableOnly)| ==>
      Catalog(chips, readableOnly)[p] != Catalog(chips, readableOnly)[q]
  {
    CatalogKeysDistinct(chips, readableOnly);
  }

  /** No two entries share a string form. */
  predicate NamesUnique(ss: seq<Sensor>) {
    forall p, q :: 0 <= p < q < |ss| ==> Name(ss[p]) != Name(ss[q])
  }

  predicate LabelsDotFree(chips: seq<Chip>) {
    forall i :: 0 <= i < |chips| ==> '.' !in chips[i].prefix
  }

  /** Different chips get different chip parts: label followed by their num. */
  predicate ChipNamesDistinct(chips: seq<Chip>) {
    forall i, k :: 0 <= i < |chips| && 0 <= k < |chips| && i != k ==>
      ChipName(chips[i].prefix, AssignedNum(chips, i)) != ChipName(chips[k].prefix, AssignedNum(chips, k))
  }

  /** Labels without dots or trailing digits give every chip its own chip part. */
  lemma WellFormedChipNamesDistinct(chips: seq<Chip>)
    requires LabelsWellFormed(chips)
    ensures LabelsDotFree(chips) && ChipNamesDistinct(chips)
  {
    forall i, k | 0 <= i < |chips| && 0 <= k < |chips| && i != k
      ensures ChipName(chips[i].prefix, AssignedNum(chips, i)) != ChipName(chips[k].prefix, AssignedNum(chips, k))
    {
      PairsDistinct(chips, i, k);
      var s := Sensor(chips[i].prefix, 0, "", AssignedNum(chips, i));
      var t := Sensor(chips[k].prefix, 0, "", AssignedNum(chips, k));
      if ChipName(s.chip, s.num) == ChipName(t.chip, t.num) {
        NameInjective(s, t);
      }
    }
  }

  /** With dot-free labels and distinct chip parts, an enumerated string form determines label, num and feature. */
  lemma NameDeterminesKey(chips: seq<Chip>, readableOnly: bool, s: Sensor, t: Sensor)
    requires LabelsDotFree(chips) && ChipNamesDistinct(chips)
    requires s in Catalog(chips, readableOnly) && t in Catalog(chips, readableOnly)
    requires Name(s) == Name(t)
    ensures s.chip == t.chip && s.num == t.num && s.feature == t.feature
  {
    var i, j := CatalogEntryLocated(chips, readableOnly, s);
    var i', j' := CatalogEntryLocated(chips, readableOnly, t);
    ChipNameDotFree(s.chip, s.num);
    ChipNameDotFree(t.chip, t.num);
    ChipNameAndFeature(s, t);
    assert i == i';
  }

  /**
   * With feature names distinct per chip, labels free of dots and distinct
   * chip parts, the string forms of the enumerated sensors are pairwise
   * distinct.
   */
  lemma NamesDistinct(chips: seq<Chip>, readableOnly: bool)
    requires FeatureNamesDistinct(chips) && LabelsDotFree(chips) && ChipNamesDistinct(chips)
    ensures NamesUnique(Catalog(chips, readableOnly))
  {
    var cat := Catalog(chips, readableOnly);
    CatalogKeysDistinct(chips, readableOnly);
    forall p, q | 0 <= p < q < |cat| ensures Name(cat[p]) != Name(cat[q]) {
      if Name(cat[p]) == Name(cat[q]) {
        NameDeterminesKey(chips, readableOnly, cat[p], cat[q]);
      }
    }
  }

  /** In particular, labels without dots or trailing digits give distinct string forms. */
  lemma NamesDistinctWellFormed(chips: seq<Chip>, readableOnly: bool)
    requires FeatureNamesDistinct(chips) && LabelsWellFormed(chips)
    ensures NamesUnique(Catalog(chips, readableOnly))
  {
    WellFormedChipNamesDistinct(chips);
    NamesDistinct(chips, readableOnly);
  }

  /** Distinct string forms in the unfiltered result force distinct feature names within each chip. */
  lemma NamesUniqueFeatureNames(chips: seq<Chip>)
    requires NamesUnique(Catalog(chips, false))
    ensures FeatureNamesDistinct(chips)
  {
    forall i, j, k | 0 <= i < |chips| && 0 <= j < k < |chips[i].features|
      ensures chips[i].features[j].name != chips[i].features[k].name
    {
      CatalogOrder(chips, i, j);
      CatalogOrder(chips, i, k);
    }
  }

  /**
   * Without the label condition the string forms can collide: a chip
   * labelled "ppu1" and the second chip labelled "ppu" both give "ppu1.x".
   */
  lemma NamesCollide()
    ensures var cat := Catalog([Chip("ppu1", 1, [Feature("x", true)]), Chip("ppu", 2, []), Chip("ppu", 3, [Feature("x", true)])], false);
      |cat| == 2 && Name(cat[0]) == Name(cat[1]) == "ppu1.x"
  {
    var c0, c1, c2 := Chip("ppu1", 1, [Feature("x", true)]), Chip("ppu", 2, []), Chip("ppu", 3, [Feature("x", true)]);
    var chips := [c0, c1, c2];
    assert chips[..2] == [c0, c1];
    assert [c0, c1][..1] == [c0];
    assert [c0][..0] == [];
    assert "ppu1" != "ppu";
    assert CountLabel([c0], "ppu") == 0;
    assert CountLabel([c0, c1], "ppu") == 1;
    assert Catalog([c0], false) == [Sensor("ppu1", 1, "x", 0)];
    assert Catalog([c0, c1], false) == [Sensor("ppu1", 1, "x", 0)];
    assert Catalog(chips, false) == [Sensor("ppu1", 1, "x", 0), Sensor("ppu", 3, "x", 1)];
    NameCollision();
  }
}
