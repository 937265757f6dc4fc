// The mock hardware of the package's read_sensor tests: five chips, two of
// them sharing the label "fluxcapacitor", and one unreadable feature. The
// lemmas below state the outcomes those tests expect, derived from the
// general properties of the model.

module MockChips {
  import opened Decimal
  import opened SensorName
  import opened Enumeration
  import opened Resolver

  function Chips(): seq<Chip>
  {
    [ Chip("ppu", 1234, [Feature("freq", true), Feature("temp", true)]),
      Chip("heisenbergcompensator", 2370, [Feature("position", true), Feature("momentum", false)]),
      Chip("zpm", 2004, [Feature("power", true)]),
      Chip("fluxcapacitor", 9309, [Feature("power", true), Feature("speed", true)]),
      Chip("fluxcapacitor", 1809, [Feature("power", true), Feature("year", true)]) ]
  }

  lemma AddressesOfChipsDistinct()
    ensures AddressesDistinct(Chips())
  {
  }

  lemma FeatureNamesOfChipsDistinct()
    ensures FeatureNamesDistinct(Chips())
  {
    var cs := Chips();
    assert "freq" != "temp" && "position" != "momentum" && "power" != "speed" && "power" != "year";
    forall i, j, k | 0 <= i < |cs| && 0 <= j < k < |cs[i].features|
      ensures cs[i].features[j].name != cs[i].features[k].name
    {
      assert j == 0 && k == 1;
    }
  }

  lemma LabelsOfChipsWellFormed()
    ensures LabelsWellFormed(Chips())
  {
    assert WellFormedLabel("ppu");
    assert WellFormedLabel("heisenbergcompensator");
    assert WellFormedLabel("zpm");
    assert WellFormedLabel("fluxcapacitor");
  }

  lemma ChipsWellFormed()
    ensures AddressesDistinct(Chips()) && FeatureNamesDistinct(Chips()) && LabelsWellFormed(Chips())
  {
    AddressesOfChipsDistinct();
    FeatureNamesOfChipsDistinct();
    LabelsOfChipsWellFormed();
  }

  /** The mock chips' string forms are pairwise distinct. */
  lemma ChipsNamesUnique()
    ensures NamesUnique(Catalog(Chips(), false))
  {
    FeatureNamesOfChipsDistinct();
    LabelsOfChipsWellFormed();
    NamesDistinctWellFormed(Chips(), false);
  }

  /** Each chip's num: the two "fluxcapacitor" chips get 0 and 1 in the order they are reported. */
  lemma ChipsNums()
    ensures AssignedNum(Chips(), 0) == 0 && AssignedNum(Chips(), 1) == 0 && AssignedNum(Chips(), 2) == 0
    ensures AssignedNum(Chips(), 3) == 0 && AssignedNum(Chips(), 4) == 1
  {
    var cs := Chips();
    assert cs[..4][..3] == cs[..3];
    assert cs[..3][..2] == cs[..2];
    assert cs[..2][..1] == cs[..1];
    assert cs[..1][..0] == [];
    assert CountLabel(cs[..1], "fluxcapacitor") == 0;
    assert CountLabel(cs[..2], "fluxcapacitor") == 0;
    assert CountLabel(cs[..3], "fluxcapacitor") == 0;
    assert CountLabel(cs[..4], "fluxcapacitor") == 1;
  }

  /** The unreadable "momentum" feature is left out of a readable-only enumeration; "position" is kept. */
  lemma MomentumExcluded()
    ensures SensorAt(Chips(), 1, 1) == Sensor("heisenbergcompensator", 2370, "momentum", 0)
    ensures SensorAt(Chips(), 1, 1) !in Catalog(Chips(), true)
    ensures SensorAt(Chips(), 1, 1) in Catalog(Chips(), false)
    ensures SensorAt(Chips(), 1, 0) in Catalog(Chips(), true)
  {
    ChipsWellFormed();
    ChipsNums();
    ReadableExactly(Chips(), 1, 1);
    ReadableExactly(Chips(), 1, 0);
    CatalogOrder(Chips(), 1, 1);
  }

  lemma ReadByIdentity()
    ensures ReadSensor(Chips(), ByIdentity(Sensor("zpm", 2004, "power", 0))) == Ok(Location(2, 0))
  {
    ChipsWellFormed();
    ChipsNums();
    ReadEnumerated(Chips(), 2, 0);
  }

  lemma ReadByString()
    ensures ReadSensor(Chips(), ByName("ppu.temp")) == Ok(Location(0, 1))
  {
    ChipsWellFormed();
    ChipsNamesUnique();
    ChipsNums();
    var s := Sensor("ppu", 1234, "temp", 0);
    assert SensorAt(Chips(), 0, 1) == s;
    NameWithoutNumber(s);
    assert "ppu" + "." + "temp" == "ppu.temp";
    assert Name(s) == "ppu.temp";
    ReadEnumeratedByName(Chips(), 0, 1, "ppu.temp");
  }

  /** Two chips share a label; the address alone tells them apart. */
  lemma ReadSharedLabelByAddress()
    ensures ReadSensor(Chips(), ByIdentity(Sensor("fluxcapacitor", 9309, "power", 0))) == Ok(Location(3, 0))
    ensures ReadSensor(Chips(), ByIdentity(Sensor("fluxcapacitor", 1809, "power", 0))) == Ok(Location(4, 0))
  {
    AddressesOfChipsDistinct();
    FeatureNamesOfChipsDistinct();
    ReadAtAddress(Chips(), Sensor("fluxcapacitor", 9309, "power", 0), 3, 0);
    ReadAtAddress(Chips(), Sensor("fluxcapacitor", 1809, "power", 0), 4, 0);
  }

  lemma ReadSharedLabelBySuffix()
    ensures ReadSensor(Chips(), ByName("fluxcapacitor1.year")) == Ok(Location(4, 1))
  {
    ChipsWellFormed();
    ChipsNamesUnique();
    ChipsNums();
    var s := Sensor("fluxcapacitor", 1809, "year", 1);
    assert SensorAt(Chips(), 4, 1) == s;
    NameWithNumber(s);
    assert NatToDecimal(1) == "1";
    assert "fluxcapacitor" + "1" + "." + "year" == "fluxcapacitor1.year";
    assert Name(s) == "fluxcapacitor1.year";
    ReadEnumeratedByName(Chips(), 4, 1, "fluxcapacitor1.year");
  }

  lemma ChipNotFoundAtAddress()
    ensures ReadSensor(Chips(), ByIdentity(Sensor("zpm", 1997, "power", 0))) == Err(ChipNotFound("zpm", 1997))
  {
  }

  lemma Decimal1997()
    ensures IntToDecimal(1997) == "1997"
  {
    assert NatToDecimal(1) == "1";
    assert NatToDecimal(19) == "19";
    assert NatToDecimal(199) == "199";
  }

  lemma ChipNotFoundMessage()
    ensures NotFoundMessage(ChipNotFound("zpm", 1997)) == "Chip zpm not found at address 1997"
  {
    Decimal1997();
  }

  /** The chip is named in the message by label and num, not by address. */
  lemma FeatureNotFoundOnChip()
    ensures ReadSensor(Chips(), ByIdentity(Sensor("fluxcapacitor", 1809, "speed", 1)))
      == Err(FeatureNotFound("speed", "fluxcapacitor1"))
  {
    assert FindChip(Chips(), 1809) == Some(4);
    assert FindFeature(Chips()[4].features, "speed") == None;
    assert NatToDecimal(1) == "1";
    assert ChipName("fluxcapacitor", 1) == "fluxcapacitor1";
  }

  lemma FeatureNotFoundMessage()
    ensures NotFoundMessage(FeatureNotFound("speed", "fluxcapacitor1")) == "Feature speed not found on chip fluxcapacitor1"
  {
    var e := FeatureNotFound("speed", "fluxcapacitor1");
    assert NotFoundMessage(e) == "Feature " + e.feature + " not found on chip " + e.chipName;
    assert "Feature " + "speed" == "Feature speed";
    assert "Feature speed" + " not found on chip " == "Feature speed not found on chip ";
    assert "Feature speed not found on chip " + "fluxcapacitor1" == "Feature speed not found on chip fluxcapacitor1";
  }

  lemma NotNamedFluxcapacitorYear(s: Sensor)
    requires s in Catalog(Chips(), false)
    ensures Name(s) != "fluxcapacitor.year"
  {
    var cs := Chips();
    ChipsWellFormed();
    ChipsNums();
    var i, j := CatalogEntryLocated(cs, false, s);
    var t := Sensor("fluxcapacitor", 0, "year", 0);
    NameWithoutNumber(t);
    assert s.chip != t.chip || s.num != t.num || s.feature != t.feature by {
      assert i < 3 ==> s.chip != t.chip;
      assert i == 3 ==> s.feature != t.feature;
      assert i == 4 ==> s.num != t.num;
    }
    assert WellFormedLabel(cs[i].prefix);
    if Name(s) == Name(t) {
      NameInjective(s, t);
      assert false;
    }
  }

  /** "fluxcapacitor.year" names no sensor: the chip with "year" is the second "fluxcapacitor", whose form is "fluxcapacitor1". */
  lemma StringNotRecognized()
    ensures ReadSensor(Chips(), ByName("fluxcapacitor.year")) == Err(DescriptorNotFound("fluxcapacitor.year"))
  {
    forall s | s in Catalog(Chips(), false) ensures Name(s) != "fluxcapacitor.year" {
      NotNamedFluxcapacitorYear(s);
    }
  }

  lemma UnreadableIsSensorsError()
    ensures ReadSensor(Chips(), ByName("heisenbergcompensator.momentum")) == Err(SensorsError)
  {
    ChipsWellFormed();
    ChipsNamesUnique();
    ChipsNums();
    var s := Sensor("heisenbergcompensator", 2370, "momentum", 0);
    assert SensorAt(Chips(), 1, 1) == s;
    NameWithoutNumber(s);
    assert "heisenbergcompensator" + "." + "momentum" == "heisenbergcompensator.momentum";
    assert Name(s) == "heisenbergcompensator.momentum";
    ReadEnumeratedByName(Chips(), 1, 1, "heisenbergcompensator.momentum");
  }
}
