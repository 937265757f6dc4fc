// The Sensor record of measure_temp and its canonical string form
// "<chip><num>.<feature>", where a zero num adds no suffix and the
// address never appears.

module SensorName {
  import opened Decimal

  datatype Option<T> = None | Some(value: T)

  /** A hashable locator for one reading: chip label, bus address, feature name, disambiguation number. */
  datatype Sensor = Sensor(chip: string, addr: int, feature: string, num: int)

  /** The chip label followed by its number, which is left out when it is zero. */
  function ChipName(chip: string, num: int): (r: string)
    ensures |r| >= |chip| && r[..|chip|] == chip
    ensures |r| == |chip| <==> num == 0
  {
    if num != 0 then chip + IntToDecimal(num) else chip
  }

  /** The canonical string form of a sensor. */
  function Name(s: Sensor): (r: string)
    ensures |r| == |ChipName(s.chip, s.num)| + 1 + |s.feature|
    ensures r[..|ChipName(s.chip, s.num)|] == ChipName(s.chip, s.num)
    ensures r[|ChipName(s.chip, s.num)|] == '.'
    ensures r[|ChipName(s.chip, s.num)| + 1..] == s.feature
  {
    ChipName(s.chip, s.num) + "." + s.feature
  }

  /** The address plays no part in the string form. */
  lemma NameIgnoresAddress(s: Sensor, addr: int)
    ensures Name(s.(addr := addr)) == Name(s)
  {
  }

  /** With num zero the string form is just label, dot, feature. */
  lemma NameWithoutNumber(s: Sensor)
    requires s.num == 0
    ensures Name(s) == s.chip + "." + s.feature
  {
  }

  /** A nonzero num is written straight after the label, before the dot. */
  lemma NameWithNumber(s: Sensor)
    requires s.num > 0
    ensures Name(s) == s.chip + NatToDecimal(s.num) + "." + s.feature
  {
  }

  lemma NameExamples()
    ensures Name(Sensor("ppu", 314, "temp", 0)) == "ppu.temp"
    ensures Name(Sensor("ppu", 272, "temp", 1)) == "ppu1.temp"
  {
    assert NatToDecimal(1) == "1";
  }

  // ---------------------------------------------------------------------
  // Reading a string form back into its parts

  /**
   * A label that can be told apart from the number written after it and
   * from the dot: it has no '.' and does not end in a digit.
   */
  predicate WellFormedLabel(prefix: string) {
    '.' !in prefix && (prefix == [] || !IsDigit(prefix[|prefix| - 1]))
  }

  datatype NameParts = NameParts(chip: string, num: nat, feature: string)

  function FirstDot(s: string): (r: Option<nat>)
    ensures r.None? <==> '.' !in s
    ensures r.Some? ==> r.value < |s| && s[r.value] == '.' && '.' !in s[..r.value]
  {
    if s == [] then None
    else if s[0] == '.' then Some(0)
    else match FirstDot(s[1..])
      case None => None
      case Some(k) =>
        assert s[..k + 1] == [s[0]] + s[1..][..k];
        Some(k + 1)
  }

  /** Where the longest run of digits at the end of x begins. */
  function DigitSuffixStart(x: string): (k: nat)
    ensures k <= |x| && AllDigits(x[k..])
    ensures k > 0 ==> !IsDigit(x[k - 1])
    decreases |x|
  {
    if x == [] || !IsDigit(x[|x| - 1]) then |x|
    else
      var k := DigitSuffixStart(x[..|x| - 1]);
      assert x[k..] == x[..|x| - 1][k..] + [x[|x| - 1]];
      k
  }

  /**
   * Splits a string form at its first dot; the part before the dot is split
   * into a label and the digits that end it.
   */
  function ParseName(r: string): (p: Option<NameParts>)
    ensures p.Some? <==> '.' in r
    ensures p.Some? ==> WellFormedLabel(p.value.chip)
  {
    match FirstDot(r)
    case None => None
    case Some(d) =>
      var x := r[..d];
      var k := DigitSuffixStart(x);
      assert forall c :: c in x[..k] ==> c in x;
      Some(NameParts(x[..k], DecimalValue(x[k..]), r[d + 1..]))
  }

  lemma {:induction false} FirstDotAfter(a: string, b: string)
    requires '.' !in a
    ensures FirstDot(a + "." + b) == Some(|a|)
    decreases |a|
  {
    if a != [] {
      assert (a + "." + b)[1..] == a[1..] + "." + b;
      FirstDotAfter(a[1..], b);
    }
  }

  lemma {:induction false} DigitSuffixAfterLabel(prefix: string, digits: string)
    requires WellFormedLabel(prefix) && AllDigits(digits)
    ensures DigitSuffixStart(prefix + digits) == |prefix|
    decreases |digits|
  {
    if digits != [] {
      assert (prefix + digits)[..|prefix + digits| - 1] == prefix + digits[..|digits| - 1];
      DigitSuffixAfterLabel(prefix, digits[..|digits| - 1]);
    }
  }

  lemma NumberDigits(chip: string, num: nat)
    ensures ChipName(chip, num) == chip + (if num == 0 then "" else NatToDecimal(num))
    ensures AllDigits(if num == 0 then "" else NatToDecimal(num))
  {
  }

  lemma NoDotInChipName(chip: string, digits: string)
    requires '.' !in chip && AllDigits(digits)
    ensures '.' !in chip + digits
  {
    var x := chip + digits;
    forall k | 0 <= k < |x| ensures x[k] != '.' {
      if k >= |chip| { assert x[k] == digits[k - |chip|]; }
    }
  }

  /** A label without a dot gives a chip part without a dot, whatever the num. */
  lemma ChipNameDotFree(chip: string, num: int)
    requires '.' !in chip
    ensures '.' !in ChipName(chip, num)
  {
    if num != 0 {
      var d := IntToDecimal(num);
      var r := chip + d;
      forall k | 0 <= k < |r| ensures r[k] != '.' {
        if k < |chip| {
          assert r[k] == chip[k];
        } else if num < 0 && k > |chip| {
          assert r[k] == d[1..][k - |chip| - 1];
        } else {
          assert r[k] == d[k - |chip|];
        }
      }
    }
  }

  /** When neither chip part contains a dot, equal string forms have equal chip parts and equal features. */
  lemma ChipNameAndFeature(s: Sensor, t: Sensor)
    requires '.' !in ChipName(s.chip, s.num) && '.' !in ChipName(t.chip, t.num)
    requires Name(s) == Name(t)
    ensures ChipName(s.chip, s.num) == ChipName(t.chip, t.num) && s.feature == t.feature
  {
    FirstDotAfter(ChipName(s.chip, s.num), s.feature);
    FirstDotAfter(ChipName(t.chip, t.num), t.feature);
  }

  /** Parsing the string form of a sensor with a well-formed label gives back its label, num and feature. */
  lemma NameRoundTrip(s: Sensor)
    requires WellFormedLabel(s.chip) && s.num >= 0
    ensures ParseName(Name(s)) == Some(NameParts(s.chip, s.num, s.feature))
  {
    var digits := if s.num == 0 then "" else NatToDecimal(s.num);
    var x := s.chip + digits;
    NumberDigits(s.chip, s.num);
    NoDotInChipName(s.chip, digits);
    FirstDotAfter(x, s.feature);
    DigitSuffixAfterLabel(s.chip, digits);
    assert Name(s)[..|x|] == x;
    assert x[..|s.chip|] == s.chip && x[|s.chip|..] == digits;
    if s.num != 0 {
      DecimalRoundTrip(s.num);
    }
  }

  /** Two sensors with well-formed labels and non-negative nums share a string form only if they agree on all but the address. */
  lemma NameInjective(s: Sensor, t: Sensor)
    requires WellFormedLabel(s.chip) && s.num >= 0
    requires WellFormedLabel(t.chip) && t.num >= 0
    requires Name(s) == Name(t)
    ensures s.chip == t.chip && s.num == t.num && s.feature == t.feature
  {
    NameRoundTrip(s);
    NameRoundTrip(t);
  }

  /** Without the label condition the string form is not one-to-one: "ppu1" with 0 and "ppu" with 1 collide. */
  lemma NameCollision()
    ensures Name(Sensor("ppu1", 1, "x", 0)) == Name(Sensor("ppu", 2, "x", 1)) == "ppu1.x"
  {
    assert NatToDecimal(1) == "1";
  }
}
