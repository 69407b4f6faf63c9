/**
 * The immutable MonkeySpecies record (org.acme.model): its fields, the
 * copy-with-increment step and the detail text the tools reply with.
 */
module Model {
  import opened Wrappers
  import opened Text

  const MinInt32: int := -0x8000_0000
  const MaxInt32: int := 0x7FFF_FFFF

  /** Java's int / Integer. */
  type Int32 = x: int | -0x8000_0000 <= x <= 0x7FFF_FFFF

  /** `x + 1` on a Java int: 2^31 - 1 wraps round to -2^31. */
  function Int32Succ(x: Int32): Int32 {
    if x == MaxInt32 then MinInt32 else x + 1
  }

  /**
   * One species. `population`, `latitude` and `longitude` are nullable boxed
   * values in the source; the coordinates are only carried and printed.
   */
  datatype MonkeySpecies = MonkeySpecies(
    speciesName: string,
    location: string,
    details: string,
    population: Option<Int32>,
    latitude: Option<real>,
    longitude: Option<real>,
    accessed: Int32,
    isFictional: bool)

  /**
   * A new record equal to `s` except that the access count is one higher.
   * `s` itself is a value and stays as it was.
   */
  function WithIncrementedAccess(s: MonkeySpecies): (r: MonkeySpecies)
    ensures r.(accessed := s.accessed) == s
    ensures s.accessed < MaxInt32 ==> r.accessed == s.accessed + 1
    ensures s.accessed == MaxInt32 ==> r.accessed == MinInt32
  {
    s.(accessed := Int32Succ(s.accessed))
  }

  /** What String.format prints for a double under the default locale (`%f`) and for a long with grouping (`%,d`). */
  datatype Locale = Locale(fixedPoint: real -> string, grouped: int -> string)

  /** `%d` or StringBuilder.append of a nullable Integer. */
  function NullableDecimal(n: Option<Int32>): string {
    match n
    case None => "null"
    case Some(v) => Decimal(v)
  }

  /** `%f` of a nullable Double. */
  function NullableFixedPoint(x: Option<real>, locale: Locale): string {
    match x
    case None => "null"
    case Some(v) => locale.fixedPoint(v)
  }

  function FictionalFlag(s: MonkeySpecies): string {
    if s.isFictional then " *FAKE*" else ""
  }

  /** The six lines of MonkeySpecies.toFormattedString. */
  function FormattedLines(s: MonkeySpecies, locale: Locale): seq<string> {
    [ "Species Name: " + s.speciesName + FictionalFlag(s),
      "Location: " + s.location,
      "Details: " + s.details,
      "Population: " + NullableDecimal(s.population),
      "Lat/Lon: " + NullableFixedPoint(s.latitude, locale) + ", " + NullableFixedPoint(s.longitude, locale),
      "Accessed: " + Decimal(s.accessed) + " times" ]
  }

  /** MonkeySpecies.toFormattedString: the six lines, each ended by a newline. */
  function ToFormattedString(s: MonkeySpecies, locale: Locale): string {
    Unlines(FormattedLines(s, locale))
  }

  /** The first line of the detail text ends in " *FAKE*" exactly for fictional species. */
  lemma FakeMarkerIffFictional(s: MonkeySpecies, locale: Locale)
    ensures ("Species Name: " + s.speciesName + " *FAKE*\n" <= ToFormattedString(s, locale)) <==> s.isFictional
  {
    var lines := FormattedLines(s, locale);
    var head := "Species Name: " + s.speciesName;
    var text := ToFormattedString(s, locale);
    assert text == lines[0] + "\n" + Unlines(lines[1..]);
    if !s.isFictional {
      assert lines[0] == head;
      assert text[|head|] == '\n';
      assert (head + " *FAKE*\n")[|head|] == ' ';
    } else {
      assert lines[0] + "\n" == head + " *FAKE*\n";
    }
  }

  /** The detail text holds the "Species Name: <name>" line. */
  lemma FormattedNamesSpecies(s: MonkeySpecies, locale: Locale)
    ensures Contains(ToFormattedString(s, locale), "Species Name: " + s.speciesName)
  {
    var lines := FormattedLines(s, locale);
    var first := "Species Name: " + s.speciesName;
    var rest := FictionalFlag(s) + "\n" + Unlines(lines[1..]);
    assert lines[0] == first + FictionalFlag(s);
    assert ToFormattedString(s, locale) == lines[0] + "\n" + Unlines(lines[1..]);
    assert ToFormattedString(s, locale) == "" + first + rest;
    ContainsInMiddle("", first, rest);
  }

  /** The detail text holds the "Location: <location>" line, with the newlines around it. */
  lemma FormattedNamesLocation(s: MonkeySpecies, locale: Locale)
    ensures Contains(ToFormattedString(s, locale), "\nLocation: " + s.location + "\n")
  {
    var lines := FormattedLines(s, locale);
    UnlinesContainsLine(lines, 1);
    assert "\n" + lines[1] + "\n" == "\nLocation: " + s.location + "\n" by {
      assert lines[1] == "Location: " + s.location;
      assert "\n" + "Location: " == "\nLocation: ";
    }
  }
}
