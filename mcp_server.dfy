/**
 * MonkeySpeciesMcpServer (org.acme.mcp): the four MCP tools, which turn the
 * service's results into reply text. The reductions behind the statistics
 * tool (population sum, distinct locations, most accessed) are functions over
 * a findAll listing; the tools themselves are methods on the server.
 */
module McpServer {
  import opened Wrappers
  import opened Lists
  import opened Text
  import opened Model
  import opened Repository
  import opened Service

  const NoSpeciesFound := "No monkey species found in the database."
  const EmptyNameError := "Error: Species name cannot be empty. Please provide a valid species name."
  const RandomHeader := "Here's a random monkey species:\n\n"
  const NoSpeciesAvailable := "No monkey species available in the database."
  const DatabaseEmpty := "Database is empty - no monkey species available."

  /** At most this many names are suggested when a species is not found. */
  const SuggestionLimit := 5

  // ---------------------------------------------------------------------------
  // list_monkey_species

  function ListingHeader(count: nat): string {
    "Available Monkey Species (" + Decimal(count) + " total):\n\n"
  }

  /** The bullet line of one species: name, fictional marker, location and population. */
  function BulletLine(s: MonkeySpecies): string {
    "• " + s.speciesName + FictionalFlag(s) + " (" + s.location + ")"
      + " - Population: " + NullableDecimal(s.population) + "\n"
  }

  /** The bullet lines of a listing, in listing order. */
  function BulletLines(all: seq<MonkeySpecies>): string {
    if all == [] then "" else BulletLines(all[..|all| - 1]) + BulletLine(all[|all| - 1])
  }

  /** One more species adds its bullet line at the end. */
  lemma BulletLinesExtend(all: seq<MonkeySpecies>, i: nat)
    requires i < |all|
    ensures BulletLines(all[..i + 1]) == BulletLines(all[..i]) + BulletLine(all[i])
  {
    assert all[..i + 1][..i] == all[..i];
  }

  /** Every listed species has its bullet line in the text. */
  lemma {:induction false} BulletLinesContainEach(all: seq<MonkeySpecies>, i: nat)
    requires i < |all|
    ensures Contains(BulletLines(all), BulletLine(all[i]))
  {
    var init := all[..|all| - 1];
    var last := all[|all| - 1];
    if i == |all| - 1 {
      ContainsInMiddle(BulletLines(init), BulletLine(last), "");
      assert BulletLines(init) + BulletLine(last) + "" == BulletLines(all);
    } else {
      assert init[i] == all[i];
      BulletLinesContainEach(init, i);
      ContainsInPrefix(BulletLines(init), BulletLine(last), BulletLine(all[i]));
    }
  }

  /** The number of newline characters in a text. */
  function LineBreaks(s: string): nat {
    if s == [] then 0 else LineBreaks(s[..|s| - 1]) + (if s[|s| - 1] == '\n' then 1 else 0)
  }

  lemma {:induction false} LineBreaksAppend(a: string, b: string)
    ensures LineBreaks(a + b) == LineBreaks(a) + LineBreaks(b)
  {
    if b == [] {
      assert a + b == a;
    } else {
      LineBreaksAppend(a, b[..|b| - 1]);
      assert (a + b)[..|a + b| - 1] == a + b[..|b| - 1];
      assert (a + b)[|a + b| - 1] == b[|b| - 1];
    }
  }

  lemma {:induction false} NoLineBreaks(s: string)
    requires forall i | 0 <= i < |s| :: s[i] != '\n'
    ensures LineBreaks(s) == 0
  {
    if s != [] {
      NoLineBreaks(s[..|s| - 1]);
    }
  }

  /** A species whose name and location are single-line strings. */
  predicate SingleLine(s: MonkeySpecies) {
    (forall i | 0 <= i < |s.speciesName| :: s.speciesName[i] != '\n')
    && (forall i | 0 <= i < |s.location| :: s.location[i] != '\n')
  }

  /** A species with single-line name and location takes exactly one line. */
  lemma BulletLineIsOneLine(s: MonkeySpecies)
    requires SingleLine(s)
    ensures LineBreaks(BulletLine(s)) == 1
  {
    var population := NullableDecimal(s.population);
    assert forall i | 0 <= i < |population| :: population[i] != '\n' by {
      if s.population.Some? {
        DecimalRoundTrip(s.population.value);
      }
    }
    var body := "• " + s.speciesName + FictionalFlag(s) + " (" + s.location + ")"
      + " - Population: " + population;
    assert BulletLine(s) == body + "\n";
    NoLineBreaks(body);
    LineBreaksAppend(body, "\n");
    assert "\n"[..0] == "";
  }

  /** One line per species: with single-line names and locations, the bullet text has exactly as many lines as there are species. */
  lemma {:induction false} BulletLinesOnePerSpecies(all: seq<MonkeySpecies>)
    requires forall i | 0 <= i < |all| :: SingleLine(all[i])
    ensures LineBreaks(BulletLines(all)) == |all|
  {
    if all != [] {
      var init := all[..|all| - 1];
      BulletLinesOnePerSpecies(init);
      BulletLineIsOneLine(all[|all| - 1]);
      LineBreaksAppend(BulletLines(init), BulletLine(all[|all| - 1]));
    }
  }

  // ---------------------------------------------------------------------------
  // get_monkey_species_details

  /** `stream().limit(5)`: the first five names, or all of them when there are fewer. */
  function Suggestions(names: seq<string>): (r: seq<string>)
    ensures |r| == if |names| <= SuggestionLimit then |names| else SuggestionLimit
    ensures r <= names
    ensures |names| <= SuggestionLimit ==> r == names
  {
    if |names| <= SuggestionLimit then names else names[..SuggestionLimit]
  }

  /** `'%s'` */
  function Quoted(s: string): string {
    "'" + s + "'"
  }

  /** The not-found reply: the name as given, untrimmed, and the suggestions joined by ", ". */
  function NotFoundReply(speciesName: string, names: seq<string>): string {
    "Monkey species " + Quoted(speciesName) + " not found. Available species include: "
      + Join(Suggestions(names), ", ")
  }

  /** The not-found reply names the species asked for and every suggested name. */
  lemma NotFoundReplyNames(speciesName: string, names: seq<string>)
    ensures Contains(NotFoundReply(speciesName, names), Quoted(speciesName))
    ensures forall i | 0 <= i < |names| && i < SuggestionLimit :: Contains(NotFoundReply(speciesName, names), names[i])
  {
    var head := "Monkey species ";
    var middle := " not found. Available species include: ";
    var joined := Join(Suggestions(names), ", ");
    AppendAssoc(head + Quoted(speciesName), middle, joined);
    ContainsInMiddle(head, Quoted(speciesName), middle + joined);
    forall i | 0 <= i < |names| && i < SuggestionLimit ensures Contains(NotFoundReply(speciesName, names), names[i]) {
      JoinContainsEach(Suggestions(names), ", ", i);
      ContainsInSuffix(head + Quoted(speciesName) + middle, joined, names[i]);
    }
  }

  // ---------------------------------------------------------------------------
  // get_monkey_species_stats

  /** `population() != null ? population() : 0` */
  function PopulationOrZero(s: MonkeySpecies): int {
    s.population.GetOr(0)
  }

  /** `mapToLong(...).sum()`: the populations added up, a null population counting as 0. */
  function TotalPopulation(all: seq<MonkeySpecies>): int {
    if all == [] then 0 else PopulationOrZero(all[0]) + TotalPopulation(all[1..])
  }

  lemma {:induction false} TotalPopulationAppend(a: seq<MonkeySpecies>, b: seq<MonkeySpecies>)
    ensures TotalPopulation(a + b) == TotalPopulation(a) + TotalPopulation(b)
  {
    if a == [] {
      assert a + b == b;
    } else {
      TotalPopulationAppend(a[1..], b);
      assert (a + b)[0] == a[0];
      assert (a + b)[1..] == a[1..] + b;
    }
  }

  /** Taking one species out of the listing takes its population out of the sum. */
  lemma TotalPopulationRemove(all: seq<MonkeySpecies>, i: nat)
    requires i < |all|
    ensures TotalPopulation(all) == PopulationOrZero(all[i]) + TotalPopulation(all[..i] + all[i + 1..])
  {
    assert all == all[..i] + all[i..];
    TotalPopulationAppend(all[..i], all[i..]);
    assert all[i..][1..] == all[i + 1..];
    TotalPopulationAppend(all[..i], all[i + 1..]);
  }

  /** The sum does not depend on the order of the listing. */
  lemma {:induction false} TotalPopulationPermutation(a: seq<MonkeySpecies>, b: seq<MonkeySpecies>)
    requires multiset(a) == multiset(b)
    ensures TotalPopulation(a) == TotalPopulation(b)
  {
    if a != [] {
      assert a[0] in multiset(b);
      var i :| 0 <= i < |b| && b[i] == a[0];
      var rest := b[..i] + b[i + 1..];
      RemoveMultiset(b, i);
      TailMultiset(a);
      TotalPopulationPermutation(a[1..], rest);
      TotalPopulationRemove(b, i);
    }
  }

  /** A population of null adds nothing: setting it to 0 leaves the sum as it was. */
  lemma {:induction false} NullPopulationCountsZero(all: seq<MonkeySpecies>, i: nat)
    requires i < |all| && all[i].population.None?
    ensures TotalPopulation(all[i := all[i].(population := Some(0))]) == TotalPopulation(all)
  {
    if i > 0 {
      NullPopulationCountsZero(all[1..], i - 1);
      assert all[i := all[i].(population := Some(0))][1..] == all[1..][i - 1 := all[i].(population := Some(0))];
    }
  }

  /** `map(location).distinct().count()` */
  function UniqueLocations(all: seq<MonkeySpecies>): nat {
    |Dedup(Locations(all))|
  }

  function Locations(all: seq<MonkeySpecies>): seq<string> {
    seq(|all|, i requires 0 <= i < |all| => all[i].location)
  }

  /** "Unique Locations" is the number of different location strings. */
  lemma UniqueLocationsCount(all: seq<MonkeySpecies>)
    ensures UniqueLocations(all) == |set s | s in all :: s.location|
  {
    DedupCount(Locations(all));
    assert (set x | x in Locations(all)) == (set s | s in all :: s.location) by {
      forall x | x in Locations(all) ensures x in (set s | s in all :: s.location) {
        var i :| 0 <= i < |all| && Locations(all)[i] == x;
        assert all[i] in all;
      }
      forall s | s in all ensures s.location in Locations(all) {
        var i :| 0 <= i < |all| && all[i] == s;
        assert Locations(all)[i] == s.location;
      }
    }
  }

  /**
   * `max(Integer.compare(a.accessed(), b.accessed()))`: a left fold that keeps
   * the species seen so far unless the next one has strictly more accesses.
   * Empty exactly for an empty listing; otherwise a listed species with the
   * highest count.
   */
  function MostAccessed(all: seq<MonkeySpecies>): (r: Option<MonkeySpecies>)
    ensures r.Some? <==> all != []
    ensures r.Some? ==> r.value in all && forall i | 0 <= i < |all| :: all[i].accessed <= r.value.accessed
  {
    if all == [] then None
    else
      var next := all[|all| - 1];
      match MostAccessed(all[..|all| - 1])
      case None => Some(next)
      case Some(best) => if best.accessed >= next.accessed then Some(best) else Some(next)
  }

  /**
   * On a tie the earliest of the most accessed species is named: it occurs
   * in the listing no later than any species with the same count.
   */
  lemma {:induction false} MostAccessedIsFirst(all: seq<MonkeySpecies>, j: nat)
    requires j < |all| && all[j].accessed == MostAccessed(all).value.accessed
    ensures MostAccessed(all).value in all[..j + 1]
  {
    var n := |all|;
    var init := all[..n - 1];
    var next := all[n - 1];
    if init == [] {
      assert all[..j + 1] == all;
    } else {
      var best := MostAccessed(init).value;
      if best.accessed >= next.accessed {
        if j < n - 1 {
          assert init[j] == all[j];
          MostAccessedIsFirst(init, j);
          assert init[..j + 1] == all[..j + 1];
        } else {
          assert all[..j + 1] == all;
        }
      } else {
        assert j == n - 1;
        assert all[..j + 1] == all;
      }
    }
  }

  /** The statistics text for a non-empty store holding `totalSpecies` records, listed as `all`. */
  function StatsReport(totalSpecies: int, all: seq<MonkeySpecies>, locale: Locale): string {
    var figures := "Monkey Species Database Statistics:\n\n"
      + "• Total Species: " + Decimal(totalSpecies) + "\n"
      + "• Total Population: " + locale.grouped(TotalPopulation(all)) + "\n"
      + "• Unique Locations: " + Decimal(UniqueLocations(all)) + "\n";
    match MostAccessed(all)
    case None => figures
    case Some(popular) =>
      figures + "• Most Accessed: " + popular.speciesName + " (" + Decimal(popular.accessed) + " times)\n"
  }

  /**
   * The figures do not depend on the order findAll produced: two listings of
   * the same store give the same population sum, the same number of
   * locations and the same highest access count. Only the name shown for
   * "Most Accessed" can differ, when several species share that count.
   */
  lemma StatsIgnoreListingOrder(a: seq<MonkeySpecies>, b: seq<MonkeySpecies>, t: Table)
    requires IsListing(a, t) && IsListing(b, t) && t != map[]
    ensures TotalPopulation(a) == TotalPopulation(b)
    ensures UniqueLocations(a) == UniqueLocations(b)
    ensures MostAccessed(a).value.accessed == MostAccessed(b).value.accessed
  {
    ListingsArePermutations(a, b, t);
    TotalPopulationPermutation(a, b);
    SameElementsMembers(a, b);
    UniqueLocationsSameMembers(a, b);
    MostAccessedSameMembers(a, b);
  }

  lemma UniqueLocationsSameMembers(a: seq<MonkeySpecies>, b: seq<MonkeySpecies>)
    requires forall s :: s in a <==> s in b
    ensures UniqueLocations(a) == UniqueLocations(b)
  {
    UniqueLocationsCount(a);
    UniqueLocationsCount(b);
    assert (set s | s in a :: s.location) == (set s | s in b :: s.location);
  }

  lemma MostAccessedSameMembers(a: seq<MonkeySpecies>, b: seq<MonkeySpecies>)
    requires a != [] && forall s :: s in a <==> s in b
    ensures MostAccessed(a).value.accessed == MostAccessed(b).value.accessed
  {
    var ma, mb := MostAccessed(a).value, MostAccessed(b).value;
    assert ma in b && mb in a;
  }


  // ---------------------------------------------------------------------------
  // The server

  class MonkeySpeciesMcpServer {
    /** The injected service. */
    const monkeySpeciesService: MonkeySpeciesService

    constructor (monkeySpeciesService: MonkeySpeciesService)
      ensures this.monkeySpeciesService == monkeySpeciesService
    {
      this.monkeySpeciesService := monkeySpeciesService;
    }

    /**
     * list_monkey_species: a fixed message for an empty store; otherwise a
     * header with the count and one bullet line per listed species, in the
     * order of the listing (`listed`). Nothing changes.
     */
    method ListMonkeySpecies() returns (reply: string, ghost listed: seq<MonkeySpecies>)
      requires monkeySpeciesService.repository.Valid()
      ensures IsListing(listed, monkeySpeciesService.repository.speciesDatabase)
      ensures monkeySpeciesService.repository.speciesDatabase == map[] ==> reply == NoSpeciesFound
      ensures monkeySpeciesService.repository.speciesDatabase != map[] ==>
        reply == ListingHeader(|listed|) + BulletLines(listed)
    {
      var allSpecies := monkeySpeciesService.GetAllSpecies();
      listed := allSpecies;
      if |allSpecies| == 0 {
        reply := NoSpeciesFound;
        return;
      }
      reply := ListingHeader(|allSpecies|);
      for i := 0 to |allSpecies|
        invariant reply == ListingHeader(|allSpecies|) + BulletLines(allSpecies[..i])
      {
        BulletLinesExtend(allSpecies, i);
        AppendAssoc(ListingHeader(|allSpecies|), BulletLines(allSpecies[..i]), BulletLine(allSpecies[i]));
        reply := reply + BulletLine(allSpecies[i]);
      }
      assert allSpecies[..|allSpecies|] == allSpecies;
    }

    /**
     * get_monkey_species_details: a null or blank name gets the error reply
     * and changes nothing. Otherwise the service's getSpeciesDetails runs;
     * a hit is answered with the record's formatted text, a miss with the
     * name as given and at most five names from the front of a sorted name
     * list (`suggestedFrom`).
     */
    method GetMonkeySpeciesDetails(speciesName: Option<string>, locale: Locale) returns (reply: string, ghost suggestedFrom: seq<string>)
      requires monkeySpeciesService.repository.Valid()
      modifies monkeySpeciesService.repository
      ensures monkeySpeciesService.repository.Valid()
      ensures IsNullOrBlank(speciesName) ==>
        reply == EmptyNameError && monkeySpeciesService.repository.speciesDatabase == old(monkeySpeciesService.repository.speciesDatabase)
      ensures !IsNullOrBlank(speciesName) ==>
        var (found, after) := Details(old(monkeySpeciesService.repository.speciesDatabase), speciesName);
        && monkeySpeciesService.repository.speciesDatabase == after
        && (found.Some? ==> reply == ToFormattedString(found.value, locale))
        && (found.None? ==> IsNameList(suggestedFrom, after) && reply == NotFoundReply(speciesName.value, suggestedFrom))
    {
      suggestedFrom := [];
      if speciesName.None? || Trim(speciesName.value) == [] {
        TrimEmptyIff(if speciesName.None? then "" else speciesName.value);
        return EmptyNameError, suggestedFrom;
      }
      TrimEmptyIff(speciesName.value);
      var species := monkeySpeciesService.GetSpeciesDetails(speciesName);
      if species.Some? {
        reply := ToFormattedString(species.value, locale);
      } else {
        var availableSpecies, _ := monkeySpeciesService.GetAllSpeciesNames();
        suggestedFrom := availableSpecies;
        reply := NotFoundReply(speciesName.value, availableSpecies);
      }
    }

    /**
     * get_random_monkey_species: `pick` stands for the random draw. An empty
     * store gets the fixed reply; otherwise the picked species (`chosen`) is
     * counted and its formatted text follows the header.
     */
    method GetRandomMonkeySpecies(pick: nat, locale: Locale) returns (reply: string, ghost chosen: string)
      requires monkeySpeciesService.repository.Valid()
      requires monkeySpeciesService.repository.speciesDatabase != map[] ==> pick < |monkeySpeciesService.repository.speciesDatabase|
      modifies monkeySpeciesService.repository
      ensures monkeySpeciesService.repository.Valid()
      ensures old(monkeySpeciesService.repository.speciesDatabase) == map[] ==>
        reply == NoSpeciesAvailable && monkeySpeciesService.repository.speciesDatabase == old(monkeySpeciesService.repository.speciesDatabase)
      ensures old(monkeySpeciesService.repository.speciesDatabase) != map[] ==>
        var before := old(monkeySpeciesService.repository.speciesDatabase);
        && chosen in before
        && monkeySpeciesService.repository.speciesDatabase == before[chosen := WithIncrementedAccess(before[chosen])]
        && reply == RandomHeader + ToFormattedString(WithIncrementedAccess(before[chosen]), locale)
    {
      var randomSpecies;
      randomSpecies, chosen := monkeySpeciesService.GetRandomSpecies(pick);
      if randomSpecies.Some? {
        reply := RandomHeader + ToFormattedString(randomSpecies.value, locale);
      } else {
        reply := NoSpeciesAvailable;
      }
    }

    /**
     * get_monkey_species_stats: a fixed message for an empty store;
     * otherwise the count, the population sum, the number of distinct
     * locations and the most accessed species of a findAll listing
     * (`listed`). Nothing changes.
     */
    method GetMonkeySpeciesStats(locale: Locale) returns (reply: string, ghost listed: seq<MonkeySpecies>)
      requires monkeySpeciesService.repository.Valid()
      ensures IsListing(listed, monkeySpeciesService.repository.speciesDatabase)
      ensures monkeySpeciesService.repository.speciesDatabase == map[] ==> reply == DatabaseEmpty
      ensures monkeySpeciesService.repository.speciesDatabase != map[] ==>
        reply == StatsReport(|monkeySpeciesService.repository.speciesDatabase|, listed, locale)
    {
      var totalSpecies := monkeySpeciesService.GetSpeciesCount();
      var allSpecies := monkeySpeciesService.GetAllSpecies();
      listed := allSpecies;
      if |allSpecies| == 0 {
        return DatabaseEmpty, listed;
      }
      var totalPopulation := TotalPopulation(allSpecies);
      var mostAccessed := MostAccessed(allSpecies);
      var uniqueLocations := UniqueLocations(allSpecies);
      reply := "Monkey Species Database Statistics:\n\n";
      reply := reply + "• Total Species: " + Decimal(totalSpecies) + "\n";
      reply := reply + "• Total Population: " + locale.grouped(totalPopulation) + "\n";
      reply := reply + "• Unique Locations: " + Decimal(uniqueLocations) + "\n";
      if mostAccessed.Some? {
        var popular := mostAccessed.value;
        reply := reply + "• Most Accessed: " + popular.speciesName + " (" + Decimal(popular.accessed) + " times)\n";
      }
    }
  }
}
