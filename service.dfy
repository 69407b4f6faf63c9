/**
 * MonkeySpeciesService (org.acme.service): the layer between the MCP tools
 * and the repository. It trims input names, matches them against the stored
 * display names ignoring case, and lists the names sorted.
 */
module Service {
  import opened Wrappers
  import opened Lists
  import opened Text
  import opened Sorting
  import opened Model
  import opened Repository

  // ---------------------------------------------------------------------------
  // The stream pipelines over a findAll listing

  /** `filter(equalsIgnoreCase(name)).findFirst()`: the first record whose display name equals `name` up to case. */
  function FirstNameMatch(all: seq<MonkeySpecies>, name: string): (r: Option<MonkeySpecies>)
    ensures r.Some? ==> r.value in all && EqualsIgnoreCase(r.value.speciesName, name)
    ensures r.None? <==> forall i | 0 <= i < |all| :: !EqualsIgnoreCase(all[i].speciesName, name)
    ensures r.Some? ==> exists i | 0 <= i < |all| ::
      all[i] == r.value && forall j | 0 <= j < i :: !EqualsIgnoreCase(all[j].speciesName, name)
  {
    if all == [] then None
    else if EqualsIgnoreCase(all[0].speciesName, name) then Some(all[0])
    else
      var r := FirstNameMatch(all[1..], name);
      assert r.Some? ==> exists i | 0 <= i < |all| ::
        all[i] == r.value && forall j | 0 <= j < i :: !EqualsIgnoreCase(all[j].speciesName, name)
      by {
        if r.Some? {
          var i :| 0 <= i < |all[1..]| && all[1..][i] == r.value
            && forall j | 0 <= j < i :: !EqualsIgnoreCase(all[1..][j].speciesName, name);
          forall j | 0 <= j < i + 1 ensures !EqualsIgnoreCase(all[j].speciesName, name) {
            if j > 0 {
              assert all[j] == all[1..][j - 1];
            }
          }
          assert all[i + 1] == r.value;
        }
      }
      r
  }

  /** `anyMatch(equalsIgnoreCase(name))`: some record's display name equals `name` up to case. */
  predicate AnyNameMatches(all: seq<MonkeySpecies>, name: string) {
    all != [] && (EqualsIgnoreCase(all[0].speciesName, name) || AnyNameMatches(all[1..], name))
  }

  /** anyMatch holds exactly when findFirst finds something. */
  lemma {:induction false} AnyNameMatchesIffFirst(all: seq<MonkeySpecies>, name: string)
    ensures AnyNameMatches(all, name) <==> FirstNameMatch(all, name).Some?
  {
    if all != [] {
      AnyNameMatchesIffFirst(all[1..], name);
    }
  }

  /** `map(MonkeySpecies::speciesName)` */
  function SpeciesNames(all: seq<MonkeySpecies>): seq<string> {
    seq(|all|, i requires 0 <= i < |all| => all[i].speciesName)
  }

  /**
   * Matching a listing of a well-keyed table by display name is looking up
   * the lower-cased name as a key: a record matches exactly when that key is
   * stored, and then it is the record stored there, so findFirst does not
   * depend on the listing's order.
   */
  lemma ListingNameMatch(all: seq<MonkeySpecies>, t: Table, name: string)
    requires WellKeyed(t) && IsListing(all, t)
    ensures (exists i | 0 <= i < |all| :: EqualsIgnoreCase(all[i].speciesName, name)) <==> Lower(name) in t
    ensures forall i | 0 <= i < |all| && EqualsIgnoreCase(all[i].speciesName, name) :: all[i] == t[Lower(name)]
  {
    if Lower(name) in t {
      var s := t[Lower(name)];
      assert s in all;
      var i :| 0 <= i < |all| && all[i] == s;
      assert Key(all[i]) == Lower(name);
    }
  }

  /** The display names of a listing of a well-keyed table are pairwise different, and they are the stored names. */
  lemma ListingNames(all: seq<MonkeySpecies>, t: Table)
    requires WellKeyed(t) && IsListing(all, t)
    ensures Distinct(SpeciesNames(all))
    ensures forall n :: n in SpeciesNames(all) <==> exists k | k in t :: t[k].speciesName == n
  {
    var names := SpeciesNames(all);
    forall i, j | 0 <= i < j < |names| ensures names[i] != names[j] {
      assert Key(all[i]) in t && Key(all[j]) in t;
    }
    forall n ensures n in names <==> exists k | k in t :: t[k].speciesName == n {
      if n in names {
        var i :| 0 <= i < |names| && names[i] == n;
        assert t[Key(all[i])].speciesName == n;
      }
      if exists k | k in t :: t[k].speciesName == n {
        var k :| k in t && t[k].speciesName == n;
        var i :| 0 <= i < |all| && all[i] == t[k];
        assert names[i] == n;
      }
    }
  }

  // ---------------------------------------------------------------------------
  // The service's results on a table value

  /**
   * getSpeciesDetails on a table value: a null or blank name finds nothing
   * and changes nothing; otherwise the trimmed name is looked up as
   * findByNameAndIncrementAccess would look it up.
   */
  function Details(t: Table, speciesName: Option<string>): (res: (Option<MonkeySpecies>, Table))
    ensures res.1.Keys == t.Keys
    ensures res.0.Some? <==> !IsNullOrBlank(speciesName) && Lower(Trim(speciesName.value)) in t
    ensures res.0.None? ==> res.1 == t
  {
    if IsNullOrBlank(speciesName) then (None, t) else Lookup(t, Some(Trim(speciesName.value)))
  }

  /** Padding around the name makes no difference to getSpeciesDetails. */
  lemma DetailsIgnoresPadding(t: Table, name: string)
    ensures Details(t, Some(name)) == Details(t, Some(Trim(name)))
  {
    TrimIdempotent(name);
    TrimEmptyIff(name);
    TrimEmptyIff(Trim(name));
  }

  /** A hit counts as an access: short of the int wrapping, the returned record has been accessed at least once, and the store holds it. */
  lemma DetailsCountsAccess(t: Table, speciesName: Option<string>)
    requires Details(t, speciesName).0.Some?
    requires 0 <= t[Lower(Trim(speciesName.value))].accessed < MaxInt32
    ensures var (found, after) := Details(t, speciesName);
      found.value.accessed > 0 && after[Lower(Trim(speciesName.value))] == found.value
  {
    LookupEffect(t, Some(Trim(speciesName.value)));
  }

  /** speciesExists on a table value: the trimmed name is stored, up to case. */
  ghost predicate NameKnown(t: Table, speciesName: Option<string>) {
    !IsNullOrBlank(speciesName) && exists k | k in t :: EqualsIgnoreCase(t[k].speciesName, Trim(speciesName.value))
  }

  /** speciesExists answers yes exactly when getSpeciesDetails would find a record. */
  lemma NameKnownIffDetailsFind(t: Table, speciesName: Option<string>)
    requires WellKeyed(t)
    ensures NameKnown(t, speciesName) <==> Details(t, speciesName).0.Some?
  {
    if !IsNullOrBlank(speciesName) {
      var n := Trim(speciesName.value);
      if Lower(n) in t {
        assert Key(t[Lower(n)]) == Lower(n);
      }
    }
  }

  /** getAllSpeciesNames on a table value: every stored display name once, sorted. */
  ghost predicate IsNameList(names: seq<string>, t: Table) {
    && Sorted(names)
    && Distinct(names)
    && |names| == |t|
    && forall n :: n in names <==> exists k | k in t :: t[k].speciesName == n
  }

  /** There is only one sorted name list of a table, whatever order findAll produced. */
  lemma NameListUnique(a: seq<string>, b: seq<string>, t: Table)
    requires IsNameList(a, t) && IsNameList(b, t)
    ensures a == b
  {
    DistinctSameElements(a, b);
    SortedPermutationUnique(a, b);
  }

  // ---------------------------------------------------------------------------
  // The service

  class MonkeySpeciesService {
    /** The injected repository. */
    const repository: MonkeySpeciesRepository

    constructor (repository: MonkeySpeciesRepository)
      ensures this.repository == repository
    {
      this.repository := repository;
    }

    /** getAllSpecies: the repository's findAll; nothing changes. */
    method GetAllSpecies() returns (all: seq<MonkeySpecies>)
      requires repository.Valid()
      ensures IsListing(all, repository.speciesDatabase)
    {
      all := repository.FindAll();
    }

    /**
     * getSpeciesDetails: a null or blank name gives empty. Otherwise the
     * first listed record whose name equals the trimmed name up to case is
     * looked up again by its own name, which counts an access; if that
     * second lookup missed, the listed record itself would be returned.
     */
    method GetSpeciesDetails(speciesName: Option<string>) returns (details: Option<MonkeySpecies>)
      requires repository.Valid()
      modifies repository
      ensures repository.Valid()
      ensures IsNullOrBlank(speciesName) ==> details == None && repository.speciesDatabase == old(repository.speciesDatabase)
      ensures (details, repository.speciesDatabase) == Details(old(repository.speciesDatabase), speciesName)
    {
      if speciesName.None? || Trim(speciesName.value) == [] {
        TrimEmptyIff(if speciesName.None? then "" else speciesName.value);
        return None;
      }
      TrimEmptyIff(speciesName.value);
      var normalizedName := Trim(speciesName.value);
      var all := repository.FindAll();
      ListingNameMatch(all, repository.speciesDatabase, normalizedName);
      var first := FirstNameMatch(all, normalizedName);
      match first {
        case None =>
          details := None;
        case Some(species) =>
          LookupIgnoresCase(repository.speciesDatabase, species.speciesName, normalizedName);
          var found := repository.FindByNameAndIncrementAccess(Some(species.speciesName));
          details := Some(found.GetOr(species));
      }
    }

    /** getRandomSpecies: the repository's findRandomAndIncrementAccess, unchanged. */
    method GetRandomSpecies(pick: nat) returns (found: Option<MonkeySpecies>, ghost chosen: string)
      requires repository.Valid()
      requires repository.speciesDatabase != map[] ==> pick < |repository.speciesDatabase|
      modifies repository
      ensures repository.Valid()
      ensures old(repository.speciesDatabase) == map[] ==> found == None && repository.speciesDatabase == old(repository.speciesDatabase)
      ensures old(repository.speciesDatabase) != map[] ==>
        && chosen in old(repository.speciesDatabase)
        && found == Some(WithIncrementedAccess(old(repository.speciesDatabase)[chosen]))
        && repository.speciesDatabase == old(repository.speciesDatabase)[chosen := found.value]
    {
      found, chosen := repository.FindRandomAndIncrementAccess(pick);
    }

    /**
     * speciesExists: false for a null or blank name, otherwise whether some
     * stored display name equals the trimmed name up to case; unlike the
     * repository's existsByName, padding is ignored. Nothing changes.
     */
    method SpeciesExists(speciesName: Option<string>) returns (known: bool)
      requires repository.Valid()
      ensures known == NameKnown(repository.speciesDatabase, speciesName)
      ensures known == (!IsNullOrBlank(speciesName) && HasKeyFor(repository.speciesDatabase, Some(Trim(speciesName.value))))
    {
      if speciesName.None? || Trim(speciesName.value) == [] {
        TrimEmptyIff(if speciesName.None? then "" else speciesName.value);
        return false;
      }
      TrimEmptyIff(speciesName.value);
      var all := repository.FindAll();
      var t := repository.speciesDatabase;
      var name := Trim(speciesName.value);
      known := AnyNameMatches(all, name);
      AnyNameMatchesIffFirst(all, name);
      ListingNameMatch(all, t, name);
      NameKnownIffDetailsFind(t, speciesName);
    }

    /** getSpeciesCount: the repository's count. */
    method GetSpeciesCount() returns (count: nat)
      ensures count == |repository.speciesDatabase|
    {
      count := repository.GetSpeciesCount();
    }

    /**
     * getAllSpeciesNames: the display names of a findAll listing (`listed`),
     * sorted; so every stored name once, in `compareTo` order.
     */
    method GetAllSpeciesNames() returns (names: seq<string>, ghost listed: seq<MonkeySpecies>)
      requires repository.Valid()
      ensures IsListing(listed, repository.speciesDatabase)
      ensures Sorted(names) && multiset(names) == multiset(SpeciesNames(listed))
      ensures IsNameList(names, repository.speciesDatabase)
    {
      var all := repository.FindAll();
      listed := all;
      names := Sort(SpeciesNames(all));
      ListingNames(all, repository.speciesDatabase);
      DistinctPermutation(SpeciesNames(all), names);
      assert |names| == |multiset(names)| == |SpeciesNames(all)|;
      forall n ensures n in names <==> n in SpeciesNames(all) {
        assert n in names <==> n in multiset(names);
      }
    }
  }
}
