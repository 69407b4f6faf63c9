/**
 * MonkeySpeciesRepository (org.acme.repository): the keyed table from
 * lower-cased species name to the current MonkeySpecies record, seeded with
 * eleven records and updated in place by every successful lookup.
 */
module Repository {
  import opened Wrappers
  import opened Lists
  import opened Text
  import opened Model

  type Table = map<string, MonkeySpecies>

  /** The key a record is stored under: its name, lower-cased. */
  function Key(s: MonkeySpecies): string {
    Lower(s.speciesName)
  }

  /** The store's invariant: every record sits under its own key, and no stored name is blank. */
  ghost predicate WellKeyed(t: Table) {
    forall k | k in t :: Key(t[k]) == k && !IsBlank(t[k].speciesName)
  }

  /** `all` lists every record of `t` exactly once, in some order (findAll). */
  ghost predicate IsListing(all: seq<MonkeySpecies>, t: Table) {
    && |all| == |t|
    && (forall i | 0 <= i < |all| :: Key(all[i]) in t && t[Key(all[i])] == all[i])
    && (forall k | k in t :: t[k] in all)
    && (forall i, j | 0 <= i < j < |all| :: all[i] != all[j])
  }

  /** A listing built key by key, each key once and every key covered, is a listing of the table. */
  lemma ListingFromKeys(all: seq<MonkeySpecies>, keys: seq<string>, t: Table)
    requires WellKeyed(t)
    requires |all| == |keys| == |t|
    requires forall i | 0 <= i < |all| :: keys[i] in t && t[keys[i]] == all[i]
    requires forall k | k in t :: k in keys
    requires forall i, j | 0 <= i < j < |keys| :: keys[i] != keys[j]
    ensures IsListing(all, t)
  {
    forall i | 0 <= i < |all| ensures Key(all[i]) in t && t[Key(all[i])] == all[i] {
      assert Key(t[keys[i]]) == keys[i];
    }
    forall k | k in t ensures t[k] in all {
      var i :| 0 <= i < |keys| && keys[i] == k;
      assert all[i] == t[k];
    }
    forall i, j | 0 <= i < j < |all| ensures all[i] != all[j] {
      assert Key(t[keys[i]]) == keys[i] && Key(t[keys[j]]) == keys[j];
    }
  }

  /** Two findAll listings of the same table differ only in order. */
  lemma ListingsArePermutations(a: seq<MonkeySpecies>, b: seq<MonkeySpecies>, t: Table)
    requires IsListing(a, t) && IsListing(b, t)
    ensures multiset(a) == multiset(b)
  {
    forall x ensures x in a <==> x in b {
      if x in a {
        var i :| 0 <= i < |a| && a[i] == x;
        assert t[Key(a[i])] in b;
      }
      if x in b {
        var i :| 0 <= i < |b| && b[i] == x;
        assert t[Key(b[i])] in a;
      }
    }
    DistinctSameElements(a, b);
  }

  /**
   * findByNameAndIncrementAccess on a table value: what it returns and the
   * table it leaves. A null or blank name misses; otherwise the lower-cased
   * name is looked up and, on a hit, the record under it is replaced by its
   * copy with one more access, which is returned.
   */
  function Lookup(t: Table, speciesName: Option<string>): (res: (Option<MonkeySpecies>, Table))
    ensures res.1.Keys == t.Keys
    ensures res.0.Some? <==> !IsNullOrBlank(speciesName) && Lower(speciesName.value) in t
    ensures res.0.None? ==> res.1 == t
  {
    if IsNullOrBlank(speciesName) then (None, t)
    else
      var k := Lower(speciesName.value);
      if k in t then
        var updated := WithIncrementedAccess(t[k]);
        (Some(updated), t[k := updated])
      else (None, t)
  }

  /**
   * A hit returns the stored record with one more access, stores that copy
   * under the same key, leaves every other record alone and keeps the store's
   * invariant.
   */
  lemma LookupEffect(t: Table, speciesName: Option<string>)
    ensures var res := Lookup(t, speciesName);
      res.0.Some? ==>
      var k := Lower(speciesName.value);
      && res.0.value.(accessed := t[k].accessed) == t[k]
      && (t[k].accessed < MaxInt32 ==> res.0.value.accessed == t[k].accessed + 1)
      && res.1[k] == res.0.value
      && forall other | other in t && other != k :: res.1[other] == t[other]
    ensures WellKeyed(t) ==> WellKeyed(Lookup(t, speciesName).1)
  {
  }

  /** existsByName on a table value: false for a null or blank name, else whether the lower-cased name is a key. */
  predicate HasKeyFor(t: Table, speciesName: Option<string>) {
    !IsNullOrBlank(speciesName) && Lower(speciesName.value) in t
  }

  /** Names that differ only in ASCII case reach the same record with the same effect. */
  lemma LookupIgnoresCase(t: Table, a: string, b: string)
    requires EqualsIgnoreCase(a, b)
    ensures Lookup(t, Some(a)) == Lookup(t, Some(b))
    ensures HasKeyFor(t, Some(a)) == HasKeyFor(t, Some(b))
  {
    EqualsIgnoreCaseKeepsBlank(a, b);
  }

  /** Looking up a stored key hits it: the key is its own lower-case form and is not blank. */
  lemma LookupStoredKey(t: Table, k: string)
    requires WellKeyed(t) && k in t
    ensures Lookup(t, Some(k)).0 == Some(WithIncrementedAccess(t[k]))
    ensures Lookup(t, Some(k)).1 == t[k := WithIncrementedAccess(t[k])]
  {
    LowerIdempotent(t[k].speciesName);
    LowerKeepsBlank(t[k].speciesName);
  }

  /** A hit replaces the record under the lower-cased name by its incremented copy and returns that copy. */
  lemma LookupHit(t: Table, speciesName: Option<string>)
    requires HasKeyFor(t, speciesName)
    ensures var k := Lower(speciesName.value);
      Lookup(t, speciesName) == (Some(WithIncrementedAccess(t[k])), t[k := WithIncrementedAccess(t[k])])
  {
  }

  /** The table after `n` lookups of the same name, one after another. */
  function LookupRepeatedly(t: Table, speciesName: Option<string>, n: nat): Table {
    if n == 0 then t else Lookup(LookupRepeatedly(t, speciesName, n - 1), speciesName).1
  }

  /** After `m` lookups of a stored name, only its record has changed, and its count is `m` higher. */
  lemma {:induction false} RepeatedLookupsTable(t: Table, speciesName: Option<string>, m: nat)
    requires !IsNullOrBlank(speciesName) && Lower(speciesName.value) in t
    requires t[Lower(speciesName.value)].accessed + m <= MaxInt32
    ensures var k := Lower(speciesName.value);
      LookupRepeatedly(t, speciesName, m) == t[k := t[k].(accessed := t[k].accessed + m)]
  {
    var k := Lower(speciesName.value);
    var r := t[k];
    if m == 0 {
      assert r.(accessed := r.accessed + 0) == r;
      assert t[k := r] == t;
    } else {
      RepeatedLookupsTable(t, speciesName, m - 1);
      var next := r.(accessed := r.accessed + m);
      var before := t[k := r.(accessed := r.accessed + m - 1)];
      LookupHit(before, speciesName);
      assert WithIncrementedAccess(before[k]) == next;
      assert before[k := next] == t[k := next];
    }
  }

  /**
   * Sequential lookups count up: the n-th lookup of a stored name returns its
   * record with `n` more accesses, as long as the Java int does not wrap.
   */
  lemma RepeatedLookupsCount(t: Table, speciesName: Option<string>, n: nat)
    requires !IsNullOrBlank(speciesName) && Lower(speciesName.value) in t
    requires 1 <= n && t[Lower(speciesName.value)].accessed + n <= MaxInt32
    ensures var k := Lower(speciesName.value);
      Lookup(LookupRepeatedly(t, speciesName, n - 1), speciesName).0 == Some(t[k].(accessed := t[k].accessed + n))
  {
    var k := Lower(speciesName.value);
    var r := t[k];
    RepeatedLookupsTable(t, speciesName, n - 1);
    var before := t[k := r.(accessed := r.accessed + n - 1)];
    assert WithIncrementedAccess(before[k]) == r.(accessed := r.accessed + n);
  }

  // ---------------------------------------------------------------------------
  // Seed data

  /** The eleven records the store starts with, in the order they are put; six real species, five fictional. */
  function Seeds(): seq<MonkeySpecies> {
    [
      MonkeySpecies(
        "Proboscis Monkey",
        "Borneo",
        "The " + "proboscis " + "monkey or " + "long-nosed " + "monkey, "
        + "known as " + "the " + "bekantan " + "in Malay, " + "is a "
        + "reddish-brown " + "arboreal " + "Old World " + "monkey " + "that is "
        + "endemic " + "to the " + "south-east " + "Asian " + "island of "
        + "Borneo.",
        Some(15000), Some(0.961883), Some(114.55485), 0, false),
      MonkeySpecies(
        "Golden Snub-nosed Monkey",
        "China",
        "The " + "golden " + "snub-nosed " + "monkey is " + "an Old "
        + "World " + "monkey in " + "the " + "subfamily " + "Colobinae. "
        + "It is " + "endemic " + "to a " + "small " + "area in "
        + "temperate, " + "mountainous " + "forests " + "of " + "central "
        + "and " + "southwestern " + "China.",
        Some(8000), Some(33.5000), Some(104.0000), 0, false),
      MonkeySpecies(
        "Howler Monkey",
        "Central and South America",
        "Howler " + "monkeys " + "are among " + "the " + "largest "
        + "of the " + "New World " + "monkeys. " + "They are " + "famous "
        + "for their " + "loud " + "howls, " + "which can " + "travel "
        + "more than " + "one mile " + "through " + "dense " + "rain "
        + "forest.",
        Some(50000), Some(10.0000), Some(-84.0000), 0, false),
      MonkeySpecies(
        "Japanese Macaque",
        "Japan",
        "The " + "Japanese " + "macaque, " + "also " + "known as "
        + "the snow " + "monkey, " + "is a " + "terrestrial " + "Old World "
        + "monkey " + "species " + "that is " + "native to " + "Japan. "
        + "They are " + "notable " + "for their " + "ability " + "to "
        + "survive " + "in very " + "cold " + "climates.",
        Some(114000), Some(36.2048), Some(138.2529), 0, false),
      MonkeySpecies(
        "Mandrill",
        "Equatorial Africa",
        "The " + "mandrill " + "is a " + "primate " + "of the "
        + "Old World " + "monkey " + "family. " + "It is one " + "of the "
        + "most " + "colorful " + "mammals " + "in the " + "world, "
        + "with red " + "and blue " + "skin on " + "their " + "face and "
        + "posterior.",
        Some(800000), Some(0.4162), Some(9.4673), 0, false),
      MonkeySpecies(
        "Spider Monkey",
        "Central and South America",
        "Spider " + "monkeys " + "are New " + "World " + "monkeys "
        + "belonging " + "to the " + "genus " + "Ateles. " + "They are "
        + "characterized " + "by their " + "long, " + "slender " + "limbs and "
        + "prehensile " + "tails.",
        Some(25000), Some(-2.1833), Some(-79.8833), 0, false),
      MonkeySpecies(
        "Crystal Fur Monkey",
        "Glacial Peaks of Zenthara",
        "A " + "mystical " + "primate " + "with " + "translucent "
        + "fur that " + "refracts " + "light " + "like " + "crystal. "
        + "Found " + "only in " + "the " + "mythical " + "frozen "
        + "mountains " + "of " + "Zenthara, " + "these " + "monkeys "
        + "can " + "survive " + "temperatures " + "as low as " + "-50Â°C "
        + "and their " + "fur " + "sparkles " + "like " + "diamonds "
        + "in " + "moonlight.",
        Some(500), Some(71.2345), Some(-156.7890), 0, true),
      MonkeySpecies(
        "Volcanic Ember Monkey",
        "Molten Caverns of Pyrothia",
        "A " + "fire-resistant " + "primate " + "that " + "lives "
        + "near " + "active " + "volcanic " + "chambers. " + "These "
        + "monkeys " + "have " + "heat-resistant " + "fur that " + "glows "
        + "with an " + "orange-red " + "hue and " + "they feed " + "on "
        + "sulfur-rich " + "plants. " + "They are " + "known to " + "leap "
        + "across " + "lava " + "flows in " + "the " + "fictional "
        + "realm of " + "Pyrothia.",
        Some(1200), Some(19.4567), Some(-155.8901), 0, true),
      MonkeySpecies(
        "Quantum Phase Monkey",
        "Interdimensional Nexus of Voidland",
        "A " + "theoretical " + "primate " + "that " + "exists in "
        + "multiple " + "dimensions " + "simultaneously. " + "Native to " + "the "
        + "non-existent " + "plane of " + "Voidland, " + "these " + "monkeys "
        + "can phase " + "through " + "solid " + "matter " + "and "
        + "communicate " + "through " + "quantum " + "entanglement " + "with "
        + "their " + "interdimensional " + "counterparts.",
        Some(300), Some(90.0000), Some(0.0000), 0, true),
      MonkeySpecies(
        "Luminous Cloud Monkey",
        "Floating Islands of Aerios",
        "An aerial " + "primate " + "that " + "lives in " + "perpetual "
        + "flight " + "among the " + "mythical " + "floating " + "islands "
        + "of " + "Aerios. " + "These " + "monkeys " + "have "
        + "gossamer-like " + "fur and " + "can glide " + "effortlessly " + "through "
        + "clouds. " + "They feed " + "on " + "atmospheric " + "particles "
        + "and " + "glowing " + "sky " + "fruits.",
        Some(800), Some(-45.1234), Some(168.5678), 0, true),
      MonkeySpecies(
        "Temporal Weaver Monkey",
        "Chrono Sanctuaries of Timenia",
        "A " + "time-manipulating " + "primate " + "from the " + "imaginary "
        + "realm of " + "Timenia. " + "These " + "monkeys " + "can slow "
        + "down time " + "around " + "them to " + "catch " + "prey and "
        + "have been " + "observed " + "to age at " + "different " + "rates. "
        + "They are " + "rumored " + "to have " + "existed " + "across "
        + "all " + "timelines " + "simultaneously.",
        Some(150), Some(42.3456), Some(-87.6543), 0, true)
    ]
  }

  /** The table after putting each record under its key, one after another (Map.put). */
  function PutAll(t: Table, records: seq<MonkeySpecies>): Table {
    if records == [] then t
    else
      var last := records[|records| - 1];
      PutAll(t, records[..|records| - 1])[Key(last) := last]
  }

  /** Putting records with pairwise different keys into an empty table stores each under its key and nothing else. */
  lemma {:induction false} PutAllDistinct(records: seq<MonkeySpecies>)
    requires forall i, j | 0 <= i < j < |records| :: Key(records[i]) != Key(records[j])
    ensures |PutAll(map[], records)| == |records|
    ensures forall i | 0 <= i < |records| :: Key(records[i]) in PutAll(map[], records) && PutAll(map[], records)[Key(records[i])] == records[i]
    ensures forall k | k in PutAll(map[], records) :: Key(PutAll(map[], records)[k]) == k && PutAll(map[], records)[k] in records
  {
    if records != [] {
      var init := records[..|records| - 1];
      var last := records[|records| - 1];
      var before := PutAll(map[], init);
      var t := PutAll(map[], records);
      PutAllDistinct(init);
      assert t == before[Key(last) := last];
      assert Key(last) !in before;
      assert |t| == |records|;
      forall i | 0 <= i < |records| ensures Key(records[i]) in t && t[Key(records[i])] == records[i] {
        if i < |init| {
          assert records[i] == init[i];
          assert Key(records[i]) != Key(last);
        }
      }
      forall k | k in t ensures Key(t[k]) == k && t[k] in records {
        if k != Key(last) {
          assert t[k] == before[k] && before[k] in init;
        }
      }
    }
  }

  /** The letters the eleven seed names start with, lower-cased. */
  const SeedInitials := "pghjmscvqlt"

  lemma SeedInitialsDistinct()
    ensures forall i, j | 0 <= i < j < |SeedInitials| :: SeedInitials[i] != SeedInitials[j]
    ensures forall i | 0 <= i < |SeedInitials| :: SeedInitials[i] > ' '
  {
  }

  /** No seed record has been accessed. */
  lemma SeedsUnaccessed()
    ensures forall i | 0 <= i < |Seeds()| :: Seeds()[i].accessed == 0
  {
  }

  /** Each seed name starts with its own letter. */
  lemma SeedNames()
    ensures |Seeds()| == |SeedInitials|
    ensures forall i | 0 <= i < |Seeds()| ::
      |Seeds()[i].speciesName| > 0 && LowerChar(Seeds()[i].speciesName[0]) == SeedInitials[i]
  {
    var seeds := Seeds();
    assert LowerChar(seeds[0].speciesName[0]) == SeedInitials[0];
    assert LowerChar(seeds[1].speciesName[0]) == SeedInitials[1];
    assert LowerChar(seeds[2].speciesName[0]) == SeedInitials[2];
    assert LowerChar(seeds[3].speciesName[0]) == SeedInitials[3];
    assert LowerChar(seeds[4].speciesName[0]) == SeedInitials[4];
    assert LowerChar(seeds[5].speciesName[0]) == SeedInitials[5];
    assert LowerChar(seeds[6].speciesName[0]) == SeedInitials[6];
    assert LowerChar(seeds[7].speciesName[0]) == SeedInitials[7];
    assert LowerChar(seeds[8].speciesName[0]) == SeedInitials[8];
    assert LowerChar(seeds[9].speciesName[0]) == SeedInitials[9];
    assert LowerChar(seeds[10].speciesName[0]) == SeedInitials[10];
  }

  /** Records whose names start with pairwise different letters (up to case) have pairwise different keys and non-blank names. */
  lemma DistinctInitialsDistinctKeys(records: seq<MonkeySpecies>, initials: string)
    requires |records| == |initials|
    requires forall i | 0 <= i < |records| ::
      |records[i].speciesName| > 0 && LowerChar(records[i].speciesName[0]) == initials[i]
    requires forall i, j | 0 <= i < j < |initials| :: initials[i] != initials[j]
    requires forall i | 0 <= i < |initials| :: initials[i] > ' '
    ensures forall i, j | 0 <= i < j < |records| :: Key(records[i]) != Key(records[j])
    ensures forall i | 0 <= i < |records| :: !IsBlank(records[i].speciesName)
  {
    forall i, j | 0 <= i < j < |records| ensures Key(records[i]) != Key(records[j]) {
      assert Key(records[i])[0] == initials[i];
      assert Key(records[j])[0] == initials[j];
    }
    forall i | 0 <= i < |records| ensures !IsBlank(records[i].speciesName) {
      assert records[i].speciesName[0] > ' ';
    }
  }

  /** Unaccessed records with pairwise different keys and non-blank names, put into an empty table, make a well-keyed table of them all. */
  lemma DistinctTableFacts(records: seq<MonkeySpecies>)
    requires forall i, j | 0 <= i < j < |records| :: Key(records[i]) != Key(records[j])
    requires forall i | 0 <= i < |records| :: !IsBlank(records[i].speciesName) && records[i].accessed == 0
    ensures var t := PutAll(map[], records);
      && |t| == |records|
      && WellKeyed(t)
      && (forall i | 0 <= i < |records| :: Key(records[i]) in t && t[Key(records[i])] == records[i])
      && (forall k | k in t :: t[k] in records && t[k].accessed == 0)
  {
    PutAllDistinct(records);
    var t := PutAll(map[], records);
    forall k | k in t ensures !IsBlank(t[k].speciesName) && t[k].accessed == 0 {
      var i :| 0 <= i < |records| && records[i] == t[k];
    }
  }

  /** The seeded table holds exactly the eleven records, each under its lower-cased name, none of them accessed yet. */
  lemma SeedTableFacts()
    ensures var t := PutAll(map[], Seeds());
      && |t| == 11
      && WellKeyed(t)
      && (forall i | 0 <= i < |Seeds()| :: Key(Seeds()[i]) in t && t[Key(Seeds()[i])] == Seeds()[i])
      && (forall k | k in t :: t[k] in Seeds() && t[k].accessed == 0)
  {
    SeedNames();
    SeedsUnaccessed();
    SeedInitialsDistinct();
    DistinctInitialsDistinctKeys(Seeds(), SeedInitials);
    DistinctTableFacts(Seeds());
  }

  // ---------------------------------------------------------------------------
  // The store

  class MonkeySpeciesRepository {
    /** speciesDatabase: lower-cased species name to the current record. */
    var speciesDatabase: Table

    ghost predicate Valid()
      reads this
    {
      WellKeyed(speciesDatabase)
    }

    /** A new repository holds the seeded records. */
    constructor ()
      ensures Valid()
      ensures speciesDatabase == PutAll(map[], Seeds())
    {
      speciesDatabase := map[];
      new;
      InitializeData();
      SeedTableFacts();
    }

    /** initializeData: puts every seed record under its lower-cased name. */
    method InitializeData()
      modifies this
      ensures speciesDatabase == PutAll(old(speciesDatabase), Seeds())
    {
      var initialSpecies := Seeds();
      PutEach(initialSpecies);
    }

    /** The loop of initializeData: `put` of each record under its lower-cased name, in list order; a later record wins a shared key. */
    method PutEach(records: seq<MonkeySpecies>)
      modifies this
      ensures speciesDatabase == PutAll(old(speciesDatabase), records)
    {
      for i := 0 to |records|
        invariant speciesDatabase == PutAll(old(speciesDatabase), records[..i])
      {
        var species := records[i];
        assert records[..i + 1][..i] == records[..i];
        speciesDatabase := speciesDatabase[Key(species) := species];
      }
      assert records[..|records|] == records;
    }

    /**
     * findAll: every stored record once, in the table's iteration order,
     * which is left open. The values are read in the order of the keys, as
     * the table's value view does.
     */
    method FindAll() returns (all: seq<MonkeySpecies>)
      requires Valid()
      ensures IsListing(all, speciesDatabase)
    {
      var keys := KeySnapshot();
      all := [];
      for i := 0 to |keys|
        invariant |all| == i
        invariant forall j | 0 <= j < i :: all[j] == speciesDatabase[keys[j]]
      {
        all := all + [speciesDatabase[keys[i]]];
      }
      ListingFromKeys(all, keys, speciesDatabase);
    }

    /** findByNameAndIncrementAccess: the lookup of Lookup, applied to the stored table. */
    method FindByNameAndIncrementAccess(speciesName: Option<string>) returns (found: Option<MonkeySpecies>)
      requires Valid()
      modifies this
      ensures Valid()
      ensures (found, speciesDatabase) == Lookup(old(speciesDatabase), speciesName)
    {
      if speciesName.None? || IsBlank(speciesName.value) {
        return None;
      }
      var key := Lower(speciesName.value);
      if key in speciesDatabase {
        var updatedSpecies := WithIncrementedAccess(speciesDatabase[key]);
        speciesDatabase := speciesDatabase[key := updatedSpecies];
        found := Some(updatedSpecies);
      } else {
        found := None;
      }
    }

    /** `new ArrayList<>(speciesDatabase.keySet())`: every key once, in the table's iteration order. */
    method KeySnapshot() returns (keys: seq<string>)
      ensures |keys| == |speciesDatabase|
      ensures forall k :: k in keys <==> k in speciesDatabase
      ensures forall i, j | 0 <= i < j < |keys| :: keys[i] != keys[j]
    {
      keys := [];
      var pending := speciesDatabase.Keys;
      while pending != {}
        invariant pending <= speciesDatabase.Keys
        invariant |keys| + |pending| == |speciesDatabase|
        invariant forall k :: k in keys <==> k in speciesDatabase && k !in pending
        invariant forall i, j | 0 <= i < j < |keys| :: keys[i] != keys[j]
        decreases pending
      {
        var k :| k in pending;
        keys := keys + [k];
        pending := pending - {k};
      }
    }

    /**
     * findRandomAndIncrementAccess: `pick` is the value Random.nextInt drew
     * for the number of keys. An empty store answers empty; otherwise the
     * picked key (returned as `chosen`) is looked up, which always hits.
     */
    method FindRandomAndIncrementAccess(pick: nat) returns (found: Option<MonkeySpecies>, ghost chosen: string)
      requires Valid()
      requires speciesDatabase != map[] ==> pick < |speciesDatabase|
      modifies this
      ensures Valid()
      ensures old(speciesDatabase) == map[] ==> found == None && speciesDatabase == old(speciesDatabase)
      ensures old(speciesDatabase) != map[] ==>
        && chosen in old(speciesDatabase)
        && found == Some(WithIncrementedAccess(old(speciesDatabase)[chosen]))
        && speciesDatabase == old(speciesDatabase)[chosen := found.value]
    {
      var speciesNames := KeySnapshot();
      if |speciesNames| == 0 {
        return None, "";
      }
      var randomSpeciesName := speciesNames[pick];
      chosen := randomSpeciesName;
      LookupStoredKey(speciesDatabase, chosen);
      found := FindByNameAndIncrementAccess(Some(randomSpeciesName));
    }

    /** existsByName: false for a null or blank name, otherwise whether the lower-cased name, untrimmed, is a key. */
    method ExistsByName(speciesName: Option<string>) returns (exists_: bool)
      ensures exists_ == HasKeyFor(speciesDatabase, speciesName)
    {
      if speciesName.None? || IsBlank(speciesName.value) {
        return false;
      }
      exists_ := Lower(speciesName.value) in speciesDatabase;
    }

    /** getSpeciesCount: the number of stored records, which is also the length of every findAll listing. */
    method GetSpeciesCount() returns (count: nat)
      ensures count == |speciesDatabase|
      ensures forall all | IsListing(all, speciesDatabase) :: |all| == count
    {
      count := |speciesDatabase|;
    }
  }
}
