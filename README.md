# Monkey species MCP server and client tools, modelled in Dafny

The system is two Quarkus applications.

The **server** keeps an in-memory table of monkey species. The table is a
`ConcurrentHashMap` from the lower-cased species name to an immutable
`MonkeySpecies` record. It is seeded with eleven records: six real species
and five fictional ones. Each lookup by name, and each random pick, replaces
the record by a copy whose access counter is one higher. A service layer
trims input names, matches them ignoring case, and lists the names sorted.
Four MCP tools turn its results into reply text:

- `list_monkey_species`
- `get_monkey_species_details`
- `get_random_monkey_species`
- `get_monkey_species_stats`

The **client** has a `ToolsService`. It reads the `servers` object of
`mcp.json` and registers one SSE client per accepted entry. It builds a tool
provider over those clients, and gathers the tools of every server that
answers.

The Dafny modules follow the source:

| module | file | models |
|---|---|---|
| `Model` | model.dfy | the `MonkeySpecies` record, `withIncrementedAccess` with Java `int` wrap-around, `toFormattedString` |
| `Repository` | repository.dfy | `MonkeySpeciesRepository` as a class whose `speciesDatabase` map field its methods update; the table functions that specify them; the seed data |
| `Service` | service.dfy | `MonkeySpeciesService` as a class over the repository; the stream pipelines as functions |
| `McpServer` | mcp_server.dfy | `MonkeySpeciesMcpServer`'s four tools as methods; the reply texts and the statistics reductions as functions |
| `Tools` | tools_service.dfy | the client's `ToolsService` as a class with its `mcpClients` and `toolProvider` fields |
| `Text`, `Sorting`, `Lists`, `Wrappers` | text.dfy, sorting.dfy, lists.dfy, wrappers.dfy | the `String` and stream operations the code relies on: `trim`, `toLowerCase`, `equalsIgnoreCase`, `compareTo`, `sorted`, `distinct`, `Collectors.joining`, `Integer.toString`, `Optional` |

Modelling choices:

- A Java `null` is `None` of `Option`. `Optional.empty()` is `None` too.
- `Integer` and `int` are the subset type `Int32`. `accessed + 1` wraps from
  2^31 - 1 to -2^31, as Java's does.
- `ConcurrentHashMap` iteration order is unspecified. So `FindAll` and
  `KeySnapshot` enumerate the map in an order Dafny chooses (`:|`). Their
  contracts hold for every order (`IsListing`).
  Each tool that reads a listing returns that listing as a ghost
  out-parameter (`listed`), so its reply can be stated exactly.
- `Random.nextInt(n)` is the parameter `pick` with `pick < n`.
- `%f` and the grouped `%,d` depend on the default locale. They are the two
  functions of a `Locale` parameter.
- What a client's `listTools` answers at a call is the parameter `answers`.
  Each answer is `Listed(tools)` or `ListFailed`.
- The parsed `mcp.json` is the parameter `config`, a `Config` value.

`findByNameAndIncrementAccess` does `get` and then `put` without isolation
(monkey-mcp-server/src/main/java/org/acme/repository/MonkeySpeciesRepository.java:45-48),
so concurrent lookups of one name can lose an increment. The model is
sequential and claims nothing about that.

## Model

| member | source | states |
|---|---|---|
| Model.ToFormattedString | monkey-mcp-server/src/main/java/org/acme/model/MonkeySpecies.java:42-52 | the text block of six lines, each ended by a newline: "Species Name: " with the name and " *FAKE*" for a fictional species, then "Location: ", "Details: ", "Population: " (the word null for a null population), "Lat/Lon: " with the two `%f` renderings and ", " between them, and "Accessed: " with the count and " times"; what a reader can rely on is proved by the three lemmas below |
| Model.WithIncrementedAccess | monkey-mcp-server/src/main/java/org/acme/model/MonkeySpecies.java:24-35 | the copy equals the record in every field but `accessed`, which is one higher, or wraps to -2^31 from 2^31 - 1 |
| Model.FakeMarkerIffFictional | monkey-mcp-server/src/main/java/org/acme/model/MonkeySpecies.java:42-45 | the detail text starts with "Species Name: <name> *FAKE*" and a newline exactly when the species is fictional |
| Model.FormattedNamesSpecies | monkey-mcp-server/src/main/java/org/acme/model/MonkeySpecies.java:42-52 | the detail text holds "Species Name: " followed by the species name |
| Model.FormattedNamesLocation | monkey-mcp-server/src/main/java/org/acme/model/MonkeySpecies.java:42-52 | the detail text holds the line "Location: <location>", with a newline on each side |
| Repository.Key | monkey-mcp-server/src/main/java/org/acme/repository/MonkeySpeciesRepository.java:210 | the key a record is stored under: its name, lower-cased |
| Repository.HasKeyFor | monkey-mcp-server/src/main/java/org/acme/repository/MonkeySpeciesRepository.java:74-79 | `existsByName`: the name is not null, not blank, and its lower-cased, untrimmed form is a key |
| Repository.Seeds | monkey-mcp-server/src/main/java/org/acme/repository/MonkeySpeciesRepository.java:94-207 | the eleven seed records in list order: six real species, then five fictional ones, with the names, locations, details, populations and coordinates of the source and `accessed` 0; what is proved about them is in SeedInitialsDistinct, SeedsUnaccessed, SeedNames and SeedTableFacts |
| Repository.PutAll | monkey-mcp-server/src/main/java/org/acme/repository/MonkeySpeciesRepository.java:209-211 | the map after putting each record under its key, in list order, so a later record replaces an earlier one with the same key; PutAllDistinct and DistinctTableFacts state what the seeding gives |
| Repository.ListingFromKeys | monkey-mcp-server/src/main/java/org/acme/repository/MonkeySpeciesRepository.java:30-32 | a list built from each key once, covering every key, lists every stored record exactly once |
| Repository.ListingsArePermutations | monkey-mcp-server/src/main/java/org/acme/repository/MonkeySpeciesRepository.java:30-32 | two `findAll` listings of the same table differ only in order: they are equal as multisets |
| Repository.Lookup | monkey-mcp-server/src/main/java/org/acme/repository/MonkeySpeciesRepository.java:40-51 | the key set never changes; a record is found exactly when the name is not null or blank and its lower-case form is a key; a miss leaves the table as it was |
| Repository.LookupEffect | monkey-mcp-server/src/main/java/org/acme/repository/MonkeySpeciesRepository.java:45-50 | a hit returns the stored record with only `accessed` changed, one higher below 2^31 - 1, and stores the returned record under the lower-cased name |
| Repository.LookupIgnoresCase | monkey-mcp-server/src/main/java/org/acme/repository/MonkeySpeciesRepository.java:45 | names equal up to ASCII case give the same lookup result, the same new table and the same `existsByName` answer |
| Repository.LookupStoredKey | monkey-mcp-server/src/main/java/org/acme/repository/MonkeySpeciesRepository.java:45-50 | in a well-keyed table, looking up a stored key hits it: it returns the incremented copy and stores it under that key |
| Repository.LookupHit | monkey-mcp-server/src/main/java/org/acme/repository/MonkeySpeciesRepository.java:45-50 | a hit's result and new table are the incremented copy, and the table with only that key updated |
| Repository.RepeatedLookupsTable | monkey-mcp-server/src/main/java/org/acme/repository/MonkeySpeciesRepository.java:45-50 | after `m` lookups of a stored name, only its record has changed, and its count is `m` higher, short of wrap-around |
| Repository.RepeatedLookupsCount | monkey-mcp-server/src/main/java/org/acme/repository/MonkeySpeciesRepository.java:45-50 | the n-th sequential lookup of a stored name returns the record with `n` more accesses, short of wrap-around |
| Repository.PutAllDistinct | monkey-mcp-server/src/main/java/org/acme/repository/MonkeySpeciesRepository.java:209-211 | putting records with pairwise different keys into an empty map stores exactly those records, each under its own key |
| Repository.SeedInitialsDistinct | monkey-mcp-server/src/main/java/org/acme/repository/MonkeySpeciesRepository.java:94-207 | the lower-cased first letters of the eleven seed names are pairwise different and not blank |
| Repository.SeedsUnaccessed | monkey-mcp-server/src/main/java/org/acme/repository/MonkeySpeciesRepository.java:94-207 | every seed record starts with `accessed == 0` |
| Repository.SeedNames | monkey-mcp-server/src/main/java/org/acme/repository/MonkeySpeciesRepository.java:94-207 | there are eleven seed records, and each name starts with its own letter of "pghjmscvqlt", up to case |
| Repository.DistinctInitialsDistinctKeys | monkey-mcp-server/src/main/java/org/acme/repository/MonkeySpeciesRepository.java:210 | records whose names start with pairwise different letters, up to case, get pairwise different keys |
| Repository.DistinctTableFacts | monkey-mcp-server/src/main/java/org/acme/repository/MonkeySpeciesRepository.java:209-211 | unaccessed records with different keys and non-blank names make a well-keyed table that holds them all and nothing else |
| Repository.SeedTableFacts | monkey-mcp-server/src/main/java/org/acme/repository/MonkeySpeciesRepository.java:93-211 | the seeded table holds exactly the eleven records, each under its lower-cased name, none accessed yet, and it is well keyed |
| Repository.MonkeySpeciesRepository.constructor | monkey-mcp-server/src/main/java/org/acme/repository/MonkeySpeciesRepository.java:21-23 | a new repository holds the seeded table and keeps the store invariant |
| Repository.MonkeySpeciesRepository.InitializeData | monkey-mcp-server/src/main/java/org/acme/repository/MonkeySpeciesRepository.java:93-212 | the map becomes the old map with each seed record put under its lower-cased name, in list order |
| Repository.MonkeySpeciesRepository.PutEach | monkey-mcp-server/src/main/java/org/acme/repository/MonkeySpeciesRepository.java:209-211 | the loop puts each record under its lower-cased name, in order; a later record wins a shared key |
| Repository.MonkeySpeciesRepository.FindAll | monkey-mcp-server/src/main/java/org/acme/repository/MonkeySpeciesRepository.java:30-32 | the result lists every stored record exactly once, in some order; nothing changes |
| Repository.MonkeySpeciesRepository.FindByNameAndIncrementAccess | monkey-mcp-server/src/main/java/org/acme/repository/MonkeySpeciesRepository.java:40-51 | the result and the new map are those of `Lookup` on the old map, and the store invariant is kept |
| Repository.MonkeySpeciesRepository.KeySnapshot | monkey-mcp-server/src/main/java/org/acme/repository/MonkeySpeciesRepository.java:59 | the key list holds every key exactly once |
| Repository.MonkeySpeciesRepository.FindRandomAndIncrementAccess | monkey-mcp-server/src/main/java/org/acme/repository/MonkeySpeciesRepository.java:58-66 | an empty store gives empty and is unchanged; otherwise some stored key is chosen, and its incremented copy is returned and stored, with no other change |
| Repository.MonkeySpeciesRepository.ExistsByName | monkey-mcp-server/src/main/java/org/acme/repository/MonkeySpeciesRepository.java:74-79 | false for a null or blank name; otherwise whether the lower-cased, untrimmed name is a key |
| Repository.MonkeySpeciesRepository.GetSpeciesCount | monkey-mcp-server/src/main/java/org/acme/repository/MonkeySpeciesRepository.java:86-88 | the number of stored records, which is also the length of every `findAll` listing |
| Service.AnyNameMatches | monkey-mcp-server/src/main/java/org/acme/service/MonkeySpeciesService.java:72-73 | `anyMatch`: some record of the listing has a name equal to the given name up to case; AnyNameMatchesIffFirst relates it to `findFirst` |
| Service.SpeciesNames | monkey-mcp-server/src/main/java/org/acme/service/MonkeySpeciesService.java:91-92 | `map(MonkeySpecies::speciesName)`: the names of the listing, one per record, in listing order; ListingNames states which names they are |
| Service.NameKnown | monkey-mcp-server/src/main/java/org/acme/service/MonkeySpeciesService.java:67-74 | what `speciesExists` answers, over the table: the name is not null, not blank, and some stored name equals the trimmed name up to case; NameKnownIffDetailsFind ties it to `getSpeciesDetails` |
| Service.FirstNameMatch | monkey-mcp-server/src/main/java/org/acme/service/MonkeySpeciesService.java:45-47 | `filter(...).findFirst()`: a found record is in the listing, its name equals the given name up to case, and no earlier record's name does, so it is the first match in listing order; nothing is found exactly when no name matches |
| Service.AnyNameMatchesIffFirst | monkey-mcp-server/src/main/java/org/acme/service/MonkeySpeciesService.java:72-73 | `anyMatch` holds exactly when `filter(...).findFirst()` finds a record |
| Service.ListingNameMatch | monkey-mcp-server/src/main/java/org/acme/service/MonkeySpeciesService.java:45-47 | in a listing of a well-keyed table, some name matches up to case exactly when the lower-cased name is a key, and every match is the record stored there |
| Service.ListingNames | monkey-mcp-server/src/main/java/org/acme/service/MonkeySpeciesService.java:91-92 | the names of a listing are pairwise different, and they are exactly the stored names |
| Service.Details | monkey-mcp-server/src/main/java/org/acme/service/MonkeySpeciesService.java:36-49 | the key set is kept; a record is found exactly when the name is not null or blank and its trimmed, lower-cased form is a key; a miss changes nothing |
| Service.DetailsIgnoresPadding | monkey-mcp-server/src/main/java/org/acme/service/MonkeySpeciesService.java:42 | padding around a name makes no difference to `getSpeciesDetails` |
| Service.DetailsCountsAccess | monkey-mcp-server/src/main/java/org/acme/service/MonkeySpeciesService.java:48 | a hit has counted an access: the returned record has `accessed > 0`, short of wrap-around, and the store holds it |
| Service.NameKnownIffDetailsFind | monkey-mcp-server/src/main/java/org/acme/service/MonkeySpeciesService.java:36-74 | `speciesExists` answers yes exactly when `getSpeciesDetails` would find a record |
| Service.NameListUnique | monkey-mcp-server/src/main/java/org/acme/service/MonkeySpeciesService.java:90-95 | a table has only one sorted name list, whatever order `findAll` produced |
| Service.MonkeySpeciesService.constructor | monkey-mcp-server/src/main/java/org/acme/service/MonkeySpeciesService.java:17-18 | the service holds the injected repository |
| Service.MonkeySpeciesService.GetAllSpecies | monkey-mcp-server/src/main/java/org/acme/service/MonkeySpeciesService.java:25-27 | the result lists every stored record exactly once; nothing changes |
| Service.MonkeySpeciesService.GetSpeciesDetails | monkey-mcp-server/src/main/java/org/acme/service/MonkeySpeciesService.java:36-49 | a null or blank name gives empty and changes nothing; otherwise the result and the new map are those of `Details` on the old map |
| Service.MonkeySpeciesService.GetRandomSpecies | monkey-mcp-server/src/main/java/org/acme/service/MonkeySpeciesService.java:57-59 | the repository's random pick: empty on an empty store; otherwise a stored key's incremented copy is returned and stored |
| Service.MonkeySpeciesService.SpeciesExists | monkey-mcp-server/src/main/java/org/acme/service/MonkeySpeciesService.java:67-74 | false for a null or blank name; otherwise whether some stored name equals the trimmed name up to case, which is whether the trimmed, lower-cased name is a key |
| Service.MonkeySpeciesService.GetSpeciesCount | monkey-mcp-server/src/main/java/org/acme/service/MonkeySpeciesService.java:81-83 | the number of stored records |
| Service.MonkeySpeciesService.GetAllSpeciesNames | monkey-mcp-server/src/main/java/org/acme/service/MonkeySpeciesService.java:90-95 | the names of a listing, sorted and a permutation of it: every stored name exactly once, in `compareTo` order |
| McpServer.BulletLine | monkey-mcp-server/src/main/java/org/acme/mcp/MonkeySpeciesMcpServer.java:31-35 | one listing line: "• ", the name, " *FAKE*" for a fictional species, the location in parentheses, " - Population: " with the population (the word null when it is null) and a newline; BulletLineIsOneLine proves it is one line |
| McpServer.BulletLines | monkey-mcp-server/src/main/java/org/acme/mcp/MonkeySpeciesMcpServer.java:30-36 | the bullet lines of the listing appended in listing order; BulletLinesOnePerSpecies and BulletLinesContainEach state its shape |
| McpServer.BulletLinesContainEach | monkey-mcp-server/src/main/java/org/acme/mcp/MonkeySpeciesMcpServer.java:30-36 | every listed species' bullet line appears in the listing text |
| McpServer.BulletLineIsOneLine | monkey-mcp-server/src/main/java/org/acme/mcp/MonkeySpeciesMcpServer.java:31-35 | a species with a single-line name and location takes exactly one line |
| McpServer.BulletLinesOnePerSpecies | monkey-mcp-server/src/main/java/org/acme/mcp/MonkeySpeciesMcpServer.java:30-36 | the bullet text has exactly as many lines as there are species |
| McpServer.Suggestions | monkey-mcp-server/src/main/java/org/acme/mcp/MonkeySpeciesMcpServer.java:58-59 | `limit(5)`: a prefix of the list whose length is exactly the smaller of five and the list's length, so the whole list when it has five or fewer names |
| McpServer.NotFoundReply | monkey-mcp-server/src/main/java/org/acme/mcp/MonkeySpeciesMcpServer.java:57-63 | the reply "Monkey species '<name>' not found. Available species include: " followed by the first five sorted names joined with ", "; NotFoundReplyNames states what it holds |
| McpServer.NotFoundReplyNames | monkey-mcp-server/src/main/java/org/acme/mcp/MonkeySpeciesMcpServer.java:57-63 | the not-found reply holds the name as given, in quotes, and each of the first five names of the list |
| McpServer.TotalPopulation | monkey-mcp-server/src/main/java/org/acme/mcp/MonkeySpeciesMcpServer.java:96-98 | the sum over the listing of each population, a null one counting 0; the sum over two lists put together is the sum of the two sums |
| McpServer.UniqueLocations | monkey-mcp-server/src/main/java/org/acme/mcp/MonkeySpeciesMcpServer.java:105-108 | the length of the de-duplicated list of locations; UniqueLocationsCount proves it is the number of different locations |
| McpServer.TotalPopulationPermutation | monkey-mcp-server/src/main/java/org/acme/mcp/MonkeySpeciesMcpServer.java:96-98 | the population sum does not depend on the order of the listing |
| McpServer.NullPopulationCountsZero | monkey-mcp-server/src/main/java/org/acme/mcp/MonkeySpeciesMcpServer.java:97 | a null population adds what a population of 0 adds |
| McpServer.UniqueLocationsCount | monkey-mcp-server/src/main/java/org/acme/mcp/MonkeySpeciesMcpServer.java:105-108 | "Unique Locations" is the number of different location strings |
| McpServer.StatsReport | monkey-mcp-server/src/main/java/org/acme/mcp/MonkeySpeciesMcpServer.java:110-120 | the statistics text: a title line and a blank line, then the "Total Species", "Total Population" (grouped) and "Unique Locations" lines, and a "Most Accessed" line with the name and count exactly when there is a most accessed species |
| McpServer.MostAccessed | monkey-mcp-server/src/main/java/org/acme/mcp/MonkeySpeciesMcpServer.java:101-102 | a species is named exactly when the listing is not empty; it is in the listing and no species has more accesses |
| McpServer.MostAccessedIsFirst | monkey-mcp-server/src/main/java/org/acme/mcp/MonkeySpeciesMcpServer.java:101-102 | on a tie the earliest species is named: it occurs no later than any species with the same count |
| McpServer.StatsIgnoreListingOrder | monkey-mcp-server/src/main/java/org/acme/mcp/MonkeySpeciesMcpServer.java:96-108 | two listings of the same store give the same population sum, location count and highest access count |
| McpServer.UniqueLocationsSameMembers | monkey-mcp-server/src/main/java/org/acme/mcp/MonkeySpeciesMcpServer.java:105-108 | listings with the same members have the same number of distinct locations |
| McpServer.MostAccessedSameMembers | monkey-mcp-server/src/main/java/org/acme/mcp/MonkeySpeciesMcpServer.java:101-102 | listings with the same members have the same highest access count |
| McpServer.MonkeySpeciesMcpServer.constructor | monkey-mcp-server/src/main/java/org/acme/mcp/MonkeySpeciesMcpServer.java:15-16 | the server holds the injected service |
| McpServer.MonkeySpeciesMcpServer.ListMonkeySpecies | monkey-mcp-server/src/main/java/org/acme/mcp/MonkeySpeciesMcpServer.java:18-38 | an empty store gets the fixed reply; otherwise the reply is the count header followed by one bullet line per species of a full listing, in listing order |
| McpServer.MonkeySpeciesMcpServer.GetMonkeySpeciesDetails | monkey-mcp-server/src/main/java/org/acme/mcp/MonkeySpeciesMcpServer.java:44-64 | a null or blank name gets the error reply and changes nothing; otherwise the store changes as in `Details`; a hit gets the record's detail text; a miss gets the not-found reply over the sorted name list |
| McpServer.MonkeySpeciesMcpServer.GetRandomMonkeySpecies | monkey-mcp-server/src/main/java/org/acme/mcp/MonkeySpeciesMcpServer.java:70-79 | an empty store gets the fixed reply and is unchanged; otherwise a stored key is chosen, its record is counted, and the reply is the header followed by the counted record's detail text |
| McpServer.MonkeySpeciesMcpServer.GetMonkeySpeciesStats | monkey-mcp-server/src/main/java/org/acme/mcp/MonkeySpeciesMcpServer.java:85-122 | an empty store gets the fixed reply; otherwise the reply is the statistics text over the store's size and a full listing |
| Tools.EntriesOf | monkey-mcp-client/src/main/java/org/acme/client/ToolsService.java:70-77 | the entries of the `servers` object in document order, and none when the document has no `servers` object |
| Tools.Accepted | monkey-mcp-client/src/main/java/org/acme/client/ToolsService.java:124-130 | an entry is registered exactly when it has a `url` and its `type` is exactly "sse" |
| Tools.Registered | monkey-mcp-client/src/main/java/org/acme/client/ToolsService.java:77-83 | the clients of the accepted entries, in document order, each keyed by its entry name with its URL; RegisteredAppend, RegisteredMembers and SkippedEntryRegistersNothing state its properties |
| Tools.RegisteredAppend | monkey-mcp-client/src/main/java/org/acme/client/ToolsService.java:77-83 | the clients of a document are those of its first entries, followed by those of the rest |
| Tools.RegisteredMembers | monkey-mcp-client/src/main/java/org/acme/client/ToolsService.java:122-152 | every client comes from an accepted entry and is keyed by its name, with its URL; every accepted entry gives a client; there are no more clients than entries |
| Tools.SkippedEntryRegistersNothing | monkey-mcp-client/src/main/java/org/acme/client/ToolsService.java:122-152 | an entry without `url` or `type`, or whose type is not "sse", contributes nothing, and the entries after it are still registered |
| Tools.Catalog | monkey-mcp-client/src/main/java/org/acme/client/ToolsService.java:176-189 | the tool lists of the clients that answered, concatenated in client order; a failed answer adds nothing; CatalogSize, FailureContributesNothing and CatalogMembers state its properties |
| Tools.CatalogSize | monkey-mcp-client/src/main/java/org/acme/client/ToolsService.java:176-189 | there is no de-duplication: the result holds as many tools as the successful clients listed together |
| Tools.FailureContributesNothing | monkey-mcp-client/src/main/java/org/acme/client/ToolsService.java:179-185 | a failing client adds nothing, and the clients after it are still asked |
| Tools.CatalogMembers | monkey-mcp-client/src/main/java/org/acme/client/ToolsService.java:176-189 | every tool a successful client lists is in the result, and every tool in the result was listed by a successful client |
| Tools.ToolsService.constructor | monkey-mcp-client/src/main/java/org/acme/client/ToolsService.java:37-39 | a new service has no clients and no tool provider |
| Tools.ToolsService.Init | monkey-mcp-client/src/main/java/org/acme/client/ToolsService.java:44-54 | the clients of the accepted entries are appended in document order; a provider over all clients is built unless there are none |
| Tools.ToolsService.RegisterMcpServers | monkey-mcp-client/src/main/java/org/acme/client/ToolsService.java:60-90 | no stream, an unparsable document or a missing `servers` object registers nothing; otherwise the clients of the accepted entries are appended in order; the provider is untouched |
| Tools.ToolsService.RegisterServer | monkey-mcp-client/src/main/java/org/acme/client/ToolsService.java:122-152 | one client, keyed by the entry name, is appended exactly when the entry has a `url` and its `type` is exactly "sse"; otherwise nothing changes |
| Tools.ToolsService.InitializeToolProvider | monkey-mcp-client/src/main/java/org/acme/client/ToolsService.java:157-168 | with no clients the provider stays as it was (null after construction); otherwise it is built over all clients; the client list is unchanged |
| Tools.ToolsService.GetAvailableTools | monkey-mcp-client/src/main/java/org/acme/client/ToolsService.java:175-190 | the result is the in-order concatenation of the tool lists of the clients that answer; the client list is not changed |
| Tools.ToolsService.GetRegisteredClientsCount | monkey-mcp-client/src/main/java/org/acme/client/ToolsService.java:197-199 | the number of registered clients |
| Tools.ToolsService.GetToolProvider | monkey-mcp-client/src/main/java/org/acme/client/ToolsService.java:206-208 | the provider field, None when no provider was built |
| Tools.StartService | monkey-mcp-client/src/main/java/org/acme/client/ToolsService.java:37-168 | a freshly constructed service after `init` has the accepted entries' clients in document order, and it has a provider exactly when it has a client |
| Text.Trim | monkey-mcp-server/src/main/java/org/acme/service/MonkeySpeciesService.java:42 | `trim()`: the result is an infix of the input, everything before and after it is at most U+0020, and it neither starts nor ends with a character up to U+0020 |
| Text.TrimEmptyIff | monkey-mcp-server/src/main/java/org/acme/repository/MonkeySpeciesRepository.java:41 | `trim().isEmpty()` holds exactly when every character is at most U+0020 |
| Text.TrimIdempotent | monkey-mcp-server/src/main/java/org/acme/service/MonkeySpeciesService.java:42 | trimming twice is trimming once |
| Text.Lower | monkey-mcp-server/src/main/java/org/acme/repository/MonkeySpeciesRepository.java:45 | `toLowerCase` on ASCII letters: each character is mapped on its own and the length is kept; LowerIdempotent and LowerKeepsBlank state its properties |
| Text.EqualsIgnoreCase | monkey-mcp-server/src/main/java/org/acme/service/MonkeySpeciesService.java:46 | `equalsIgnoreCase`: the two strings have the same lower-case form |
| Text.LowerIdempotent | monkey-mcp-server/src/main/java/org/acme/repository/MonkeySpeciesRepository.java:45-48 | lower-casing a lower-cased name changes nothing, so a stored key looks itself up |
| Text.LowerKeepsBlank | monkey-mcp-server/src/main/java/org/acme/repository/MonkeySpeciesRepository.java:41-45 | lower-casing neither creates nor removes blankness |
| Text.EqualsIgnoreCaseKeepsBlank | monkey-mcp-server/src/main/java/org/acme/service/MonkeySpeciesService.java:46 | two names equal up to case are both blank or both not blank |
| Text.NotAfter | monkey-mcp-server/src/main/java/org/acme/service/MonkeySpeciesService.java:93 | the natural `String` order used by `sorted()`: a is not after b when a is a prefix of b or the first differing character of a is the smaller; NotAfterTotal, NotAfterAntisymmetric and NotAfterTransitive make it a total order |
| Text.NotAfterTotal | monkey-mcp-server/src/main/java/org/acme/service/MonkeySpeciesService.java:93 | `compareTo` orders any two strings one way or the other |
| Text.NotAfterAntisymmetric | monkey-mcp-server/src/main/java/org/acme/service/MonkeySpeciesService.java:93 | two strings each not after the other are equal |
| Text.NotAfterTransitive | monkey-mcp-server/src/main/java/org/acme/service/MonkeySpeciesService.java:93 | the `compareTo` order is transitive |
| Text.Decimal | monkey-mcp-server/src/main/java/org/acme/mcp/MonkeySpeciesMcpServer.java:112 | how `append(int)` renders a number: a '-' for a negative one, then the decimal digits of its magnitude; DecimalRoundTrip proves it reads back to the number |
| Text.NatDigits | monkey-mcp-server/src/main/java/org/acme/mcp/MonkeySpeciesMcpServer.java:28 | the rendering of a count is a non-empty string of decimal digits with no leading zero |
| Text.DecimalRoundTrip | monkey-mcp-server/src/main/java/org/acme/mcp/MonkeySpeciesMcpServer.java:112-119 | reading back the rendering of an integer gives the integer: a leading '-' exactly for negatives, then its digits |
| Text.Join | monkey-mcp-server/src/main/java/org/acme/mcp/MonkeySpeciesMcpServer.java:60 | `Collectors.joining(sep)`: the strings in order with the separator between neighbours, and the empty string for none |
| Text.JoinContainsEach | monkey-mcp-server/src/main/java/org/acme/mcp/MonkeySpeciesMcpServer.java:60 | `Collectors.joining` keeps every joined string readable in the result |
| Text.Unlines | monkey-mcp-server/src/main/java/org/acme/model/MonkeySpecies.java:44-51 | a text block: each line followed by a newline, in order |
| Text.UnlinesContainsLine | monkey-mcp-server/src/main/java/org/acme/model/MonkeySpecies.java:44-51 | every line of a text block appears in it with its newline, and each line after the first also with the newline before it |
| Sorting.Sort | monkey-mcp-server/src/main/java/org/acme/service/MonkeySpeciesService.java:93 | `sorted()`: the result is in ascending `compareTo` order and is a permutation of the input |
| Sorting.SortedPermutationUnique | monkey-mcp-server/src/main/java/org/acme/service/MonkeySpeciesService.java:93 | two sorted permutations of the same strings are equal, so the choice of sort is unobservable |
| Lists.Dedup | monkey-mcp-server/src/main/java/org/acme/mcp/MonkeySpeciesMcpServer.java:107 | `distinct()`: the result has no repeats and holds exactly the input's elements |
| Lists.DedupCount | monkey-mcp-server/src/main/java/org/acme/mcp/MonkeySpeciesMcpServer.java:107-108 | `distinct().count()` is the number of different elements |

## Left out

- Network transport and MCP library objects are not modelled. `HttpMcpTransport`, `DefaultMcpClient` and `McpToolProvider` become plain values that record what their builders were given. The builders are taken to succeed.
- File lookup and JSON parsing are not modelled: `getMcpConfigStream` and `readTree` are I/O and library code. The parsed document, or its absence or failure to parse, is the `config` input.
- A `url` or `type` member that is present but not a text node is not modelled. `asText()` gives some string for it; the model takes that string as given in `ServerEntry`.
- Concurrency is not modelled. The store is a sequential map, and nothing is claimed about lost updates from concurrent `get`-then-`put`.
- `Random.nextInt` is the `pick` parameter.
- Floating point and locale formatting are not modelled. Latitude and longitude are `real` values printed by a caller-supplied `%f`. The grouped `%,d` of the population sum is a caller-supplied function.
- The `catch (Exception e)` replies of the four tools are not modelled, because none of the modelled steps throws. These are "Error retrieving …" followed by the exception message.
- Logging is not modelled.
- The chat client, console loop, picocli commands, Ollama configuration and application entry points are not part of this model. They are console I/O and LLM wiring.
- McpServer.TotalPopulation: the Java sum is a `long`. Its overflow, past 2^63 - 1, is not modelled; eleven `Integer` populations cannot reach it.
- Text.Lower: `toLowerCase` and `equalsIgnoreCase` fold only ASCII letters here. Java folds every Unicode letter, under the default locale for `toLowerCase`.
- Text.NotAfter: `compareTo` compares UTF-16 code units, and here it compares `char` values. These agree for the seed names, which are ASCII.
- Model.MonkeySpecies: `accessed` and `isFictional` are never null here. In the source they are boxed, and a null would throw in `withIncrementedAccess` or `toFormattedString`.
- Repository.Seeds: the long detail strings are written as concatenations of short pieces. The pieces spell the same text.
- Service.DetailsCountsAccess: `accessed > 0` is stated only below 2^31 - 1. At that value the count wraps to -2^31.
- Tools.ToolsService.Init: the catch-all in `init` is never reached in the model, since nothing the modelled steps do throws past their own handlers.
