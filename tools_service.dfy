/**
 * ToolsService (org.acme.client): registers one MCP client per accepted
 * entry of the `servers` object of mcp.json, builds a tool provider over
 * them, and gathers the tools every reachable server offers.
 *
 * The document arrives already read and parsed (a `Config`); the clients
 * are values holding what their builders were given; what a client's
 * `listTools` answers at a call is passed in as a `ListOutcome`.
 */
module Tools {
  import opened Wrappers

  // ---------------------------------------------------------------------------
  // Configuration

  /**
   * One member of the `servers` object, in document order: its name, and the
   * `asText()` of its `url` and `type` members, None where `get` finds no
   * such member (then `asText()` throws and the entry is skipped).
   */
  datatype ServerEntry = ServerEntry(name: string, url: Option<string>, kind: Option<string>)

  /**
   * What reading mcp.json gives: no stream at all, a document `readTree`
   * rejects with an IOException, a document whose `servers` is missing or
   * not an object, or the entries of `servers`.
   */
  datatype Config = NoConfigStream | Unparsable | NoServersObject | Servers(entries: seq<ServerEntry>)

  /** The entries `forEachRemaining` visits: none unless there is a `servers` object. */
  function EntriesOf(config: Config): seq<ServerEntry> {
    if config.Servers? then config.entries else []
  }

  /** A client built for an SSE server: its key is the entry's name, its transport the entry's URL. */
  datatype McpClient = McpClient(key: string, sseUrl: string)

  /** `McpToolProvider.builder().mcpClients(...).build()` over a snapshot of the client list. */
  datatype ToolProvider = ToolProvider(clients: seq<McpClient>)

  /** An entry is registered when it has a `url` and its `type` is exactly "sse". */
  predicate Accepted(e: ServerEntry) {
    e.url.Some? && e.kind == Some("sse")
  }

  function ClientOf(e: ServerEntry): McpClient
    requires e.url.Some?
  {
    McpClient(e.name, e.url.value)
  }

  /** The clients registering `entries` in order appends: one per accepted entry. */
  function Registered(entries: seq<ServerEntry>): seq<McpClient> {
    if entries == [] then []
    else
      var last := entries[|entries| - 1];
      Registered(entries[..|entries| - 1]) + (if Accepted(last) then [ClientOf(last)] else [])
  }

  /** Registration goes entry by entry: the clients of a document are those of its first part, then those of the rest. */
  lemma {:induction false} RegisteredAppend(a: seq<ServerEntry>, b: seq<ServerEntry>)
    ensures Registered(a + b) == Registered(a) + Registered(b)
  {
    if b == [] {
      assert a + b == a;
    } else {
      var init := b[..|b| - 1];
      RegisteredAppend(a, init);
      assert (a + b)[..|a + b| - 1] == a + init;
      assert (a + b)[|a + b| - 1] == b[|b| - 1];
    }
  }

  /**
   * The registered clients are exactly the clients of the accepted entries:
   * every client comes from an accepted entry (keyed by its name, with its
   * URL), every accepted entry gives a client, and there are no more clients
   * than entries.
   */
  lemma {:induction false} RegisteredMembers(entries: seq<ServerEntry>)
    ensures |Registered(entries)| <= |entries|
    ensures forall c | c in Registered(entries) ::
      exists i | 0 <= i < |entries| :: Accepted(entries[i]) && ClientOf(entries[i]) == c
    ensures forall i | 0 <= i < |entries| && Accepted(entries[i]) :: ClientOf(entries[i]) in Registered(entries)
  {
    if entries != [] {
      var init := entries[..|entries| - 1];
      var last := entries[|entries| - 1];
      RegisteredMembers(init);
      forall c | c in Registered(entries)
        ensures exists i | 0 <= i < |entries| :: Accepted(entries[i]) && ClientOf(entries[i]) == c
      {
        if c in Registered(init) {
          var i :| 0 <= i < |init| && Accepted(init[i]) && ClientOf(init[i]) == c;
          assert entries[i] == init[i];
        } else {
          assert Accepted(last) && c == ClientOf(last);
        }
      }
      forall i | 0 <= i < |entries| && Accepted(entries[i]) ensures ClientOf(entries[i]) in Registered(entries) {
        if i < |init| {
          assert entries[i] == init[i];
        }
      }
    }
  }

  /** A skipped entry, whatever its place, leaves the client list as the other entries make it. */
  lemma SkippedEntryRegistersNothing(entries: seq<ServerEntry>, i: nat)
    requires i < |entries| && !Accepted(entries[i])
    ensures Registered(entries) == Registered(entries[..i] + entries[i + 1..])
  {
    var before, one, after := entries[..i], [entries[i]], entries[i + 1..];
    assert Registered(entries) == Registered(before + one) + Registered(after) by {
      assert entries == before + one + after;
      RegisteredAppend(before + one, after);
    }
    assert Registered(before + one) == Registered(before) by {
      RegisteredAppend(before, one);
      assert one[..0] == [];
    }
    RegisteredAppend(before, after);
  }


  // ---------------------------------------------------------------------------
  // Tools

  /** A tool specification as a server describes it. */
  datatype ToolSpecification = ToolSpecification(name: string, description: string)

  /** What one client's `listTools` does: return its tools, or throw. */
  datatype ListOutcome = Listed(tools: seq<ToolSpecification>) | ListFailed

  /** The tools of the answers in order, each answer's whole list, nothing for a failure. */
  function Catalog(answers: seq<ListOutcome>): seq<ToolSpecification> {
    if answers == [] then []
    else
      var last := answers[|answers| - 1];
      Catalog(answers[..|answers| - 1]) + (if last.Listed? then last.tools else [])
  }

  /** The number of tools the answers list, failures counting none. */
  function ToolCount(answers: seq<ListOutcome>): nat {
    if answers == [] then 0
    else (if answers[0].Listed? then |answers[0].tools| else 0) + ToolCount(answers[1..])
  }

  lemma {:induction false} CatalogAppend(a: seq<ListOutcome>, b: seq<ListOutcome>)
    ensures Catalog(a + b) == Catalog(a) + Catalog(b)
  {
    if b == [] {
      assert a + b == a;
    } else {
      var init := b[..|b| - 1];
      CatalogAppend(a, init);
      assert (a + b)[..|a + b| - 1] == a + init;
      assert (a + b)[|a + b| - 1] == b[|b| - 1];
    }
  }

  /** There is no de-duplication: the catalog holds as many tools as the answers list together. */
  lemma {:induction false} CatalogSize(answers: seq<ListOutcome>)
    ensures |Catalog(answers)| == ToolCount(answers)
  {
    if answers != [] {
      CatalogSize(answers[1..]);
      assert answers == [answers[0]] + answers[1..];
      CatalogAppend([answers[0]], answers[1..]);
      assert [answers[0]][..0] == [];
    }
  }

  /** A failing client contributes nothing and does not stop the clients after it. */
  lemma FailureContributesNothing(answers: seq<ListOutcome>, i: nat)
    requires i < |answers| && answers[i].ListFailed?
    ensures Catalog(answers) == Catalog(answers[..i]) + Catalog(answers[i + 1..])
  {
    var before, one, after := answers[..i], [answers[i]], answers[i + 1..];
    assert Catalog(answers) == Catalog(before + one) + Catalog(after) by {
      assert answers == before + one + after;
      CatalogAppend(before + one, after);
    }
    assert Catalog(before + one) == Catalog(before) by {
      CatalogAppend(before, one);
      assert one[..0] == [];
    }
  }

  /** Every tool a successful client lists is offered, and every offered tool was listed by a successful client. */
  lemma {:induction false} CatalogMembers(answers: seq<ListOutcome>)
    ensures forall i, j | 0 <= i < |answers| && answers[i].Listed? && 0 <= j < |answers[i].tools| ::
      answers[i].tools[j] in Catalog(answers)
    ensures forall t | t in Catalog(answers) ::
      exists i | 0 <= i < |answers| :: answers[i].Listed? && t in answers[i].tools
  {
    if answers != [] {
      var init := answers[..|answers| - 1];
      var last := answers[|answers| - 1];
      CatalogMembers(init);
      forall i, j | 0 <= i < |answers| && answers[i].Listed? && 0 <= j < |answers[i].tools|
        ensures answers[i].tools[j] in Catalog(answers)
      {
        if i < |init| {
          assert init[i] == answers[i];
        }
      }
      forall t | t in Catalog(answers) ensures exists i | 0 <= i < |answers| :: answers[i].Listed? && t in answers[i].tools {
        if t in Catalog(init) {
          var i :| 0 <= i < |init| && init[i].Listed? && t in init[i].tools;
          assert answers[i] == init[i];
        } else {
          assert answers[|answers| - 1] == last;
        }
      }
    }
  }

  // ---------------------------------------------------------------------------
  // The service

  class ToolsService {
    /** The registered clients, in registration order. */
    var mcpClients: seq<McpClient>
    /** Null (None) until a tool provider is built over a non-empty client list. */
    var toolProvider: Option<ToolProvider>

    /** The CDI bean as constructed: no clients and no provider; `init` is a separate step. */
    constructor ()
      ensures mcpClients == [] && toolProvider == None
    {
      mcpClients := [];
      toolProvider := None;
    }

    /**
     * init (`@PostConstruct`): register the configured servers, then build
     * the provider. Nothing escapes the steps, so the catch-all is never
     * taken. A second call registers the servers again.
     */
    method Init(config: Config)
      modifies this
      ensures mcpClients == old(mcpClients) + Registered(EntriesOf(config))
      ensures toolProvider == if mcpClients == [] then old(toolProvider) else Some(ToolProvider(mcpClients))
    {
      RegisterMcpServers(config);
      InitializeToolProvider();
    }

    /**
     * registerMCPServers: without a stream, with an unparsable document or
     * without a `servers` object nothing is registered; otherwise each entry
     * in document order goes through registerServer.
     */
    method RegisterMcpServers(config: Config)
      modifies this
      ensures mcpClients == old(mcpClients) + Registered(EntriesOf(config))
      ensures toolProvider == old(toolProvider)
    {
      match config {
        case NoConfigStream =>
        case Unparsable =>
        case NoServersObject =>
        case Servers(entries) =>
          for i := 0 to |entries|
            invariant mcpClients == old(mcpClients) + Registered(entries[..i])
            invariant toolProvider == old(toolProvider)
          {
            RegisterServer(entries[i]);
            assert entries[..i + 1][..i] == entries[..i];
          }
          assert entries[..|entries|] == entries;
      }
    }

    /**
     * registerServer: a missing `url` or `type` throws and is caught, a type
     * other than "sse" is skipped; otherwise one client, keyed by the entry's
     * name, is appended.
     */
    method RegisterServer(entry: ServerEntry)
      modifies this
      ensures mcpClients == old(mcpClients) + (if Accepted(entry) then [ClientOf(entry)] else [])
      ensures toolProvider == old(toolProvider)
    {
      if entry.url.None? || entry.kind.None? {
        return;
      }
      var url, kind := entry.url.value, entry.kind.value;
      if kind != "sse" {
        return;
      }
      var client := McpClient(entry.name, url);
      mcpClients := mcpClients + [client];
    }

    /** initializeToolProvider: with no clients the provider is left as it is; otherwise it is built over all of them. */
    method InitializeToolProvider()
      modifies this
      ensures mcpClients == old(mcpClients)
      ensures toolProvider == if mcpClients == [] then old(toolProvider) else Some(ToolProvider(mcpClients))
    {
      if mcpClients == [] {
        return;
      }
      toolProvider := Some(ToolProvider(mcpClients));
    }

    /**
     * getAvailableTools: asks every client in order (client i answers
     * `answers[i]`) and concatenates the lists of those that answer; a
     * failure is caught and the loop goes on. No client is removed.
     */
    method GetAvailableTools(answers: seq<ListOutcome>) returns (allTools: seq<ToolSpecification>)
      requires |answers| == |mcpClients|
      ensures allTools == Catalog(answers)
    {
      allTools := [];
      for i := 0 to |mcpClients|
        invariant allTools == Catalog(answers[..i])
      {
        assert answers[..i + 1][..i] == answers[..i];
        match answers[i] {
          case Listed(clientTools) =>
            allTools := allTools + clientTools;
          case ListFailed =>
        }
      }
      assert answers[..|answers|] == answers;
    }

    /** getRegisteredClientsCount */
    method GetRegisteredClientsCount() returns (count: nat)
      ensures count == |mcpClients|
    {
      count := |mcpClients|;
    }

    /** getToolProvider: the provider, None when none was built. */
    method GetToolProvider() returns (provider: Option<ToolProvider>)
      ensures provider == toolProvider
    {
      provider := toolProvider;
    }
  }

  /**
   * A freshly constructed service after init: its clients are the accepted
   * entries in document order, and it has a provider exactly when it has
   * at least one client.
   */
  method StartService(config: Config) returns (service: ToolsService)
    ensures fresh(service)
    ensures service.mcpClients == Registered(EntriesOf(config))
    ensures service.toolProvider.None? <==> service.mcpClients == []
    ensures service.toolProvider.Some? ==> service.toolProvider.value.clients == service.mcpClients
  {
    service := new ToolsService();
    service.Init(config);
  }
}
