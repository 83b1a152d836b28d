/**
 * The reconcile engine: from one request and the options, the record of
 * addresses, ports, protocol, host and `for` table that says who sent it.
 *
 * Each stage is specified by a function on the record's value; the
 * methods below update a local record step by step, as the engine does,
 * and are proved to compute those functions.
 */
module Engine {
  import opened Wrappers
  import opened Text
  import opened Lists
  import opened Http
  import opened Rfc7239
  import opened Schemas

  /** The socket the request arrived on; the port as the string the engine copies around. */
  datatype Connection = Connection(remoteAddress: string, remotePort: string, encrypted: bool)

  /** The request; `isIncomingMessage` is false for anything that is not an `http.IncomingMessage`. */
  datatype Request = Request(isIncomingMessage: bool, connection: Connection, headers: Headers)

  /** The address filter handed to the filtering library: one glob or a list of globs. */
  datatype FilterSpec = Pattern(glob: string) | Patterns(globs: seq<string>)

  /** The caller's options; `None` for an option not given. */
  datatype Options = Options(filter: Option<FilterSpec>, allowPrivate: Option<bool>)

  /** The options after defaulting; `allowPrivate` is whether the option is exactly `true`. */
  datatype Settings = Settings(filter: FilterSpec, allowPrivate: bool)

  /** What the filtering library makes of an address: a match, `null`, or an exception. */
  datatype Verdict = Match | NoMatch | Throws

  /** The address and port the node-address library finds in a `for` node, each possibly missing. */
  datatype NodeParts = NodeParts(ip: Option<string>, port: Option<string>)

  /**
   * The libraries the engine calls and whose code is not part of this model:
   * splitting a node into address and port, reading the `cf-visitor` scheme,
   * glob filtering (the flag is the lenient mode), and address classification.
   */
  datatype Libraries = Libraries(
    nodeParts: string -> NodeParts,
    visitorScheme: string -> Option<string>,
    ipFilter: (string, FilterSpec, bool) -> Verdict,
    isPublic: string -> bool,
    isPrivate: string -> bool)

  /** Why no record is produced: a bad request (a `TypeError`), or the filter raising on a `for` key. */
  datatype Failure = NotIncomingMessage | FilterThrew

  /**
   * The record being built. `forMap` is the `for` table from address to port,
   * `byNode` the `by` field; `host` and `byNode` are `None` while unset.
   * `proto`, `host` and `byNode` taken from a `Forwarded` header keep its
   * scalar-or-list shape.
   */
  datatype Forwarded = Forwarded(
    ips: seq<string>,
    ports: seq<string>,
    port: string,
    proto: Value,
    host: Option<Value>,
    byNode: Option<Value>,
    forMap: map<string, string>)

  /**
   * The defaults: every address passes the filter and private addresses are
   * allowed. A given option replaces its default.
   */
  function WithDefaults(options: Options): (s: Settings)
    ensures s.filter == if options.filter.Some? then options.filter.value else Pattern("*")
    ensures s.allowPrivate <==> options.allowPrivate != Some(false)
    ensures options == Options(None, None) ==> s == Settings(Pattern("*"), true)
  {
    Settings(options.filter.GetOr(Pattern("*")), options.allowPrivate.GetOr(true))
  }

  // The stages, as functions of the record.

  /**
   * The record before any header is read: the peer alone, its address the only
   * `for` key, mapped to its port; the protocol from the socket, the host from
   * a present `host` header, and no `by`.
   */
  function Seed(req: Request): (f: Forwarded)
    ensures f.ips == [req.connection.remoteAddress] && f.port == req.connection.remotePort && f.ports == [f.port]
    ensures forall ip :: ip in f.forMap <==> ip in f.ips
    ensures forall ip :: ip in f.forMap ==> f.forMap[ip] == f.port
    ensures f.proto == (if req.connection.encrypted then Scalar("https") else Scalar("http"))
    ensures f.host.Some? <==> Present(req.headers, "host")
    ensures f.host.Some? ==> f.host == Some(Scalar(req.headers["host"]))
    ensures f.byNode.None?
  {
    var c := req.connection;
    Forwarded(
      [c.remoteAddress], [c.remotePort], c.remotePort,
      Scalar(if c.encrypted then "https" else "http"),
      if Present(req.headers, "host") then Some(Scalar(req.headers["host"])) else None,
      None,
      map[c.remoteAddress := c.remotePort])
  }

  /** A present host header of the entry overwrites `host`. */
  function HostStep(f: Forwarded, schema: Schema, h: Headers): Forwarded
  {
    match HeaderOpinion(schema.host, h)
    case Some(host) => f.(host := Some(Scalar(host)))
    case None => f
  }

  /** A truthy protocol opinion of the entry overwrites `proto`. */
  function ProtoStep(f: Forwarded, schema: Schema, h: Headers, visitorScheme: string -> Option<string>): Forwarded
  {
    match ProtoOpinion(schema, h, visitorScheme)
    case Some(proto) => f.(proto := Scalar(proto))
    case None => f
  }

  /** A present port header of the entry is appended to `ports` and becomes `port`. */
  function PortStep(f: Forwarded, schema: Schema, h: Headers): Forwarded
  {
    match HeaderOpinion(schema.port, h)
    case Some(port) => f.(ports := f.ports + [port], port := port)
    case None => f
  }

  /** The addresses are appended to `ips`, and each maps in the `for` table to the current `port`. */
  function AddAddresses(f: Forwarded, addresses: seq<string>): Forwarded
  {
    f.(ips := f.ips + addresses, forMap := f.forMap + map a | a in addresses :: f.port)
  }

  /** A present address header of the entry is cut at commas (spaces around them dropped) and added. */
  function AddressStep(f: Forwarded, schema: Schema, h: Headers): Forwarded
  {
    match HeaderOpinion(schema.ip, h)
    case Some(list) => AddAddresses(f, SplitSpaced(list, ','))
    case None => f
  }

  /** One entry of the table: host, then protocol, then port, then addresses. */
  function ApplySchema(f: Forwarded, schema: Schema, h: Headers, visitorScheme: string -> Option<string>): Forwarded
  {
    AddressStep(PortStep(ProtoStep(HostStep(f, schema, h), schema, h, visitorScheme), schema, h), schema, h)
  }

  /** The entries applied in order. */
  function ApplySchemas(f: Forwarded, schemas: seq<Schema>, h: Headers, visitorScheme: string -> Option<string>): Forwarded
    decreases |schemas|
  {
    if schemas == [] then f
    else ApplySchema(ApplySchemas(f, schemas[..|schemas| - 1], h, visitorScheme), schemas[|schemas| - 1], h, visitorScheme)
  }

  /** Every address of `ips` that has a `for` entry is given the final `port`. */
  function Backfill(f: Forwarded): Forwarded
  {
    f.(forMap := f.forMap + map ip | ip in f.ips && ip in f.forMap :: f.port)
  }

  /** The address of a `for` node: the one the library finds, or else the node itself. */
  function NodeAddress(node: string, parts: string -> NodeParts): string
  {
    parts(node).ip.GetOr(node)
  }

  /** The port of a `for` node: the one the library finds, or else `fallback`. */
  function NodePort(node: string, parts: string -> NodeParts, fallback: string): string
  {
    parts(node).port.GetOr(fallback)
  }

  /** One `for` node: its address and port are appended, and its address maps to its port. */
  function ApplyNode(f: Forwarded, node: string, parts: string -> NodeParts): Forwarded
  {
    var ip := NodeAddress(node, parts);
    var port := NodePort(node, parts, f.port);
    f.(ips := f.ips + [ip], ports := f.ports + [port], forMap := f.forMap[ip := port])
  }

  /** The `for` nodes applied in order. */
  function ApplyNodes(f: Forwarded, nodes: seq<string>, parts: string -> NodeParts): Forwarded
    decreases |nodes|
  {
    if nodes == [] then f
    else ApplyNode(ApplyNodes(f, nodes[..|nodes| - 1], parts), nodes[|nodes| - 1], parts)
  }

  /** The parsed `Forwarded` directives: the `for` nodes, then truthy `proto`, `host` and `by` overwrite. */
  function ApplyDirectives(f: Forwarded, d: Directives, parts: string -> NodeParts): Forwarded
  {
    var f1 := if "for" in d && Truthy(d["for"]) then ApplyNodes(f, Values(d["for"]), parts) else f;
    var f2 := if "proto" in d && Truthy(d["proto"]) then f1.(proto := d["proto"]) else f1;
    var f3 := if "host" in d && Truthy(d["host"]) then f2.(host := Some(d["host"])) else f2;
    if "by" in d && Truthy(d["by"]) then f3.(byNode := Some(d["by"])) else f3
  }

  /** The `Forwarded` header, when present, is parsed and applied. */
  function Overlay(f: Forwarded, h: Headers, parts: string -> NodeParts): Forwarded
  {
    if Present(h, "forwarded") then ApplyDirectives(f, Parse(h["forwarded"]), parts) else f
  }

  /** The record after every header is read and repeats are removed, before any filtering. */
  function Merged(req: Request, lib: Libraries): Forwarded
  {
    var h := req.headers;
    var f := Overlay(Backfill(ApplySchemas(Seed(req), Table, h, lib.visitorScheme)), h, lib.nodeParts);
    f.(ips := Dedup(f.ips), ports := Dedup(f.ports))
  }

  /** An address stays in `ips` when the strict filter matches it and it is allowed as private or public. */
  predicate KeepAddress(ip: string, opts: Settings, lib: Libraries)
  {
    lib.ipFilter(ip, opts.filter, false) == Match && (opts.allowPrivate || lib.isPublic(ip))
  }

  /** `KeepAddress` as the callback handed to the list filter. */
  function AddressFilter(opts: Settings, lib: Libraries): string -> bool
  {
    ip => KeepAddress(ip, opts, lib)
  }

  /** A `for` key stays when the lenient filter matches it and it is not a disallowed private address. */
  predicate KeepEntry(ip: string, opts: Settings, lib: Libraries)
  {
    lib.ipFilter(ip, opts.filter, true) == Match && (opts.allowPrivate || !lib.isPrivate(ip))
  }

  /** The lenient filter raises on some `for` key; nothing catches it. */
  predicate EntryFilterThrows(forMap: map<string, string>, opts: Settings, lib: Libraries)
  {
    exists ip :: ip in forMap && lib.ipFilter(ip, opts.filter, true) == Throws
  }

  /** The `for` table after filtering, or the failure the filter raises. */
  function PrunedFor(forMap: map<string, string>, opts: Settings, lib: Libraries): Result<map<string, string>, Failure>
  {
    if EntryFilterThrows(forMap, opts, lib) then Failure(FilterThrew)
    else Success(map ip | ip in forMap && KeepEntry(ip, opts, lib) :: forMap[ip])
  }

  /** The filtering stage: `ips` keeps the allowed addresses and the `for` table is pruned, or the filter's failure. */
  function Filtered(f: Forwarded, opts: Settings, lib: Libraries): Result<Forwarded, Failure>
  {
    match PrunedFor(f.forMap, opts, lib)
    case Failure(e) => Failure(e)
    case Success(forMap) => Success(f.(ips := Filter(f.ips, AddressFilter(opts, lib)), forMap := forMap))
  }

  /** The engine: a type error, the bare seed for a request without headers, or the filtered merge. */
  function Reconcile(req: Request, options: Options, lib: Libraries): Result<Forwarded, Failure>
  {
    if !req.isIncomingMessage then Failure(NotIncomingMessage)
    else if req.headers == map[] then Success(Seed(req))
    else Filtered(Merged(req, lib), WithDefaults(options), lib)
  }

  // The engine as it runs.

  /** One entry of the table applied in place: host, protocol, port, then each address in turn. */
  method ApplySchemaEntry(f: Forwarded, schema: Schema, h: Headers, visitorScheme: string -> Option<string>)
    returns (g: Forwarded)
    ensures g == ApplySchema(f, schema, h, visitorScheme)
  {
    g := f;
    if schema.host.Some? && Present(h, schema.host.value) {
      g := g.(host := Some(Scalar(h[schema.host.value])));
    }
    assert g == HostStep(f, schema, h);
    if schema.proto.Some? {
      var proto: Option<string> := None;
      match schema.proto.value {
        case SpecialHeaders =>
          proto := SpecialProto(h, visitorScheme);
        case ProtoHeader(name) =>
          if Present(h, name) {
            proto := Some(h[name]);
          }
      }
      if proto.Some? && proto.value != "" {
        g := g.(proto := Scalar(proto.value));
      }
    }
    assert g == ProtoStep(HostStep(f, schema, h), schema, h, visitorScheme);
    if schema.port.Some? && Present(h, schema.port.value) {
      var port := h[schema.port.value];
      g := g.(ports := g.ports + [port]);
      g := g.(port := port);
    }
    assert g == PortStep(ProtoStep(HostStep(f, schema, h), schema, h, visitorScheme), schema, h);
    if schema.ip.Some? && Present(h, schema.ip.value) {
      var ips := SplitSpaced(h[schema.ip.value], ',');
      g := AppendAddresses(g, ips);
    }
  }

  /** The addresses of one header appended to `ips`, then each mapped in turn to the current port. */
  method AppendAddresses(f: Forwarded, ips: seq<string>) returns (g: Forwarded)
    ensures g == AddAddresses(f, ips)
  {
    g := f.(ips := f.ips + ips);
    for i := 0 to |ips|
      invariant g == f.(ips := f.ips + ips, forMap := f.forMap + map a | a in ips[..i] :: f.port)
    {
      assert ips[..i + 1] == ips[..i] + [ips[i]];
      MapToNext(f.forMap, ips[..i], ips[i], f.port);
      g := g.(forMap := g.forMap[ips[i] := g.port]);
    }
    assert ips[..|ips|] == ips;
  }

  /** Mapping the keys of one more element to the same value is one map update. */
  lemma MapToNext(m: map<string, string>, done: seq<string>, next: string, v: string)
    ensures m + (map k | k in done + [next] :: v) == (m + (map k | k in done :: v))[next := v]
  {
  }

  /** The table folded over the record, entry by entry. */
  method ApplySchemaTable(f: Forwarded, h: Headers, visitorScheme: string -> Option<string>) returns (g: Forwarded)
    ensures g == ApplySchemas(f, Table, h, visitorScheme)
  {
    g := f;
    for i := 0 to |Table|
      invariant g == ApplySchemas(f, Table[..i], h, visitorScheme)
    {
      assert Table[..i + 1][..i] == Table[..i];
      g := ApplySchemaEntry(g, Table[i], h, visitorScheme);
    }
    assert Table[..|Table|] == Table;
  }

  /** The addresses that already have a `for` entry are collected, then each is given the final port. */
  method BackfillPorts(f: Forwarded) returns (g: Forwarded)
    ensures g == Backfill(f)
  {
    var diff := Filter(f.ips, ip => ip in f.forMap);
    g := f;
    for i := 0 to |diff|
      invariant g == f.(forMap := f.forMap + map ip | ip in diff[..i] :: f.port)
    {
      assert diff[..i + 1] == diff[..i] + [diff[i]];
      MapToNext(f.forMap, diff[..i], diff[i], f.port);
      g := g.(forMap := g.forMap[diff[i] := g.port]);
    }
    assert diff[..|diff|] == diff;
    assert (map ip | ip in diff :: f.port) == map ip | ip in f.ips && ip in f.forMap :: f.port;
  }

  /** The `Forwarded` header parsed and applied: each `for` node, then `proto`, `host` and `by`. */
  method ApplyForwardedHeader(f: Forwarded, header: string, parts: string -> NodeParts) returns (g: Forwarded)
    ensures g == ApplyDirectives(f, Parse(header), parts)
  {
    var rfc := ParseHeader(header);
    g := f;
    if "for" in rfc && Truthy(rfc["for"]) {
      g := ApplyForNodes(g, Values(rfc["for"]), parts);
    }
    if "proto" in rfc && Truthy(rfc["proto"]) {
      g := g.(proto := rfc["proto"]);
    }
    if "host" in rfc && Truthy(rfc["host"]) {
      g := g.(host := Some(rfc["host"]));
    }
    if "by" in rfc && Truthy(rfc["by"]) {
      g := g.(byNode := Some(rfc["by"]));
    }
  }

  /** The `forEach` over the `for` nodes: each node's address and port appended, and the address mapped to the port. */
  method ApplyForNodes(f: Forwarded, nodes: seq<string>, parts: string -> NodeParts) returns (g: Forwarded)
    ensures g == ApplyNodes(f, nodes, parts)
  {
    g := f;
    for i := 0 to |nodes|
      invariant g == ApplyNodes(f, nodes[..i], parts)
    {
      ApplyNodesNext(f, nodes, i, parts);
      var node := nodes[i];
      var p := parts(node);
      var ip := if p.ip.None? then node else p.ip.value;
      var port := if p.port.None? then g.port else p.port.value;
      g := g.(ips := g.ips + [ip]);
      g := g.(ports := g.ports + [port]);
      g := g.(forMap := g.forMap[ip := port]);
    }
    assert nodes[..|nodes|] == nodes;
  }

  /** One more node is one more `ApplyNode`. */
  lemma ApplyNodesNext(f: Forwarded, nodes: seq<string>, i: nat, parts: string -> NodeParts)
    requires i < |nodes|
    ensures ApplyNodes(f, nodes[..i + 1], parts) == ApplyNode(ApplyNodes(f, nodes[..i], parts), nodes[i], parts)
  {
    assert nodes[..i + 1][..i] == nodes[..i];
  }

  /** The list filter with the callback `self.indexOf(value) === index`. */
  method KeepFirstOccurrences(s: seq<string>) returns (r: seq<string>)
    ensures r == Dedup(s)
  {
    r := [];
    for i := 0 to |s|
      invariant r == Dedup(s[..i])
    {
      assert s[..i + 1][..i] == s[..i];
      assert s[i] in s;
      var first := IndexOf(s, s[i]);
      if s[i] !in s[..i] {
        IndexOfUnique(s, s[i], i);
      }
      if first == i {
        r := r + [s[i]];
      }
    }
    assert s[..|s|] == s;
  }

  /** The list filter on `ips`: an address stays when the strict filter matches and it is allowed. */
  method FilterAddresses(ips: seq<string>, opts: Settings, lib: Libraries) returns (kept: seq<string>)
    ensures kept == Filter(ips, AddressFilter(opts, lib))
  {
    kept := [];
    for i := 0 to |ips|
      invariant kept == Filter(ips[..i], AddressFilter(opts, lib))
    {
      assert ips[..i + 1][..i] == ips[..i];
      var ip := ips[i];
      // a raised error leaves the verdict `null`
      var filtered := lib.ipFilter(ip, opts.filter, false) == Match;
      if filtered && (opts.allowPrivate || lib.isPublic(ip)) {
        kept := kept + [ip];
      }
    }
    assert ips[..|ips|] == ips;
  }

  /** Every key of the `for` table, in no particular order: deleted when rejected; a raised error escapes. */
  method PruneForTable(forMap: map<string, string>, opts: Settings, lib: Libraries)
    returns (r: Result<map<string, string>, Failure>)
    ensures r == PrunedFor(forMap, opts, lib)
  {
    var table := forMap;
    var keys := forMap.Keys;
    while keys != {}
      invariant keys <= forMap.Keys
      invariant forall ip :: ip in forMap && ip !in keys ==> lib.ipFilter(ip, opts.filter, true) != Throws
      invariant table == map ip | ip in forMap && (ip in keys || KeepEntry(ip, opts, lib)) :: forMap[ip]
      decreases keys
    {
      var ip :| ip in keys;
      var filtered := lib.ipFilter(ip, opts.filter, true);
      if filtered == Throws {
        assert EntryFilterThrows(forMap, opts, lib);
        return Failure(FilterThrew);
      }
      if filtered == NoMatch || (if opts.allowPrivate then false else lib.isPrivate(ip)) {
        table := table - {ip};
      }
      keys := keys - {ip};
    }
    assert !EntryFilterThrows(forMap, opts, lib);
    assert table == map ip | ip in forMap && KeepEntry(ip, opts, lib) :: forMap[ip] by {
      assert forall ip :: ip !in keys;
    }
    return Success(table);
  }

  /** The exported function, step by step. */
  method ReconcileRequest(req: Request, options: Options, lib: Libraries) returns (result: Result<Forwarded, Failure>)
    ensures result == Reconcile(req, options, lib)
  {
    var opts := WithDefaults(options);
    if !req.isIncomingMessage {
      return Failure(NotIncomingMessage);
    }
    var forwarded := Seed(req);
    if req.headers == map[] {
      return Success(forwarded);
    }
    forwarded := ApplySchemaTable(forwarded, req.headers, lib.visitorScheme);
    forwarded := BackfillPorts(forwarded);
    if Present(req.headers, "forwarded") {
      forwarded := ApplyForwardedHeader(forwarded, req.headers["forwarded"], lib.nodeParts);
    }
    var ips := KeepFirstOccurrences(forwarded.ips);
    var ports := KeepFirstOccurrences(forwarded.ports);
    forwarded := forwarded.(ips := ips, ports := ports);
    ips := FilterAddresses(forwarded.ips, opts, lib);
    forwarded := forwarded.(ips := ips);
    var pruned := PruneForTable(forwarded.forMap, opts, lib);
    match pruned {
      case Failure(e) =>
        return Failure(e);
      case Success(table) =>
        return Success(forwarded.(forMap := table));
    }
  }
}
