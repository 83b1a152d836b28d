/**
 * What the engine promises, stated against reference definitions that do
 * not follow its step-by-step construction: which values end up in the
 * lists, which value wins each field, and what filtering may remove.
 */
module EngineProperties {
  import opened Wrappers
  import opened Text
  import opened Lists
  import opened Http
  import opened Rfc7239
  import opened Schemas
  import opened Engine

  // Reference definitions: what the table contributes, listed entry by entry.

  /** The value an opinion contributes to a list: itself, or nothing. */
  function Found(o: Option<string>): seq<string>
  {
    match o
    case Some(v) => [v]
    case None => []
  }

  /** The last element of a list, or `default` for the empty list. */
  function LastOr(s: seq<string>, default: string): string
  {
    if s == [] then default else s[|s| - 1]
  }

  /** The last value of a concatenation: the second part's, or else the first part's. */
  lemma LastOrConcat(a: seq<string>, b: seq<string>, default: string)
    ensures LastOr(a + b, default) == LastOr(b, LastOr(a, default))
  {
    if b == [] {
      assert a + b == a;
    }
  }

  /** The pieces of an entry's address header, when present. */
  function Pieces(schema: Schema, h: Headers): seq<string>
  {
    match HeaderOpinion(schema.ip, h)
    case Some(list) => SplitSpaced(list, ',')
    case None => []
  }

  /** The pieces of every present address header of the entries, in order. */
  function AddressPieces(schemas: seq<Schema>, h: Headers): seq<string>
    decreases |schemas|
  {
    if schemas == [] then []
    else AddressPieces(schemas[..|schemas| - 1], h) + Pieces(schemas[|schemas| - 1], h)
  }

  /** The values of every present port header of the entries, in order. */
  function PortValues(schemas: seq<Schema>, h: Headers): seq<string>
    decreases |schemas|
  {
    if schemas == [] then []
    else PortValues(schemas[..|schemas| - 1], h) + Found(HeaderOpinion(schemas[|schemas| - 1].port, h))
  }

  /** The values of every present host header of the entries, in order. */
  function HostValues(schemas: seq<Schema>, h: Headers): seq<string>
    decreases |schemas|
  {
    if schemas == [] then []
    else HostValues(schemas[..|schemas| - 1], h) + Found(HeaderOpinion(schemas[|schemas| - 1].host, h))
  }

  /** The truthy protocol opinions of the entries, in order. */
  function ProtoValues(schemas: seq<Schema>, h: Headers, visitorScheme: string -> Option<string>): seq<string>
    decreases |schemas|
  {
    if schemas == [] then []
    else ProtoValues(schemas[..|schemas| - 1], h, visitorScheme) + Found(ProtoOpinion(schemas[|schemas| - 1], h, visitorScheme))
  }

  /** The `for` table has an entry for exactly the addresses listed in `ips`. */
  ghost predicate KeysAreIps(f: Forwarded)
  {
    forall ip :: ip in f.forMap <==> ip in f.ips
  }

  // The schema fold.

  /** One entry appends its address pieces and its port, in the terms of the reference definitions. */
  lemma SchemaStepLists(g: Forwarded, schema: Schema, h: Headers, visitorScheme: string -> Option<string>)
    ensures ApplySchema(g, schema, h, visitorScheme).ips == g.ips + Pieces(schema, h)
    ensures ApplySchema(g, schema, h, visitorScheme).ports == g.ports + Found(HeaderOpinion(schema.port, h))
  {
  }

  /** One entry overwrites `port`, `host` and `proto` with its opinions and leaves `by` alone. */
  lemma SchemaStepFields(g: Forwarded, schema: Schema, h: Headers, visitorScheme: string -> Option<string>)
    ensures ApplySchema(g, schema, h, visitorScheme).port == LastOr(Found(HeaderOpinion(schema.port, h)), g.port)
    ensures ApplySchema(g, schema, h, visitorScheme).host ==
      if HeaderOpinion(schema.host, h).None? then g.host else Some(Scalar(HeaderOpinion(schema.host, h).value))
    ensures ApplySchema(g, schema, h, visitorScheme).proto ==
      if ProtoOpinion(schema, h, visitorScheme).None? then g.proto else Scalar(ProtoOpinion(schema, h, visitorScheme).value)
    ensures ApplySchema(g, schema, h, visitorScheme).byNode == g.byNode
  {
  }

  /** Folding the entries appends the address pieces, in table order. */
  lemma {:induction false} SchemaFoldAddresses(f: Forwarded, schemas: seq<Schema>, h: Headers, visitorScheme: string -> Option<string>)
    ensures ApplySchemas(f, schemas, h, visitorScheme).ips == f.ips + AddressPieces(schemas, h)
    decreases |schemas|
  {
    if schemas != [] {
      var init, last := schemas[..|schemas| - 1], schemas[|schemas| - 1];
      SchemaFoldAddresses(f, init, h, visitorScheme);
      FoldStepLists(f, schemas, h, visitorScheme);
      assert AddressPieces(schemas, h) == AddressPieces(init, h) + Pieces(last, h);
      ConcatAssoc(f.ips, AddressPieces(init, h), Pieces(last, h));
    }
  }

  /** The last entry of a fold appends its address pieces and its port. */
  lemma FoldStepLists(f: Forwarded, schemas: seq<Schema>, h: Headers, visitorScheme: string -> Option<string>)
    requires schemas != []
    ensures ApplySchemas(f, schemas, h, visitorScheme).ips ==
      ApplySchemas(f, schemas[..|schemas| - 1], h, visitorScheme).ips + Pieces(schemas[|schemas| - 1], h)
    ensures ApplySchemas(f, schemas, h, visitorScheme).ports ==
      ApplySchemas(f, schemas[..|schemas| - 1], h, visitorScheme).ports + Found(HeaderOpinion(schemas[|schemas| - 1].port, h))
  {
    SchemaStepLists(ApplySchemas(f, schemas[..|schemas| - 1], h, visitorScheme), schemas[|schemas| - 1], h, visitorScheme);
  }

  /** The last entry of a fold overwrites `port`, `host` and `proto` with its opinions and leaves `by`. */
  lemma FoldStepFields(f: Forwarded, schemas: seq<Schema>, h: Headers, visitorScheme: string -> Option<string>)
    requires schemas != []
    ensures var g, last := ApplySchemas(f, schemas[..|schemas| - 1], h, visitorScheme), schemas[|schemas| - 1];
      && ApplySchemas(f, schemas, h, visitorScheme).port == LastOr(Found(HeaderOpinion(last.port, h)), g.port)
      && ApplySchemas(f, schemas, h, visitorScheme).host ==
        (if HeaderOpinion(last.host, h).None? then g.host else Some(Scalar(HeaderOpinion(last.host, h).value)))
      && ApplySchemas(f, schemas, h, visitorScheme).proto ==
        (if ProtoOpinion(last, h, visitorScheme).None? then g.proto else Scalar(ProtoOpinion(last, h, visitorScheme).value))
      && ApplySchemas(f, schemas, h, visitorScheme).byNode == g.byNode
  {
    SchemaStepFields(ApplySchemas(f, schemas[..|schemas| - 1], h, visitorScheme), schemas[|schemas| - 1], h, visitorScheme);
  }

  /** Folding the entries appends the port values, in table order. */
  lemma {:induction false} SchemaFoldPorts(f: Forwarded, schemas: seq<Schema>, h: Headers, visitorScheme: string -> Option<string>)
    ensures ApplySchemas(f, schemas, h, visitorScheme).ports == f.ports + PortValues(schemas, h)
    decreases |schemas|
  {
    if schemas != [] {
      var init, last := schemas[..|schemas| - 1], schemas[|schemas| - 1];
      var found := Found(HeaderOpinion(last.port, h));
      assert PortValues(schemas, h) == PortValues(init, h) + found;
      SchemaFoldPorts(f, init, h, visitorScheme);
      FoldStepLists(f, schemas, h, visitorScheme);
      ConcatAssoc(f.ports, PortValues(init, h), found);
    }
  }

  /** After the fold, `port` holds the last port value, or is unchanged when there was none. */
  lemma {:induction false} SchemaFoldPort(f: Forwarded, schemas: seq<Schema>, h: Headers, visitorScheme: string -> Option<string>)
    ensures ApplySchemas(f, schemas, h, visitorScheme).port == LastOr(PortValues(schemas, h), f.port)
    decreases |schemas|
  {
    if schemas != [] {
      var init, last := schemas[..|schemas| - 1], schemas[|schemas| - 1];
      assert PortValues(schemas, h) == PortValues(init, h) + Found(HeaderOpinion(last.port, h));
      LastOrConcat(PortValues(init, h), Found(HeaderOpinion(last.port, h)), f.port);
      SchemaFoldPort(f, init, h, visitorScheme);
      FoldStepFields(f, schemas, h, visitorScheme);
    }
  }

  /** After the fold, `host` holds the last host header value, or is unchanged when there was none. */
  lemma {:induction false} SchemaFoldHost(f: Forwarded, schemas: seq<Schema>, h: Headers, visitorScheme: string -> Option<string>)
    ensures ApplySchemas(f, schemas, h, visitorScheme).host ==
      if HostValues(schemas, h) == [] then f.host else Some(Scalar(LastOr(HostValues(schemas, h), "")))
    decreases |schemas|
  {
    if schemas != [] {
      var init, last := schemas[..|schemas| - 1], schemas[|schemas| - 1];
      assert HostValues(schemas, h) == HostValues(init, h) + Found(HeaderOpinion(last.host, h));
      SchemaFoldHost(f, init, h, visitorScheme);
      FoldStepFields(f, schemas, h, visitorScheme);
    }
  }

  /** After the fold, `proto` holds the last truthy protocol opinion, or is unchanged when there was none; `by` is untouched. */
  lemma {:induction false} SchemaFoldProto(f: Forwarded, schemas: seq<Schema>, h: Headers, visitorScheme: string -> Option<string>)
    ensures ApplySchemas(f, schemas, h, visitorScheme).proto ==
      if ProtoValues(schemas, h, visitorScheme) == [] then f.proto
      else Scalar(LastOr(ProtoValues(schemas, h, visitorScheme), ""))
    ensures ApplySchemas(f, schemas, h, visitorScheme).byNode == f.byNode
    decreases |schemas|
  {
    if schemas != [] {
      var init, last := schemas[..|schemas| - 1], schemas[|schemas| - 1];
      assert ProtoValues(schemas, h, visitorScheme) ==
        ProtoValues(init, h, visitorScheme) + Found(ProtoOpinion(last, h, visitorScheme));
      SchemaFoldProto(f, init, h, visitorScheme);
      FoldStepFields(f, schemas, h, visitorScheme);
    }
  }

  /** Each address of an entry's header maps to the port the record holds once that entry is applied. */
  lemma AddressesTakeCurrentPort(f: Forwarded, schema: Schema, h: Headers, visitorScheme: string -> Option<string>)
    requires HeaderOpinion(schema.ip, h).Some?
    ensures var g := ApplySchema(f, schema, h, visitorScheme);
      forall a :: a in SplitSpaced(HeaderOpinion(schema.ip, h).value, ',') ==> a in g.forMap && g.forMap[a] == g.port
    ensures var g := ApplySchema(f, schema, h, visitorScheme);
      forall a :: a in f.forMap && a !in SplitSpaced(HeaderOpinion(schema.ip, h).value, ',') ==> a in g.forMap && g.forMap[a] == f.forMap[a]
  {
  }

  /** An entry keeps the `for` keys equal to the listed addresses. */
  lemma SchemaKeepsKeys(f: Forwarded, schema: Schema, h: Headers, visitorScheme: string -> Option<string>)
    requires KeysAreIps(f)
    ensures KeysAreIps(ApplySchema(f, schema, h, visitorScheme))
  {
  }

  /** The whole fold keeps the `for` keys equal to the listed addresses. */
  lemma {:induction false} SchemaFoldKeepsKeys(f: Forwarded, schemas: seq<Schema>, h: Headers, visitorScheme: string -> Option<string>)
    requires KeysAreIps(f)
    ensures KeysAreIps(ApplySchemas(f, schemas, h, visitorScheme))
    decreases |schemas|
  {
    if schemas != [] {
      var init := schemas[..|schemas| - 1];
      SchemaFoldKeepsKeys(f, init, h, visitorScheme);
      SchemaKeepsKeys(ApplySchemas(f, init, h, visitorScheme), schemas[|schemas| - 1], h, visitorScheme);
    }
  }

  /**
   * Any opinion of the special-header extractor wins over every named protocol
   * header, because its entry is folded last.
   */
  lemma SpecialProtoOverrides(f: Forwarded, h: Headers, visitorScheme: string -> Option<string>)
    requires SpecialProto(h, visitorScheme).Some?
    ensures ApplySchemas(f, Table, h, visitorScheme).proto == Scalar(SpecialProto(h, visitorScheme).value)
  {
    TableLayout();
    assert Table[..|Table| - 1] + [Table[|Table| - 1]] == Table;
  }

  /** The flag headers give `https` whatever the named protocol headers say. */
  lemma FlagsOverride(f: Forwarded, h: Headers, visitorScheme: string -> Option<string>)
    requires HttpsFlag(h)
    ensures ApplySchemas(f, Table, h, visitorScheme).proto == Scalar("https")
  {
    FlagsGiveHttps(h, visitorScheme);
    SpecialProtoOverrides(f, h, visitorScheme);
  }

  /** Without a flag, a non-empty `cf-visitor` scheme beats `x-forwarded-proto` and the other named headers. */
  lemma VisitorSchemeOverrides(f: Forwarded, h: Headers, visitorScheme: string -> Option<string>)
    requires !HttpsFlag(h) && Present(h, "cf-visitor")
    requires visitorScheme(h["cf-visitor"]).Some? && visitorScheme(h["cf-visitor"]).value != ""
    ensures ApplySchemas(f, Table, h, visitorScheme).proto == Scalar(visitorScheme(h["cf-visitor"]).value)
  {
    VisitorSchemeVerdict(h, visitorScheme);
    SpecialProtoOverrides(f, h, visitorScheme);
  }

  // The backfill pass.

  /** With keys equal to addresses, backfill maps every listed address, and nothing else, to the final port. */
  lemma BackfillFinalPort(f: Forwarded)
    requires KeysAreIps(f)
    ensures Backfill(f).forMap == map ip | ip in f.ips :: f.port
    ensures KeysAreIps(Backfill(f))
  {
  }

  /** After the table and the backfill, every address maps to the final port. */
  lemma BackfilledTable(req: Request, visitorScheme: string -> Option<string>)
    ensures var f := ApplySchemas(Seed(req), Table, req.headers, visitorScheme);
      Backfill(f).forMap == map ip | ip in f.ips :: f.port
  {
    var f := ApplySchemas(Seed(req), Table, req.headers, visitorScheme);
    SchemaFoldKeepsKeys(Seed(req), Table, req.headers, visitorScheme);
    BackfillFinalPort(f);
  }

  // The `Forwarded` overlay.

  /** The address of each `for` node, in order. */
  function NodeAddresses(nodes: seq<string>, parts: string -> NodeParts): seq<string>
    decreases |nodes|
  {
    if nodes == [] then []
    else NodeAddresses(nodes[..|nodes| - 1], parts) + [NodeAddress(nodes[|nodes| - 1], parts)]
  }

  /** The port of each `for` node, in order, `fallback` standing in where none is found. */
  function NodePorts(nodes: seq<string>, parts: string -> NodeParts, fallback: string): seq<string>
    decreases |nodes|
  {
    if nodes == [] then []
    else NodePorts(nodes[..|nodes| - 1], parts, fallback) + [NodePort(nodes[|nodes| - 1], parts, fallback)]
  }

  /** No later node has the same address as node `k`. */
  predicate LastWithAddress(nodes: seq<string>, parts: string -> NodeParts, k: int)
    requires 0 <= k < |nodes|
  {
    forall j :: k < j < |nodes| ==> NodeAddress(nodes[j], parts) != NodeAddress(nodes[k], parts)
  }

  /** The nodes append their addresses and their ports in order; the scalar fields stay as they were. */
  lemma {:induction false} NodesAppended(f: Forwarded, nodes: seq<string>, parts: string -> NodeParts)
    ensures ApplyNodes(f, nodes, parts).ips == f.ips + NodeAddresses(nodes, parts)
    ensures ApplyNodes(f, nodes, parts).ports == f.ports + NodePorts(nodes, parts, f.port)
    ensures ApplyNodes(f, nodes, parts).port == f.port
    ensures ApplyNodes(f, nodes, parts).proto == f.proto
    ensures ApplyNodes(f, nodes, parts).host == f.host
    ensures ApplyNodes(f, nodes, parts).byNode == f.byNode
    decreases |nodes|
  {
    if nodes != [] {
      var init, last := nodes[..|nodes| - 1], nodes[|nodes| - 1];
      NodesAppended(f, init, parts);
      ConcatAssoc(f.ips, NodeAddresses(init, parts), [NodeAddress(last, parts)]);
      ConcatAssoc(f.ports, NodePorts(init, parts, f.port), [NodePort(last, parts, f.port)]);
    }
  }

  /**
   * In the `for` table, a node's address maps to the port of the last node
   * with that address; the nodes add their addresses as keys and leave the
   * other entries alone.
   */
  lemma {:induction false} NodesLastWins(f: Forwarded, nodes: seq<string>, parts: string -> NodeParts)
    ensures forall k :: 0 <= k < |nodes| && LastWithAddress(nodes, parts, k) ==>
      NodeAddress(nodes[k], parts) in ApplyNodes(f, nodes, parts).forMap &&
      ApplyNodes(f, nodes, parts).forMap[NodeAddress(nodes[k], parts)] == NodePort(nodes[k], parts, f.port)
    ensures forall ip :: ip in ApplyNodes(f, nodes, parts).forMap <==> ip in f.forMap || ip in NodeAddresses(nodes, parts)
    ensures forall ip :: ip in f.forMap && ip !in NodeAddresses(nodes, parts) ==>
      ApplyNodes(f, nodes, parts).forMap[ip] == f.forMap[ip]
    decreases |nodes|
  {
    if nodes != [] {
      var init, last := nodes[..|nodes| - 1], nodes[|nodes| - 1];
      NodesLastWins(f, init, parts);
      NodesAppended(f, init, parts);
      var g := ApplyNodes(f, nodes, parts);
      forall k | 0 <= k < |nodes| && LastWithAddress(nodes, parts, k)
        ensures NodeAddress(nodes[k], parts) in g.forMap && g.forMap[NodeAddress(nodes[k], parts)] == NodePort(nodes[k], parts, f.port)
      {
        if k < |init| {
          assert init[k] == nodes[k];
          assert LastWithAddress(init, parts, k) by {
            forall j | k < j < |init| ensures NodeAddress(init[j], parts) != NodeAddress(init[k], parts) {
              assert init[j] == nodes[j];
            }
          }
        }
      }
    }
  }

  /** The node addresses the `Forwarded` header contributes, none when it is absent or has no `for`. */
  function ForwardedAddresses(h: Headers, parts: string -> NodeParts): seq<string>
  {
    if !Present(h, "forwarded") then []
    else
      var d := Parse(h["forwarded"]);
      if "for" in d && Truthy(d["for"]) then NodeAddresses(Values(d["for"]), parts) else []
  }

  /** The node ports the `Forwarded` header contributes, `fallback` standing in where none is found. */
  function ForwardedPorts(h: Headers, parts: string -> NodeParts, fallback: string): seq<string>
  {
    if !Present(h, "forwarded") then []
    else
      var d := Parse(h["forwarded"]);
      if "for" in d && Truthy(d["for"]) then NodePorts(Values(d["for"]), parts, fallback) else []
  }

  /** A truthy directive of the `Forwarded` header, when the header is present. */
  function ForwardedDirective(h: Headers, name: string): Option<Value>
  {
    if !Present(h, "forwarded") then None
    else
      var d := Parse(h["forwarded"]);
      if name in d && Truthy(d[name]) then Some(d[name]) else None
  }

  /** The `for` nodes of parsed directives, none when `for` is absent or falsy. */
  function ForNodes(d: Directives): seq<string>
  {
    if "for" in d && Truthy(d["for"]) then Values(d["for"]) else []
  }

  /** Applying directives appends the addresses and ports of their `for` nodes; `port` stays. */
  lemma DirectivesLists(f: Forwarded, d: Directives, parts: string -> NodeParts)
    ensures ApplyDirectives(f, d, parts).ips == f.ips + NodeAddresses(ForNodes(d), parts)
    ensures ApplyDirectives(f, d, parts).ports == f.ports + NodePorts(ForNodes(d), parts, f.port)
    ensures ApplyDirectives(f, d, parts).port == f.port
  {
    NodesAppended(f, ForNodes(d), parts);
  }

  /** Applying directives lets a truthy `proto`, `host` and `by` overwrite, and only those. */
  lemma DirectivesScalars(f: Forwarded, d: Directives, parts: string -> NodeParts)
    ensures ApplyDirectives(f, d, parts).proto == if "proto" in d && Truthy(d["proto"]) then d["proto"] else f.proto
    ensures ApplyDirectives(f, d, parts).host == if "host" in d && Truthy(d["host"]) then Some(d["host"]) else f.host
    ensures ApplyDirectives(f, d, parts).byNode == if "by" in d && Truthy(d["by"]) then Some(d["by"]) else f.byNode
  {
    NodesAppended(f, ForNodes(d), parts);
  }

  /** The overlay appends the node addresses and ports and lets the directives overwrite; `port` stays. */
  lemma OverlayFields(f: Forwarded, h: Headers, parts: string -> NodeParts)
    ensures Overlay(f, h, parts).ips == f.ips + ForwardedAddresses(h, parts)
    ensures Overlay(f, h, parts).ports == f.ports + ForwardedPorts(h, parts, f.port)
    ensures Overlay(f, h, parts).port == f.port
    ensures Overlay(f, h, parts).proto == ForwardedDirective(h, "proto").GetOr(f.proto)
    ensures Overlay(f, h, parts).host == if ForwardedDirective(h, "host").Some? then ForwardedDirective(h, "host") else f.host
    ensures Overlay(f, h, parts).byNode == if ForwardedDirective(h, "by").Some? then ForwardedDirective(h, "by") else f.byNode
  {
    if Present(h, "forwarded") {
      var d := Parse(h["forwarded"]);
      assert Overlay(f, h, parts) == ApplyDirectives(f, d, parts);
      DirectivesLists(f, d, parts);
      DirectivesScalars(f, d, parts);
      assert NodeAddresses([], parts) == [] && NodePorts([], parts, f.port) == [];
    } else {
      assert f.ips + [] == f.ips && f.ports + [] == f.ports;
    }
  }

  /** Applying directives keeps the `for` keys equal to the listed addresses. */
  lemma DirectivesKeepKeys(f: Forwarded, d: Directives, parts: string -> NodeParts)
    requires KeysAreIps(f)
    ensures KeysAreIps(ApplyDirectives(f, d, parts))
  {
    var nodes := ForNodes(d);
    var g := ApplyNodes(f, nodes, parts);
    NodesAppended(f, nodes, parts);
    NodesLastWins(f, nodes, parts);
    assert KeysAreIps(g);
    DirectivesScalars(f, d, parts);
    assert ApplyDirectives(f, d, parts).forMap == g.forMap && ApplyDirectives(f, d, parts).ips == g.ips;
  }

  /** The overlay keeps the `for` keys equal to the listed addresses. */
  lemma OverlayKeepsKeys(f: Forwarded, h: Headers, parts: string -> NodeParts)
    requires KeysAreIps(f)
    ensures KeysAreIps(Overlay(f, h, parts))
  {
    if Present(h, "forwarded") {
      DirectivesKeepKeys(f, Parse(h["forwarded"]), parts);
    }
  }

  // The whole engine.

  /** Every address the engine lists before repeats go: the peer, the table's pieces, the `for` nodes. */
  function AllAddresses(req: Request, lib: Libraries): seq<string>
  {
    [req.connection.remoteAddress] + AddressPieces(Table, req.headers) + ForwardedAddresses(req.headers, lib.nodeParts)
  }

  /** The port after the table: the last port header value, or the peer's port. */
  function TablePort(req: Request): string
  {
    LastOr(PortValues(Table, req.headers), req.connection.remotePort)
  }

  /** Every port the engine lists before repeats go: the peer's, the table's, the `for` nodes'. */
  function AllPorts(req: Request, lib: Libraries): seq<string>
  {
    [req.connection.remotePort] + PortValues(Table, req.headers) + ForwardedPorts(req.headers, lib.nodeParts, TablePort(req))
  }

  /** The protocol before the `Forwarded` header: the last truthy opinion of the table, or the connection's. */
  function TableProto(req: Request, visitorScheme: string -> Option<string>): Value
  {
    var opinions := ProtoValues(Table, req.headers, visitorScheme);
    if opinions == [] then Scalar(if req.connection.encrypted then "https" else "http")
    else Scalar(LastOr(opinions, ""))
  }

  /** The host before the `Forwarded` header: the last host header of the table, or the `host` header. */
  function TableHost(req: Request): Option<Value>
  {
    var hosts := HostValues(Table, req.headers);
    if hosts != [] then Some(Scalar(LastOr(hosts, "")))
    else if Present(req.headers, "host") then Some(Scalar(req.headers["host"]))
    else None
  }

  /**
   * Before filtering: the lists are the peer's, the table's and the nodes'
   * values without repeats; `port` comes from the table alone; a truthy
   * `Forwarded` directive beats the table for `proto`, `host` and `by`; and
   * the `for` table has an entry for exactly the listed addresses.
   */
  lemma MergedFields(req: Request, lib: Libraries)
    ensures Merged(req, lib).ips == Dedup(AllAddresses(req, lib))
    ensures Merged(req, lib).ports == Dedup(AllPorts(req, lib))
    ensures Merged(req, lib).port == TablePort(req)
    ensures Merged(req, lib).proto == ForwardedDirective(req.headers, "proto").GetOr(TableProto(req, lib.visitorScheme))
    ensures Merged(req, lib).host ==
      if ForwardedDirective(req.headers, "host").Some? then ForwardedDirective(req.headers, "host") else TableHost(req)
    ensures Merged(req, lib).byNode == ForwardedDirective(req.headers, "by")
    ensures KeysAreIps(Merged(req, lib))
  {
    var h := req.headers;
    var f0 := Seed(req);
    var f1 := ApplySchemas(f0, Table, h, lib.visitorScheme);
    SchemaFoldAddresses(f0, Table, h, lib.visitorScheme);
    SchemaFoldPorts(f0, Table, h, lib.visitorScheme);
    SchemaFoldPort(f0, Table, h, lib.visitorScheme);
    SchemaFoldHost(f0, Table, h, lib.visitorScheme);
    SchemaFoldProto(f0, Table, h, lib.visitorScheme);
    SchemaFoldKeepsKeys(f0, Table, h, lib.visitorScheme);
    var f2 := Backfill(f1);
    BackfillFinalPort(f1);
    var f3 := Overlay(f2, h, lib.nodeParts);
    OverlayFields(f2, h, lib.nodeParts);
    OverlayKeepsKeys(f2, h, lib.nodeParts);
    assert f3.ips == AllAddresses(req, lib);
  }

  /** A request that is not an `http.IncomingMessage` is refused with a type error. */
  lemma RejectsNonRequest(req: Request, options: Options, lib: Libraries)
    requires !req.isIncomingMessage
    ensures Reconcile(req, options, lib) == Failure(NotIncomingMessage)
  {
  }

  /** Without headers the peer alone is returned, unfiltered whatever the options say. */
  lemma EmptyHeadersGiveSeed(req: Request, options: Options, lib: Libraries)
    requires req.isIncomingMessage && req.headers == map[]
    ensures Reconcile(req, options, lib) == Success(Forwarded(
      [req.connection.remoteAddress], [req.connection.remotePort], req.connection.remotePort,
      Scalar(if req.connection.encrypted then "https" else "http"), None, None,
      map[req.connection.remoteAddress := req.connection.remotePort]))
  {
  }

  /** The engine fails, after the type check, exactly when the lenient filter raises on a `for` key. */
  lemma ReconcileFails(req: Request, options: Options, lib: Libraries)
    requires req.isIncomingMessage && req.headers != map[]
    ensures Reconcile(req, options, lib).Failure? <==>
      exists ip :: ip in AllAddresses(req, lib) && lib.ipFilter(ip, WithDefaults(options).filter, true) == Throws
    ensures Reconcile(req, options, lib).Failure? ==> Reconcile(req, options, lib).error == FilterThrew
  {
    var m := Merged(req, lib);
    assert Reconcile(req, options, lib) == Filtered(m, WithDefaults(options), lib);
    MergedKeys(req, lib);
    ThrowsOnKeys(m.forMap, AllAddresses(req, lib), WithDefaults(options), lib);
  }

  /** Before filtering, the `for` table has an entry for exactly the listed addresses. */
  lemma MergedKeys(req: Request, lib: Libraries)
    ensures forall ip :: ip in Merged(req, lib).forMap <==> ip in AllAddresses(req, lib)
  {
    MergedFields(req, lib);
    var m := Merged(req, lib);
    assert forall ip :: ip in m.ips <==> ip in AllAddresses(req, lib);
  }

  /** With the `for` keys equal to a list, the lenient filter raises on a key iff it raises on a listed address. */
  lemma ThrowsOnKeys(forMap: map<string, string>, all: seq<string>, opts: Settings, lib: Libraries)
    requires forall ip :: ip in forMap <==> ip in all
    ensures EntryFilterThrows(forMap, opts, lib) <==> exists ip :: ip in all && lib.ipFilter(ip, opts.filter, true) == Throws
  {
    if exists ip :: ip in all && lib.ipFilter(ip, opts.filter, true) == Throws {
      var ip :| ip in all && lib.ipFilter(ip, opts.filter, true) == Throws;
      assert ip in forMap;
    }
  }

  /**
   * Filtering only removes. The addresses are the listed ones that pass the
   * strict filter and the private-address rule, without repeats, in
   * first-occurrence order; the ports are every listed port, without
   * repeats, in first-occurrence order; the `for` table keeps, with their
   * values, the listed addresses that pass the lenient filter and the
   * private-address rule; the scalar fields are those of the merge.
   */
  lemma ReconcileFiltered(req: Request, options: Options, lib: Libraries)
    requires req.isIncomingMessage && req.headers != map[] && Reconcile(req, options, lib).Success?
    ensures var r := Reconcile(req, options, lib).value;
      && NoDuplicates(r.ips)
      && InFirstOccurrenceOrder(r.ips, AllAddresses(req, lib))
      && (forall ip :: ip in r.ips <==> ip in AllAddresses(req, lib) && KeepAddress(ip, WithDefaults(options), lib))
    ensures var r := Reconcile(req, options, lib).value;
      && NoDuplicates(r.ports)
      && InFirstOccurrenceOrder(r.ports, AllPorts(req, lib))
      && (forall p :: p in r.ports <==> p in AllPorts(req, lib))
    ensures var r := Reconcile(req, options, lib).value;
      && (forall ip :: ip in r.forMap <==> ip in AllAddresses(req, lib) && KeepEntry(ip, WithDefaults(options), lib))
      && (forall ip :: ip in r.forMap ==> r.forMap[ip] == Merged(req, lib).forMap[ip])
    ensures var r := Reconcile(req, options, lib).value; var m := Merged(req, lib);
      r.port == m.port && r.proto == m.proto && r.host == m.host && r.byNode == m.byNode
  {
    MergedFields(req, lib);
    var m := Merged(req, lib);
    var opts := WithDefaults(options);
    var r := Reconcile(req, options, lib).value;
    var all := AllAddresses(req, lib);
    DedupOrder(all);
    FilterOrder(Dedup(all), AddressFilter(opts, lib));
    OrderCompose(r.ips, Dedup(all), all);
    DedupOrder(AllPorts(req, lib));
  }

  /** The peer's port always leads `ports`; the peer's address leads `ips` unless it is filtered out. */
  lemma ReconcilePeerFirst(req: Request, options: Options, lib: Libraries)
    requires Reconcile(req, options, lib).Success?
    ensures var r := Reconcile(req, options, lib).value;
      r.ports != [] && r.ports[0] == req.connection.remotePort
    ensures var r := Reconcile(req, options, lib).value;
      req.headers == map[] || KeepAddress(req.connection.remoteAddress, WithDefaults(options), lib) ==>
        r.ips != [] && r.ips[0] == req.connection.remoteAddress
  {
    if req.headers != map[] {
      MergedFields(req, lib);
      var opts := WithDefaults(options);
      var all := AllAddresses(req, lib);
      DedupKeepsFirst(all);
      DedupKeepsFirst(AllPorts(req, lib));
      if KeepAddress(req.connection.remoteAddress, opts, lib) {
        FilterKeepsFirst(Dedup(all), AddressFilter(opts, lib));
      }
    }
  }
}
