/**
 * The vendor header conventions the engine consults, in the order it
 * consults them, and the computed `proto` opinion of the last entry.
 */
module Schemas {
  import opened Wrappers
  import opened Http

  /** Where an entry takes its protocol from: a named header, or the special-header extractor. */
  datatype ProtoSource = ProtoHeader(name: string) | SpecialHeaders

  /** One convention: the header carrying each kind of information, when the convention has one. */
  datatype Schema = Schema(ip: Option<string>, host: Option<string>, port: Option<string>, proto: Option<ProtoSource>)

  /** The schema table, in the order the engine folds it. */
  const Table: seq<Schema> := [
    // xff
    Schema(Some("x-forwarded-for"), Some("x-forwarded-host"), Some("x-forwarded-port"), Some(ProtoHeader("x-forwarded-proto"))),
    // xff-alt
    Schema(None, None, None, Some(ProtoHeader("x-forwarded-protocol"))),
    // zscaler
    Schema(Some("z-forwarded-for"), Some("z-forwarded-host"), Some("z-forwarded-port"), Some(ProtoHeader("z-forwarded-proto"))),
    // zscaler-alt
    Schema(None, None, None, Some(ProtoHeader("z-forwarded-protocol"))),
    // fastly
    Schema(Some("fastly-client-ip"), None, Some("fastly-client-port"), None),
    // nginx
    Schema(Some("x-real-ip"), None, Some("x-real-port"), Some(ProtoHeader("x-real-proto"))),
    // nginx-alt
    Schema(None, None, None, Some(ProtoHeader("x-url-scheme"))),
    // rackspace
    Schema(Some("x-cluster-client-ip"), None, None, None),
    // cloudflare
    Schema(Some("cf-connecting-ip"), None, None, None),
    // special headers
    Schema(None, None, None, Some(SpecialHeaders))
  ]

  /** A flag header that asks for `https`: `front-end-https: on`, `x-forwarded-ssl: on`, or `fastly-ssl` `1` or `true`. */
  predicate HttpsFlag(h: Headers)
  {
    || Lookup(h, "front-end-https") == Some("on")
    || Lookup(h, "x-forwarded-ssl") == Some("on")
    || Lookup(h, "fastly-ssl") == Some("1")
    || Lookup(h, "fastly-ssl") == Some("true")
  }

  /**
   * The special-header extractor. `visitorScheme` stands for reading the
   * `scheme` member of the `cf-visitor` header's JSON: `None` when the text
   * does not parse or has no such member. `None` as a result is the
   * extractor's `false`, "no opinion".
   */
  function SpecialProto(h: Headers, visitorScheme: string -> Option<string>): (r: Option<string>)
    ensures r.Some? ==> r.value != ""
  {
    if Lookup(h, "front-end-https") == Some("on") then Some("https")
    else if Lookup(h, "x-forwarded-ssl") == Some("on") then Some("https")
    else if Lookup(h, "fastly-ssl") == Some("1") || Lookup(h, "fastly-ssl") == Some("true") then Some("https")
    else if Present(h, "cf-visitor") then
      match visitorScheme(h["cf-visitor"])
      case Some(scheme) => if scheme != "" then Some(scheme) else None
      case None => None
    else None
  }

  /**
   * The protocol an entry proposes for a request: the value of its named
   * header when that is present, the extractor's verdict for the special
   * entry, and nothing for an entry without a protocol source. Only
   * truthy opinions are proposed, since only those overwrite.
   */
  function ProtoOpinion(schema: Schema, h: Headers, visitorScheme: string -> Option<string>): (r: Option<string>)
    ensures r.Some? ==> r.value != ""
    ensures schema.proto.None? ==> r.None?
  {
    match schema.proto
    case None => None
    case Some(ProtoHeader(name)) => if Present(h, name) then Some(h[name]) else None
    case Some(SpecialHeaders) => SpecialProto(h, visitorScheme)
  }

  /** The value of an optional header of an entry, when the entry names one and the request carries it. */
  function HeaderOpinion(name: Option<string>, h: Headers): (r: Option<string>)
    ensures r.Some? <==> name.Some? && Present(h, name.value)
    ensures r.Some? ==> r.value == h[name.value] && r.value != ""
  {
    if name.Some? && Present(h, name.value) then Some(h[name.value]) else None
  }

  // Properties of the table and of the extractor.

  /** Ten entries; which of them carry address, host, port and protocol headers; only the last computes its protocol. */
  lemma TableLayout()
    ensures |Table| == 10
    ensures forall i :: 0 <= i < |Table| ==> (Table[i].ip.Some? <==> i in {0, 2, 4, 5, 7, 8})
    ensures forall i :: 0 <= i < |Table| ==> (Table[i].host.Some? <==> i in {0, 2})
    ensures forall i :: 0 <= i < |Table| ==> (Table[i].port.Some? <==> i in {0, 2, 4, 5})
    ensures forall i :: 0 <= i < |Table| ==> (Table[i].proto.Some? <==> i in {0, 1, 2, 3, 5, 6, 9})
    ensures forall i :: 0 <= i < |Table| ==> (Table[i].proto == Some(SpecialHeaders) <==> i == 9)
  {
  }

  /** The address headers in the order the engine reads them. */
  lemma TableAddressHeaders()
    ensures [Table[0].ip, Table[2].ip, Table[4].ip, Table[5].ip, Table[7].ip, Table[8].ip] ==
      [Some("x-forwarded-for"), Some("z-forwarded-for"), Some("fastly-client-ip"),
       Some("x-real-ip"), Some("x-cluster-client-ip"), Some("cf-connecting-ip")]
  {
  }

  /** Any of the flag headers gives `https`, whatever `cf-visitor` says. */
  lemma FlagsGiveHttps(h: Headers, visitorScheme: string -> Option<string>)
    ensures HttpsFlag(h) ==> SpecialProto(h, visitorScheme) == Some("https")
  {
  }

  /**
   * Without a flag header the extractor's opinion is exactly the non-empty
   * scheme read from a present `cf-visitor`; otherwise it has none.
   */
  lemma VisitorSchemeVerdict(h: Headers, visitorScheme: string -> Option<string>)
    requires !HttpsFlag(h)
    ensures SpecialProto(h, visitorScheme).Some? <==>
      Present(h, "cf-visitor") && visitorScheme(h["cf-visitor"]).Some? && visitorScheme(h["cf-visitor"]).value != ""
    ensures SpecialProto(h, visitorScheme).Some? ==> SpecialProto(h, visitorScheme) == visitorScheme(h["cf-visitor"])
  {
  }

  /** The extractor answers `https` or the visitor scheme, and nothing else. */
  lemma SpecialProtoRange(h: Headers, visitorScheme: string -> Option<string>)
    ensures SpecialProto(h, visitorScheme).Some? ==>
      SpecialProto(h, visitorScheme) == Some("https") ||
      (Present(h, "cf-visitor") && SpecialProto(h, visitorScheme) == visitorScheme(h["cf-visitor"]))
  {
  }

  /** `cf-visitor: {}` or unparseable text alone gives no opinion, so the protocol already chosen stays. */
  lemma BadVisitorNoOpinion(h: Headers, visitorScheme: string -> Option<string>)
    requires !HttpsFlag(h) && Present(h, "cf-visitor") && visitorScheme(h["cf-visitor"]).None?
    ensures SpecialProto(h, visitorScheme).None?
  {
  }
}
