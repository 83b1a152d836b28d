/** The request headers as the engine sees them. */
module Http {
  import opened Wrappers

  /** Header names (lower-case, as Node delivers them) to their values, repeated headers already comma-joined. */
  type Headers = map<string, string>

  /** `req.headers[name]` is truthy: the header exists and its value is not empty. */
  predicate Present(h: Headers, name: string)
  {
    name in h && h[name] != ""
  }

  /** `req.headers[name]` for a strict comparison: `None` stands for `undefined`. */
  function Lookup(h: Headers, name: string): Option<string>
  {
    if name in h then Some(h[name]) else None
  }
}
