/** Vocabulary shared by the parsers (src/lib.ts) and the policy object (src/index.ts). */
module Types {

  datatype Option<T> = None | Some(value: T)

  /** The source reports every failure by throwing; the model has one failure value. */
  datatype Result<T> = Ok(value: T) | Err

  type Feature = string

  /** A serialised origin (`scheme://host[:port]`), as `URL.prototype.origin` gives it. */
  type Origin = string

  /** `new URL(s).origin`: the origin of `s`, or None where the URL constructor throws. */
  type Canon = string -> Option<Origin>

  /**
   * A member of an allow-list set. Before normalisation a set may hold the symbolic
   * markers `'self'`, `'src'` and `'none'`; afterwards only concrete origins (and,
   * when no frame origin was supplied, `'src'`).
   */
  datatype Target = SelfMarker | SrcMarker | NoneMarker | Concrete(origin: Origin)

  /** `Set<AllowListValue> | "*" | false` */
  datatype AllowList = Wildcard | Deny | Targets(targets: set<Target>)

  type PolicyMap = map<Feature, AllowList>

  /**
   * A parsed policy. `normalized` stands for the value being an instance of the
   * `NormalizedParsedValue` class, the only thing `normalizeParsedValue` looks at
   * before deciding to return its argument unchanged.
   */
  datatype ParsedValue = ParsedValue(entries: PolicyMap, normalized: bool)

  /** The `string | ParsedValue` arguments of `parseAllow` and `parseHeader`. */
  datatype PolicyText = Text(text: string) | Value(value: ParsedValue)

  /** `Map.prototype.get`: undefined when the feature has no entry. */
  function Lookup(m: PolicyMap, f: Feature): (r: Option<AllowList>)
    ensures r.Some? <==> f in m
    ensures r.Some? ==> r.value == m[f]
  {
    if f in m then Some(m[f]) else None
  }
}
