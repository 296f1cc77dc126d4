/**
 * The normaliser and the policy object of src/index.ts: resolving the `'self'`,
 * `'src'` and `'none'` markers against concrete origins, and deciding whether a
 * feature is allowed for an origin from the header, the frame's `allow`
 * attribute and the per-feature defaults.
 */
module Policy {
  import opened Types
  import opened Lib

  // ---------------------------------------------------------------------------
  // normalizeParsedValue (src/index.ts:174-209)
  // ---------------------------------------------------------------------------

  /** `srcOrigin` is tested for truthiness: absent and the empty string both count as not given. */
  predicate Supplied(src: Option<Origin>) {
    src.Some? && src.value != ""
  }

  /** `'self'` replaced by the page origin. */
  function ResolveSelf(s: set<Target>, selfOrigin: Origin): set<Target> {
    if SelfMarker in s then s - {SelfMarker} + {Concrete(selfOrigin)} else s
  }

  /** `'src'` replaced by the frame origin, when one is given. */
  function ResolveSrc(s: set<Target>, src: Option<Origin>): set<Target> {
    if SrcMarker in s && Supplied(src) then s - {SrcMarker} + {Concrete(src.value)} else s
  }

  /**
   * What one pass of the loop body makes of one entry: `Wildcard` and `Deny` stay
   * as they are, and a set comes out without `'self'` or `'none'`, and without
   * `'src'` once a frame origin is given.
   */
  function NormalizeEntry(v: AllowList, selfOrigin: Origin, src: Option<Origin>): (r: AllowList)
    ensures r.Wildcard? <==> v.Wildcard?
    ensures r.Deny? <==> v.Deny?
    ensures r.Targets? ==>
              && SelfMarker !in r.targets && NoneMarker !in r.targets
              && (Supplied(src) ==> SrcMarker !in r.targets)
  {
    match v
    case Wildcard => Wildcard
    case Deny => Deny
    case Targets(s) =>
      if s == {} && Supplied(src) then Targets({Concrete(src.value)})
      else if NoneMarker in s then Targets({})
      else Targets(ResolveSrc(ResolveSelf(s, selfOrigin), src))
  }

  /** The result of `normalizeParsedValue`, entry by entry; a tagged value is returned as it is. */
  function NormalizedValue(parsed: ParsedValue, selfOrigin: Origin, src: Option<Origin>): (r: ParsedValue)
    ensures r.normalized
    ensures parsed.normalized ==> r == parsed
    ensures r.entries.Keys == parsed.entries.Keys
  {
    if parsed.normalized then parsed
    else
      ParsedValue(map k | k in parsed.entries :: NormalizeEntry(parsed.entries[k], selfOrigin, src), true)
  }

  /**
   * `normalizeParsedValue` (src/index.ts:175-209): walks a copy of the map and
   * rewrites each set entry; `Wildcard` and `Deny` entries are skipped.
   */
  method NormalizeParsedValue(parsed: ParsedValue, selfOrigin: Origin, src: Option<Origin>)
    returns (r: ParsedValue)
    ensures r == NormalizedValue(parsed, selfOrigin, src)
  {
    if parsed.normalized {
      return parsed;
    }
    var result := parsed.entries;
    var todo := parsed.entries.Keys;
    while todo != {}
      invariant todo <= parsed.entries.Keys
      invariant result.Keys == parsed.entries.Keys
      invariant forall k <- result ::
                  result[k] == if k in todo then parsed.entries[k]
                               else NormalizeEntry(parsed.entries[k], selfOrigin, src)
      decreases todo
    {
      var k :| k in todo;
      todo := todo - {k};
      var v := result[k];
      if v.Wildcard? || v.Deny? {
        continue;
      }
      var s := v.targets;
      if |s| == 0 && Supplied(src) {
        result := result[k := Targets(s + {Concrete(src.value)})];
        continue;
      }
      if NoneMarker in s {
        result := result[k := Targets({})];
      }
      if SelfMarker in s {
        s := s - {SelfMarker} + {Concrete(selfOrigin)};
      }
      if SrcMarker in s && Supplied(src) {
        s := s - {SrcMarker} + {Concrete(src.value)};
      }
      // The source edits the entry's set in place, which is what the map still
      // holds unless a `'none'` marker made it store a fresh empty set.
      if NoneMarker !in s {
        result := result[k := Targets(s)];
      }
    }
    return ParsedValue(result, true);
  }

  /**
   * Normalising keeps the key set, tags the result, and leaves `Wildcard` and
   * `Deny` entries as they are. An empty set becomes the frame origin when one is
   * given and stays empty otherwise; a set with `'none'` becomes empty.
   */
  lemma NormalizeShape(parsed: ParsedValue, selfOrigin: Origin, src: Option<Origin>)
    requires !parsed.normalized
    ensures var r := NormalizedValue(parsed, selfOrigin, src);
            && r.normalized
            && r.entries.Keys == parsed.entries.Keys
            && (forall k <- parsed.entries :: parsed.entries[k].Wildcard? ==> r.entries[k] == Wildcard)
            && (forall k <- parsed.entries :: parsed.entries[k].Deny? ==> r.entries[k] == Deny)
            && (forall k <- parsed.entries :: parsed.entries[k] == Targets({}) ==>
                  r.entries[k] == if Supplied(src) then Targets({Concrete(src.value)}) else Targets({}))
            && (forall k <- parsed.entries ::
                  parsed.entries[k].Targets? && NoneMarker in parsed.entries[k].targets ==>
                    r.entries[k] == Targets({}))
  {
  }

  /**
   * A non-empty set without `'none'`: `'self'` is replaced by the page origin,
   * `'src'` by the frame origin only when one is given, and every other member is
   * kept.
   */
  lemma NormalizeMembers(s: set<Target>, selfOrigin: Origin, src: Option<Origin>, x: Target)
    requires s != {} && NoneMarker !in s
    ensures NormalizeEntry(Targets(s), selfOrigin, src).Targets?
    ensures x in NormalizeEntry(Targets(s), selfOrigin, src).targets <==>
              || (x in s && x != SelfMarker && (x != SrcMarker || !Supplied(src)))
              || (x == Concrete(selfOrigin) && SelfMarker in s)
              || (Supplied(src) && x == Concrete(src.value) && SrcMarker in s)
  {
  }

  /**
   * After normalising an untagged value no entry holds a `'self'` or `'none'`
   * marker, and a `'src'` marker survives only when no frame origin was given.
   */
  lemma NoMarkersSurvive(parsed: ParsedValue, selfOrigin: Origin, src: Option<Origin>)
    requires !parsed.normalized
    ensures var r := NormalizedValue(parsed, selfOrigin, src);
            forall k <- r.entries :: r.entries[k].Targets? ==>
              && SelfMarker !in r.entries[k].targets
              && NoneMarker !in r.entries[k].targets
              && (Supplied(src) ==> SrcMarker !in r.entries[k].targets)
  {
  }

  /** Normalising twice is normalising once: the tag makes the second call return its argument. */
  lemma NormalizeIdempotent(parsed: ParsedValue, selfOrigin: Origin, src: Option<Origin>)
    ensures var once := NormalizedValue(parsed, selfOrigin, src);
            NormalizedValue(once, selfOrigin, src) == once
  {
  }

  /**
   * The tag is needed: rewriting an entry a second time changes it exactly when
   * it is a set with `'none'` and a frame origin is given (the empty set it became
   * would then turn into the frame origin).
   */
  lemma EntryIdempotentIff(v: AllowList, selfOrigin: Origin, src: Option<Origin>)
    ensures var once := NormalizeEntry(v, selfOrigin, src);
            NormalizeEntry(once, selfOrigin, src) == once <==>
              !(Supplied(src) && v.Targets? && NoneMarker in v.targets)
  {
    var once := NormalizeEntry(v, selfOrigin, src);
    if v.Targets? && v.targets != {} && NoneMarker !in v.targets {
      var s := v.targets;
      var t := once.targets;
      assert t != {} by {
        var x :| x in s;
        NormalizeMembers(s, selfOrigin, src, x);
        if x == SelfMarker {
          NormalizeMembers(s, selfOrigin, src, Concrete(selfOrigin));
        } else if x == SrcMarker && Supplied(src) {
          NormalizeMembers(s, selfOrigin, src, Concrete(src.value));
        }
      }
      NormalizeMembers(s, selfOrigin, src, SelfMarker);
      NormalizeMembers(s, selfOrigin, src, NoneMarker);
      NormalizeMembers(s, selfOrigin, src, SrcMarker);
      assert ResolveSrc(ResolveSelf(t, selfOrigin), src) == t;
    } else if v.Targets? && NoneMarker in v.targets && Supplied(src) {
      assert NormalizeEntry(once, selfOrigin, src) == Targets({Concrete(src.value)});
    }
  }

  // ---------------------------------------------------------------------------
  // PermissionsPolicy (src/index.ts:11-172)
  // ---------------------------------------------------------------------------

  /** The four default allow-lists a caller may give a feature. */
  datatype DefaultAllowlist = DefaultWildcard | DefaultSelf | DefaultNone | DefaultSrc

  /** The `frame` constructor parameter: the `allow` attribute and the frame's origin. */
  datatype FrameInfo = FrameInfo(allow: PolicyText, origin: string)

  /**
   * A policy instance. Every field of the source class is `readonly` and set once
   * in the constructor, so an instance is a value. A top-level policy keeps the
   * field initialiser's frame: an empty untagged map and the empty origin.
   */
  datatype PermissionsPolicy = PermissionsPolicy(
    origin: Origin,
    header: ParsedValue,
    defaultAllowList: map<Feature, DefaultAllowlist>,
    frameAllow: ParsedValue,
    frameOrigin: Origin,
    isIframePolicy: bool)

  /** A policy built without a frame. */
  predicate TopLevel(p: PermissionsPolicy) {
    !p.isIframePolicy && p.frameOrigin == "" && p.frameAllow == ParsedValue(map[], false)
  }

  /**
   * The constructor's outcome: it fails when the page origin, the header or the
   * frame origin is rejected; otherwise the header is normalised against the page
   * origin and the frame's `allow` against the page and frame origins.
   */
  function Construct(canon: Canon, dict: DictionaryParser, origin: string, headerValue: PolicyText,
                     defaultAllowlist: Option<map<Feature, DefaultAllowlist>>, frame: Option<FrameInfo>)
    : (r: Result<PermissionsPolicy>)
    ensures r.Ok? <==>
              && canon(origin).Some?
              && ParsedHeader(canon, dict, headerValue).Ok?
              && (frame.Some? ==> canon(frame.value.origin).Some?)
    ensures r.Ok? ==>
              && r.value.origin == canon(origin).value
              && r.value.header ==
                   NormalizedValue(ParsedHeader(canon, dict, headerValue).value, r.value.origin, None)
              && r.value.header.normalized
              && r.value.defaultAllowList ==
                   (if defaultAllowlist.Some? then defaultAllowlist.value else map[])
    ensures r.Ok? && frame.None? ==> TopLevel(r.value)
    ensures r.Ok? && frame.Some? ==>
              && r.value.frameOrigin == canon(frame.value.origin).value
              && r.value.frameAllow ==
                   NormalizedValue(ParsedAllow(canon, frame.value.allow), r.value.origin,
                                   Some(r.value.frameOrigin))
              && r.value.frameAllow.normalized
              && (r.value.isIframePolicy <==> frame.value.origin != "")
  {
    match canon(origin)
    case None => Err
    case Some(selfOrigin) =>
      match ParsedHeader(canon, dict, headerValue)
      case Err => Err
      case Ok(parsedHeader) =>
        var header := NormalizedValue(parsedHeader, selfOrigin, None);
        var defaults := if defaultAllowlist.Some? then defaultAllowlist.value else map[];
        match frame
        case None =>
          Ok(PermissionsPolicy(selfOrigin, header, defaults, ParsedValue(map[], false), "", false))
        case Some(f) =>
          match canon(f.origin)
          case None => Err
          case Some(frameOrigin) =>
            var allow := NormalizedValue(ParsedAllow(canon, f.allow), selfOrigin, Some(frameOrigin));
            Ok(PermissionsPolicy(selfOrigin, header, defaults, allow, frameOrigin, f.origin != ""))
  }

  /**
   * The constructor (src/index.ts:54-75): canonicalises the page origin, parses
   * and normalises the header, stores the defaults, and for a frame canonicalises
   * its origin and parses and normalises its `allow` attribute.
   */
  method New(canon: Canon, dict: DictionaryParser, origin: string, headerValue: PolicyText,
             defaultAllowlist: Option<map<Feature, DefaultAllowlist>>, frame: Option<FrameInfo>)
    returns (r: Result<PermissionsPolicy>)
    ensures r == Construct(canon, dict, origin, headerValue, defaultAllowlist, frame)
  {
    var selfOrigin := canon(origin);
    if selfOrigin.None? {
      return Err;
    }
    var parsedHeader := ParseHeader(canon, dict, headerValue);
    if parsedHeader.Err? {
      return Err;
    }
    var header := NormalizeParsedValue(parsedHeader.value, selfOrigin.value, None);
    var defaults := if defaultAllowlist.Some? then defaultAllowlist.value else map[];
    if frame.None? {
      return Ok(PermissionsPolicy(selfOrigin.value, header, defaults, ParsedValue(map[], false), "", false));
    }
    var frameOrigin := canon(frame.value.origin);
    if frameOrigin.None? {
      return Err;
    }
    var parsedAllow := ParseAllow(canon, frame.value.allow);
    var allow := NormalizeParsedValue(parsedAllow, selfOrigin.value, Some(frameOrigin.value));
    return Ok(PermissionsPolicy(selfOrigin.value, header, defaults, allow, frameOrigin.value,
                                frame.value.origin != ""));
  }

  /**
   * `inherit` (src/index.ts:77-87): a new policy from this one's page origin,
   * header and defaults and the given frame. This policy's own frame plays no
   * part, and an already-normalised header is carried over as it is.
   */
  function Inherit(p: PermissionsPolicy, canon: Canon, dict: DictionaryParser, frameInfo: FrameInfo)
    : (r: Result<PermissionsPolicy>)
    ensures r.Ok? <==> canon(p.origin).Some? && canon(frameInfo.origin).Some?
    ensures r.Ok? ==> r.value.defaultAllowList == p.defaultAllowList
    ensures r.Ok? && p.header.normalized ==> r.value.header == p.header
    ensures r.Ok? && canon(p.origin) == Some(p.origin) ==>
              && r.value.origin == p.origin
              && r.value.frameOrigin == canon(frameInfo.origin).value
              && r.value.frameAllow ==
                   NormalizedValue(ParsedAllow(canon, frameInfo.allow), p.origin, Some(r.value.frameOrigin))
  {
    Construct(canon, dict, p.origin, Value(p.header), Some(p.defaultAllowList), Some(frameInfo))
  }

  /**
   * `origin ? new URL(origin).origin : this.#frame.origin || this.#origin`: the
   * origin that is checked. An absent or empty argument means the frame origin,
   * or the page origin when there is none; any other argument is canonicalised and
   * a rejected one makes the call throw.
   */
  function CheckedOrigin(p: PermissionsPolicy, canon: Canon, origin: Option<string>): (r: Result<Origin>)
    ensures origin.None? || origin == Some("") ==>
              r == Ok(if p.frameOrigin != "" then p.frameOrigin else p.origin)
    ensures origin.Some? && origin.value != "" ==>
              (r.Err? <==> canon(origin.value).None?) && (r.Ok? ==> r.value == canon(origin.value).value)
  {
    if origin.Some? && origin.value != "" then
      match canon(origin.value)
      case None => Err
      case Some(o) => Ok(o)
    else
      Ok(if p.frameOrigin != "" then p.frameOrigin else p.origin)
  }

  /**
   * `#defaultAllows` (src/index.ts:118-138); an absent default behaves as `'self'`.
   * `'none'` never allows; `*` does not depend on the origin; any other default
   * allows one origin at most; and in a frame only `'src'` reaches past a
   * same-origin frame.
   */
  function DefaultAllows(p: PermissionsPolicy, fromDefault: Option<DefaultAllowlist>, origin: Origin): (r: bool)
    ensures fromDefault == Some(DefaultNone) ==> !r
    ensures fromDefault == Some(DefaultWildcard) ==> (r <==> !p.isIframePolicy || p.frameOrigin == p.origin)
    ensures r && fromDefault != Some(DefaultWildcard) ==>
              origin == if fromDefault == Some(DefaultSrc) || p.isIframePolicy then p.frameOrigin else p.origin
    ensures r && p.isIframePolicy && fromDefault != Some(DefaultSrc) ==> p.frameOrigin == p.origin
  {
    match fromDefault
    case Some(DefaultNone) => false
    case Some(DefaultWildcard) => if p.isIframePolicy then p.frameOrigin == p.origin else true
    case Some(DefaultSrc) => p.frameOrigin == origin
    case _ =>
      if p.isIframePolicy then p.frameOrigin == p.origin && p.frameOrigin == origin
      else p.origin == origin
  }

  /**
   * `#headerAllows` (src/index.ts:140-151): an absent entry and `*` do not
   * restrict, `Deny` refuses every origin, and a set admits exactly its members.
   */
  function HeaderAllows(origin: Origin, fromHeader: Option<AllowList>): (r: bool)
    ensures fromHeader.None? || fromHeader == Some(Wildcard) ==> r
    ensures fromHeader == Some(Deny) ==> !r
    ensures fromHeader.Some? && fromHeader.value.Targets? ==> (r <==> Concrete(origin) in fromHeader.value.targets)
  {
    match fromHeader
    case None => true
    case Some(Wildcard) => true
    case Some(Deny) => false
    case Some(Targets(s)) => Concrete(origin) in s
  }

  /**
   * `#frameAllows` (src/index.ts:153-171): no gate at top level. In a frame,
   * `Deny` refuses everything; an absent entry admits only a same-origin frame's
   * own origin; `*` only the frame origin; and a set an origin exactly when it
   * lists both that origin and the frame origin.
   */
  function FrameAllows(p: PermissionsPolicy, origin: Origin, fromIframe: Option<AllowList>): (r: bool)
    ensures !p.isIframePolicy ==> r
    ensures p.isIframePolicy && fromIframe == Some(Deny) ==> !r
    ensures p.isIframePolicy && fromIframe.None? ==> (r <==> p.frameOrigin == p.origin && origin == p.origin)
    ensures p.isIframePolicy && fromIframe == Some(Wildcard) ==> (r <==> origin == p.frameOrigin)
    ensures p.isIframePolicy && fromIframe.Some? && fromIframe.value.Targets? ==>
              (r <==> Concrete(origin) in fromIframe.value.targets && Concrete(p.frameOrigin) in fromIframe.value.targets)
  {
    if !p.isIframePolicy then true
    else
      match fromIframe
      case None => if p.frameOrigin == p.origin then p.frameOrigin == origin else false
      case Some(Wildcard) => origin == p.frameOrigin
      case Some(Deny) => false
      case Some(Targets(s)) => Concrete(origin) in s && Concrete(p.frameOrigin) in s
  }

  function DefaultFor(p: PermissionsPolicy, feature: Feature): Option<DefaultAllowlist> {
    if feature in p.defaultAllowList then Some(p.defaultAllowList[feature]) else None
  }

  /**
   * The decision for an already-resolved checked origin (src/index.ts:93-115):
   * the default decides only when neither the header nor the frame names the
   * feature; otherwise both the header and the frame must allow the origin.
   */
  function Decide(p: PermissionsPolicy, feature: Feature, origin: Origin): (r: bool)
    ensures feature !in p.header.entries && feature !in p.frameAllow.entries ==>
              r == DefaultAllows(p, DefaultFor(p, feature), origin)
    ensures r && feature in p.header.entries ==> HeaderAllows(origin, Some(p.header.entries[feature]))
    ensures r && (feature in p.header.entries || feature in p.frameAllow.entries) ==>
              FrameAllows(p, origin, Lookup(p.frameAllow.entries, feature))
  {
    var fromHeader := Lookup(p.header.entries, feature);
    var fromIframe := Lookup(p.frameAllow.entries, feature);
    if fromHeader.None? && fromIframe.None? then DefaultAllows(p, DefaultFor(p, feature), origin)
    else HeaderAllows(origin, fromHeader) && FrameAllows(p, origin, fromIframe)
  }

  /** `allowsFeature` (src/index.ts:92-116). */
  function AllowsFeature(p: PermissionsPolicy, canon: Canon, feature: Feature, origin: Option<string>)
    : (r: Result<bool>)
    ensures r.Err? <==> CheckedOrigin(p, canon, origin).Err?
    ensures r.Ok? ==> r.value == Decide(p, feature, CheckedOrigin(p, canon, origin).value)
  {
    match CheckedOrigin(p, canon, origin)
    case Err => Err
    case Ok(o) => Ok(Decide(p, feature, o))
  }
  // ---------------------------------------------------------------------------
  // Properties of the decision
  // ---------------------------------------------------------------------------

  /**
   * When neither the header nor the frame's `allow` names the feature, the
   * default decides: `'none'` never allows; `*` allows everywhere at top level and
   * in a frame only when the frame is same-origin with the page; `'src'` allows
   * the frame origin; `'self'`, like an absent default, allows the page origin at
   * top level and in a frame only a same-origin frame's own origin.
   */
  lemma SilentUsesDefault(p: PermissionsPolicy, feature: Feature, o: Origin)
    requires feature !in p.header.entries && feature !in p.frameAllow.entries
    ensures var d := DefaultFor(p, feature);
            && (d == Some(DefaultNone) ==> !Decide(p, feature, o))
            && (d == Some(DefaultWildcard) ==>
                  (Decide(p, feature, o) <==> !p.isIframePolicy || p.frameOrigin == p.origin))
            && (d == Some(DefaultSrc) ==> (Decide(p, feature, o) <==> o == p.frameOrigin))
            && (d.None? || d == Some(DefaultSelf) ==>
                  (Decide(p, feature, o) <==>
                     if p.isIframePolicy then p.frameOrigin == p.origin && o == p.origin
                     else o == p.origin))
  {
  }

  /** A feature the header sets to `()` (or `none`) is denied to every origin. */
  lemma HeaderDenyDenies(p: PermissionsPolicy, feature: Feature, o: Origin)
    requires feature in p.header.entries && p.header.entries[feature] == Deny
    ensures !Decide(p, feature, o)
  {
  }

  /**
   * A named feature is allowed exactly where both the header and the frame allow
   * it. At top level the header alone decides. In a frame whose `allow` names
   * the feature, `*` admits the frame origin and no other, `'none'` admits
   * nothing, and a set admits an origin iff it lists that origin and the frame
   * origin; in every case the header must allow the origin too.
   */
  lemma NamedFeatureNeedsBoth(p: PermissionsPolicy, feature: Feature, o: Origin)
    requires feature in p.header.entries || feature in p.frameAllow.entries
    ensures !p.isIframePolicy ==> (Decide(p, feature, o) <==> HeaderAllows(o, Lookup(p.header.entries, feature)))
    ensures p.isIframePolicy && feature in p.frameAllow.entries ==>
              (Decide(p, feature, o) <==>
                 && HeaderAllows(o, Lookup(p.header.entries, feature))
                 && match p.frameAllow.entries[feature]
                    case Wildcard => o == p.frameOrigin
                    case Deny => false
                    case Targets(s) => Concrete(o) in s && Concrete(p.frameOrigin) in s)
    ensures Decide(p, feature, o) ==> HeaderAllows(o, Lookup(p.header.entries, feature))
    ensures Decide(p, feature, o) && feature in p.header.entries && p.header.entries[feature].Targets? ==>
              Concrete(o) in p.header.entries[feature].targets
    ensures Decide(p, feature, o) && p.isIframePolicy && feature in p.frameAllow.entries ==>
              && p.frameAllow.entries[feature] != Deny
              && (p.frameAllow.entries[feature] == Wildcard ==> o == p.frameOrigin)
              && (p.frameAllow.entries[feature].Targets? ==>
                    Concrete(o) in p.frameAllow.entries[feature].targets &&
                    Concrete(p.frameOrigin) in p.frameAllow.entries[feature].targets)
  {
  }

  /**
   * In a frame whose `allow` does not name a feature the header does name, only
   * a same-origin frame can use the feature, and only for its own origin.
   */
  lemma UnlistedInFrame(p: PermissionsPolicy, feature: Feature, o: Origin)
    requires p.isIframePolicy && feature in p.header.entries && feature !in p.frameAllow.entries
    ensures Decide(p, feature, o) <==>
              HeaderAllows(o, Some(p.header.entries[feature])) && p.frameOrigin == p.origin && o == p.origin
  {
  }

  /** At top level the frame plays no part: a named feature is decided by the header alone. */
  lemma TopLevelHeaderOnly(canon: Canon, dict: DictionaryParser, origin: string, headerValue: PolicyText,
                           defaults: Option<map<Feature, DefaultAllowlist>>, feature: Feature, o: Origin)
    requires Construct(canon, dict, origin, headerValue, defaults, None).Ok?
    ensures var p := Construct(canon, dict, origin, headerValue, defaults, None).value;
            feature in p.header.entries ==>
              (Decide(p, feature, o) <==> HeaderAllows(o, Some(p.header.entries[feature])))
  {
  }

  /** The decision about one feature depends on that feature's entries and default alone. */
  lemma DecisionIsPerFeature(p: PermissionsPolicy, q: PermissionsPolicy, feature: Feature, o: Origin)
    requires p.origin == q.origin && p.frameOrigin == q.frameOrigin && p.isIframePolicy == q.isIframePolicy
    requires Lookup(p.header.entries, feature) == Lookup(q.header.entries, feature)
    requires Lookup(p.frameAllow.entries, feature) == Lookup(q.frameAllow.entries, feature)
    requires DefaultFor(p, feature) == DefaultFor(q, feature)
    ensures Decide(p, feature, o) == Decide(q, feature, o)
  {
  }

  /**
   * A header parsed from text holds only concrete origins once normalised: every
   * `self` has become the page origin, and a header set is never empty.
   */
  lemma {:induction false} HeaderTargetsConcrete(canon: Canon, dict: DictionaryParser, origin: string,
                                                 text: string, defaults: Option<map<Feature, DefaultAllowlist>>,
                                                 frame: Option<FrameInfo>)
    requires Construct(canon, dict, origin, Text(text), defaults, frame).Ok?
    ensures var p := Construct(canon, dict, origin, Text(text), defaults, frame).value;
            forall f <- p.header.entries :: p.header.entries[f].Targets? ==>
              p.header.entries[f].targets != {} &&
              forall x <- p.header.entries[f].targets :: x.Concrete?
  {
    var p := Construct(canon, dict, origin, Text(text), defaults, frame).value;
    var members := dict(text).value;
    var parsed := ParsedValue(HeaderFold(canon, members).value, false);
    assert p.header == NormalizedValue(parsed, p.origin, None);
    HeaderFoldEntries(canon, members);
    NoMarkersSurvive(parsed, p.origin, None);
    forall f <- p.header.entries | p.header.entries[f].Targets?
      ensures p.header.entries[f].targets != {}
      ensures forall x <- p.header.entries[f].targets :: x.Concrete?
    {
      var s := parsed.entries[f].targets;
      forall x <- p.header.entries[f].targets ensures x.Concrete? {
        NormalizeMembers(s, p.origin, None, x);
      }
      var y :| y in s;
      NormalizeMembers(s, p.origin, None, y);
      if y == SelfMarker {
        NormalizeMembers(s, p.origin, None, Concrete(p.origin));
      }
    }
  }

  /**
   * A frame policy made by `inherit` is never more permissive than the header it
   * inherits: it denies what the header denies, and where the header names
   * origins it allows only those.
   */
  lemma InheritNarrows(p: PermissionsPolicy, canon: Canon, dict: DictionaryParser, frameInfo: FrameInfo,
                       feature: Feature, o: Origin)
    requires p.header.normalized
    requires Inherit(p, canon, dict, frameInfo).Ok?
    requires feature in p.header.entries
    ensures var c := Inherit(p, canon, dict, frameInfo).value;
            Decide(c, feature, o) ==> HeaderAllows(o, Some(p.header.entries[feature]))
  {
  }

  /**
   * Inheriting from an inherited policy is inheriting from the original: only the
   * last frame counts, as long as the page origin is already canonical.
   */
  lemma InheritChain(p: PermissionsPolicy, canon: Canon, dict: DictionaryParser, first: FrameInfo,
                     second: FrameInfo)
    requires p.header.normalized && canon(p.origin) == Some(p.origin)
    requires Inherit(p, canon, dict, first).Ok?
    ensures Inherit(Inherit(p, canon, dict, first).value, canon, dict, second) == Inherit(p, canon, dict, second)
  {
  }

  /**
   * Without an origin argument a frame policy checks the frame's own origin, and a
   * top-level policy the page origin.
   */
  lemma DefaultCheckedOrigin(canon: Canon, dict: DictionaryParser, origin: string, headerValue: PolicyText,
                             defaults: Option<map<Feature, DefaultAllowlist>>, frame: Option<FrameInfo>,
                             feature: Feature)
    requires Construct(canon, dict, origin, headerValue, defaults, frame).Ok?
    ensures var p := Construct(canon, dict, origin, headerValue, defaults, frame).value;
            && (frame.None? ==> AllowsFeature(p, canon, feature, None) == Ok(Decide(p, feature, p.origin)))
            && (frame.Some? && p.frameOrigin != "" ==>
                  AllowsFeature(p, canon, feature, None) == Ok(Decide(p, feature, p.frameOrigin)))
  {
  }
}
