# permissions-policy-allows-feature, modelled in Dafny

This project models the core of the `permissions-policy-allows-feature` package. Its
`PermissionsPolicy` class exposes an `allowsFeature(feature, origin?)` method modelled on the
browser's `featurePolicy.allowsFeature` API. The method answers for a page or an embedded frame.
The inputs are the page's `Permissions-Policy` header, the frame's `allow` attribute and a table
of per-feature default allow-lists. The package's own rule for a `*` in a frame's `allow` is
modelled as written (src/index.ts:163-165); the code marks that rule as unsettled.

The model has five modules:

- `Types` (types.dfy) holds the shared vocabulary. An allow-list is `Wildcard` (the source's
  `"*"`), `Deny` (the source's `false`) or `Targets(set)`. A set member is a marker
  (`'self'`, `'src'`, `'none'`) or a concrete origin. A parsed policy is a map from feature to
  allow-list. Its `normalized` flag stands for the value being a `NormalizedParsedValue`
  instance.
- `Tokenize` (tokenize.dfy) holds the string work `parseAllow` does before it reads any token.
  It splits on `;` and on whitespace, trims with JavaScript's whitespace set, and drops blank
  pieces. Splitting on `;` alone and then trimming gives the same directives as splitting on
  `/;\s*/`. Splitting on each whitespace character and dropping the empty pieces gives the same
  tokens as splitting on `/\s+/`.
- `Lib` (lib.dfy) covers src/lib.ts:
  - `parseAllow` is the method `ParseAllow`. Its directive loop is the method `SetDirectives`,
    and its inner loop over targets is the method `CollectTargets`.
  - `addIfOrigin` is a method without a loop.
  - `parseHeader` and `getAllowListForParsedDictMember` are methods with loops.
  - Every method with a loop is proved equal to a specification function. The lemmas state
    that function's properties: which features end up in the map, that the last directive or member for a
    feature wins, exactly when the header fails, and exactly which origins a set holds.
- `Policy` (policy.dfy) covers src/index.ts:
  - `normalizeParsedValue` is a method with a loop over the map's keys.
  - A policy instance is a value, because every field of the class is `readonly` and set once in
    the constructor. The constructor is the method `New`, proved equal to the function
    `Construct`.
  - `inherit`, `allowsFeature` and its three helpers (`#defaultAllows`, `#headerAllows`,
    `#frameAllows`) are functions. The lemmas state how a decision follows from the header, the
    frame and the default.
- `Scenarios` (scenarios.dfy) restates cases from the repository's own test tables as lemmas.
  Each case holds for every URL canonicaliser and dictionary parser that give the answers the
  case relies on.

Two collaborators are parameters.

- `new URL(s).origin` is `canon: string -> Option<Origin>`. It gives `None` where the URL
  constructor throws.
- The structured-headers `parseDictionary` (the Dictionary grammar of section 3.2 of RFC 8941) is
  `dict: string -> Result<ParsedDictionary>`. A `ParsedDictionary` is a member list in which no
  key occurs twice. The parser returns a `Map`, and section 4.2.2 of RFC 8941 overwrites the
  earlier value of a repeated key. So the header text `fullscreen, fullscreen=*` reaches the
  member loop as the single member `fullscreen=*`.

JavaScript truthiness is written out in the model:

- a frame origin counts as given only when it is present and non-empty;
- an empty `origin` argument means the default origin;
- `frame.origin || origin` picks the page origin when the frame origin is empty;
- `isIframePolicy` holds when a frame is given and its raw origin is non-empty.

Three points about what the code does:

- **`allowsFeature` can throw.** It calls `new URL` on a non-empty origin argument
  (src/index.ts:98-100), and that throws for a string that is not a URL. `AllowsFeature`
  returns `Result<bool>`, and `Err` is that throw.
- **Normalising twice is avoided by an `instanceof NormalizedParsedValue` check**
  (src/index.ts:180-183), not by looking at the entries. `NormalizeIdempotent` proves the check
  makes a second call a no-op. `EntryIdempotentIff` shows that rewriting the entries a second
  time would not be a no-op. That happens exactly when a set holding `'none'` meets a given frame
  origin.
- **`parseAllow` and `parseHeader` return a pre-parsed value unchanged.** They do not check it.

## Model

| member | source | states |
|---|---|---|
| Tokenize.Split | src/lib.ts:11-12 | splitting yields at least one piece, and no piece contains a separator character |
| Tokenize.SplitJoin | src/lib.ts:23 | splitting on one character loses nothing: joining the pieces with it rebuilds the input |
| Tokenize.SplitNoSeparator | src/lib.ts:23 | text without a separator is a single piece |
| Tokenize.SplitAtFirst | src/lib.ts:23 | the first piece is the text up to the first separator, and the rest is split independently |
| Tokenize.TrimStart | src/lib.ts:23 | the result is a suffix of the input, everything dropped is whitespace, and it does not start with whitespace |
| Tokenize.TrimEnd | src/lib.ts:23 | the result is a prefix of the input, everything dropped is whitespace, and it does not end with whitespace |
| Tokenize.Trim | src/lib.ts:23 | the result has no whitespace at either end; it is empty exactly when the input is all whitespace; text without whitespace is unchanged |
| Tokenize.TrimIsMiddle | src/lib.ts:23 | the trim is a contiguous part of the input, and everything cut off before and after it is whitespace; with `Trim`'s ends this fixes the result |
| Tokenize.NonBlankTrimmed | src/lib.ts:23-24 | every kept piece is non-empty and trimmed, and no more pieces come out than went in |
| Tokenize.NonBlankTrimmedAppend | src/lib.ts:23-24 | trimming and filtering distributes over concatenation, so the kept pieces are in input order |
| Tokenize.NonBlankTrimmedSingle | src/lib.ts:23-24 | one piece gives exactly its trim, or nothing when it is blank; with the append lemma this fixes the whole result |
| Tokenize.Directives | src/lib.ts:23-24 | every directive of the attribute text is non-empty and trimmed |
| Tokenize.DirectivesSplit | src/lib.ts:23-24 | the text before the first `;` gives its trim as the first directive, or nothing when blank, followed by the directives of the rest |
| Tokenize.DirectivesSkipBlank | src/lib.ts:23-24 | a blank piece between separators gives no directive |
| Tokenize.DirectivesLast | src/lib.ts:23-24 | text after the last `;` gives its trim as the last directive, or nothing when blank; with `DirectivesSplit` this fixes every directive |
| Tokenize.Tokens | src/lib.ts:25-28 | every token is non-empty and has no whitespace; empty text has no token; a directive has a first token, and it starts at the directive's first character |
| Tokenize.TokensSkipWhitespace | src/lib.ts:25-28 | leading whitespace gives no token; with `TokensCons` and `TokensSingle` this makes the tokens exactly the maximal whitespace-free runs |
| Tokenize.TrimKeepsTrimmed | src/lib.ts:23 | trimming is the identity on trimmed text, so trimming twice changes nothing |
| Tokenize.DirectivesCons | src/lib.ts:23-24 | a trimmed directive before the first `;` is the first directive, followed by the directives of the rest |
| Tokenize.DirectivesSingle | src/lib.ts:23-24 | trimmed text with no `;` is exactly one directive |
| Tokenize.TokensCons | src/lib.ts:25-28 | a word followed by whitespace is the first token, followed by the tokens of the rest |
| Tokenize.TokensSingle | src/lib.ts:25-28 | a word with no whitespace is exactly one token |
| Lib.OriginTarget | src/lib.ts:104-111 | a token gives a target exactly when the URL constructor accepts it, and the target is its origin |
| Lib.AddIfOrigin | src/lib.ts:104-111 | a URL token adds its origin to the set; a token that is not a URL leaves the set unchanged |
| Lib.TargetSet | src/lib.ts:40-47 | the set a directive builds never holds the `'none'` marker |
| Lib.TargetSetMembers | src/lib.ts:40-47 | exactly `'self'`, `'src'` and the origins of the URL targets are in a directive's set |
| Lib.DirectiveAllowList | src/lib.ts:30-48 | a directive gives `Wildcard` exactly when `*` is a target, `Deny` exactly when `'none'` is and `*` is not, and otherwise a set without the `'none'` marker |
| Lib.DirectiveRule | src/lib.ts:30-48 | `*` anywhere gives `Wildcard`, even beside `'none'`; otherwise `'none'` anywhere gives `Deny`; otherwise a set that holds `'self'` iff `'self'` is listed, `'src'` iff `'src'` is listed, and origin o iff some other target has origin o; no targets give the empty set |
| Lib.AllowFold | src/lib.ts:24-49 | no entry of the parsed attribute is a set that holds the `'none'` marker |
| Lib.AllowFoldKeys | src/lib.ts:24-49 | the parsed attribute has an entry for exactly the features its directives name |
| Lib.AllowFoldLastWins | src/lib.ts:24-49 | a feature's entry is the allow-list of the last directive that names it |
| Lib.AllowFoldSnoc | src/lib.ts:24-49 | one more directive sets its feature's entry and leaves every other entry as it was |
| Lib.ParseAllow | src/lib.ts:14-52 | a pre-parsed value comes back unchanged; text always gives an untagged map (it never fails), namely the fold of its directives |
| Lib.SetDirectives | src/lib.ts:24-49 | the directive loop builds exactly the fold of the directives, processed in order |
| Lib.CollectTargets | src/lib.ts:40-47 | the target loop builds exactly the directive's target set |
| Lib.FirstStop | src/lib.ts:83-93 | the scan position of a member's items is within the list |
| Lib.FirstStopIs | src/lib.ts:83-93 | the scan stops at k exactly when no earlier item stops it and item k, if there is one, does |
| Lib.FirstStopScan | src/lib.ts:83-93 | every item before the stop is a token or a string other than `*` and `none` |
| Lib.HeaderTargetSet | src/lib.ts:94-98 | a member's set never holds the `'src'` or `'none'` marker |
| Lib.HeaderTargetSetMembers | src/lib.ts:94-98 | exactly the `self` marker (for a `self` item) and the origins of the URL items are in a member's set |
| Lib.MemberAllowList | src/lib.ts:80-102 | a member's allow-list is never an empty set and never holds `'src'` or `'none'` |
| Lib.MemberRule | src/lib.ts:83-93 | the first stopping item decides: one that is neither token nor string fails, `*` gives `Wildcard`, `none` gives `Deny` |
| Lib.MemberTargets | src/lib.ts:94-101 | with no stopping item the member succeeds; it is `Deny` exactly when no item gives a target; otherwise its set holds exactly the items' targets |
| Lib.MemberCollects | src/lib.ts:101 | with no stopping item the member's allow-list is its collected set, or `Deny` when that set is empty |
| Lib.GetAllowListForParsedDictMember | src/lib.ts:80-102 | the item loop, including its early returns and its throw, computes exactly the member's allow-list |
| Lib.MemberResult | src/lib.ts:70-73 | a member whose value is `true` fails; any other member gets its allow-list, which is never an empty set and never holds `'src'` or `'none'` |
| Lib.HeaderFold | src/lib.ts:64-75 | a header that parses has no member without a value |
| Lib.HeaderFoldFails | src/lib.ts:69-75 | the header fails as a whole (no partial map) exactly when some member fails |
| Lib.FailingMember | src/lib.ts:69-75 | a failed header has a failing member |
| Lib.FailingMemberFails | src/lib.ts:69-75 | any failing member fails the header |
| Lib.HeaderFoldKeys | src/lib.ts:69-75 | a parsed header has an entry for exactly the dictionary's keys |
| Lib.HeaderFoldLastWins | src/lib.ts:69-75 | a feature's entry comes from the last member with that key |
| Lib.HeaderFoldEachMember | src/lib.ts:69-75 | in a dictionary the parser returns, each key occurs once, so every member's allow-list is its key's entry |
| Lib.HeaderFoldEntries | src/lib.ts:69-101 | no header entry is an empty set, and none holds `'src'` or `'none'` |
| Lib.ParseHeader | src/lib.ts:54-78 | a pre-parsed value comes back unchanged; text fails exactly when the dictionary does not parse or a member fails, and otherwise gives the untagged map of the fold |
| Policy.NormalizeEntry | src/index.ts:187-206 | `Wildcard` and `Deny` entries stay as they are; a set comes out without `'self'` or `'none'`, and without `'src'` once a frame origin is given |
| Policy.NormalizedValue | src/index.ts:180-208 | the result is tagged and has the input's keys; a tagged input comes back unchanged |
| Policy.NormalizeParsedValue | src/index.ts:175-209 | the loop over a copy of the map rewrites every entry as the entry rule says; a tagged value comes back unchanged |
| Policy.NormalizeShape | src/index.ts:186-197 | normalising keeps the keys and tags the result; `Wildcard` and `Deny` are kept; an empty set becomes the frame origin when one is given and stays empty otherwise; a set with `'none'` becomes empty |
| Policy.NormalizeMembers | src/index.ts:199-206 | in a non-empty set without `'none'`, `'self'` becomes the page origin, `'src'` becomes the frame origin only when one is given, and every other member is kept |
| Policy.NoMarkersSurvive | src/index.ts:186-207 | after normalising no entry holds `'self'` or `'none'`, and `'src'` survives only when no frame origin is given |
| Policy.NormalizeIdempotent | src/index.ts:180-183 | normalising twice equals normalising once |
| Policy.EntryIdempotentIff | src/index.ts:190-197 | rewriting an entry a second time changes it if and only if it is a set with `'none'` and a frame origin is given |
| Policy.Construct | src/index.ts:54-75 | construction succeeds iff the page origin, the header and (for a frame) the frame origin are all accepted; the header is normalised against the page origin, the `allow` against both origins; without a frame the policy is top-level; it is an iframe policy iff the raw frame origin is non-empty |
| Policy.New | src/index.ts:54-75 | the constructor computes exactly `Construct` |
| Policy.Inherit | src/index.ts:78-87 | it succeeds iff the page origin and the frame origin are URLs; it keeps the defaults and an already-normalised header as they are; with a canonical page origin it keeps that origin, and the new frame is the normalised `allow` |
| Policy.CheckedOrigin | src/index.ts:98-100 | an absent or empty argument checks the frame origin, or the page origin when there is none; any other argument is canonicalised, and one that is rejected is an error |
| Policy.DefaultAllows | src/index.ts:118-138 | `'none'` never allows; `*` does not depend on the origin and allows at top level or in a same-origin frame; every other default allows one origin at most (the frame origin for `'src'` or in a frame, the page origin at top level); in a frame only `'src'` can allow past a same-origin frame |
| Policy.HeaderAllows | src/index.ts:140-151 | an absent entry and `*` do not restrict, `Deny` refuses every origin, and a set admits exactly its members |
| Policy.FrameAllows | src/index.ts:153-171 | at top level there is no gate; in a frame, `Deny` refuses everything, an absent entry admits only a same-origin frame's own origin, `*` admits exactly the frame origin, and a set admits an origin iff it lists that origin and the frame origin |
| Policy.Decide | src/index.ts:93-115 | the default decides exactly when neither the header nor the frame names the feature; otherwise an allowed origin is allowed by the header entry and by the frame entry |
| Policy.AllowsFeature | src/index.ts:92-116 | the call throws exactly when the origin argument is rejected; otherwise it gives the decision for the checked origin |
| Policy.SilentUsesDefault | src/index.ts:118-138 | with neither header nor `allow` naming the feature: `'none'` never allows; `*` allows at top level, and in a frame only if the frame is same-origin with the page; `'src'` allows the frame origin; `'self'` or no default allows the page origin at top level, and in a frame only a same-origin frame's own origin |
| Policy.HeaderDenyDenies | src/index.ts:140-151 | a feature the header denies is denied to every origin |
| Policy.NamedFeatureNeedsBoth | src/index.ts:102-115 | when the header or the frame names a feature: at top level it is allowed iff the header allows the origin; in a frame whose `allow` names it, it is allowed iff the header allows the origin and in addition `*` has the origin equal to the frame origin, `Deny` never, and a set lists both the origin and the frame origin; an allowed origin is always in a header set that names the feature |
| Policy.UnlistedInFrame | src/index.ts:157-162 | in a frame whose `allow` omits a feature the header names, the feature is allowed iff the header allows the origin, the frame is same-origin with the page and the origin is the page origin |
| Policy.TopLevelHeaderOnly | src/index.ts:153-156 | at top level a feature the header names is decided by the header alone |
| Policy.DecisionIsPerFeature | src/index.ts:93-95 | a decision depends only on that feature's header entry, `allow` entry and default, and on the origins |
| Policy.HeaderTargetsConcrete | src/index.ts:58-61 | a header parsed from text and normalised holds only non-empty sets of concrete origins |
| Policy.InheritNarrows | src/index.ts:78-87 | a frame made by `inherit` allows no origin that the inherited header does not allow |
| Policy.InheritChain | src/index.ts:78-87 | with a canonical page origin, inheriting from an inherited policy equals inheriting from the original: only the last frame counts |
| Policy.DefaultCheckedOrigin | src/index.ts:98-100 | without an origin argument a top-level policy checks the page origin, and a frame policy the frame origin |
| Scenarios.ExampleAllowLists | test/lib.test.ts:42-68 | the example target lists give `Wildcard` for `*` and `* 'self'`, `Deny` for `'none'` and `'self' 'none'`, and the marker sets for `'self'`, `'src'` and `'self'` plus an origin |
| Scenarios.AllowEmpty | test/lib.test.ts:14 | empty attribute text names no feature |
| Scenarios.AllowSeparatorOnly | test/lib.test.ts:15 | a lone `;` names no feature |
| Scenarios.AllowFeatureOnly | test/lib.test.ts:19 | `fullscreen` gives the feature an empty set |
| Scenarios.AllowTwoFeatures | test/lib.test.ts:33-34 | `fullscreen;geolocation;` gives both features empty sets |
| Scenarios.AllowWildcard | test/lib.test.ts:43 | `fullscreen *` gives `Wildcard` |
| Scenarios.AllowWildcardWins | test/lib.test.ts:44 | `fullscreen * 'self'` gives `Wildcard` |
| Scenarios.AllowSelf | test/lib.test.ts:45 | `fullscreen 'self'` gives the `'self'` marker |
| Scenarios.AllowSrc | test/lib.test.ts:46 | `fullscreen 'src'` gives the `'src'` marker |
| Scenarios.AllowNone | test/lib.test.ts:47 | `fullscreen 'none'` gives `Deny` |
| Scenarios.AllowNoneWins | test/lib.test.ts:48-51 | `fullscreen 'self' 'none'` gives `Deny` |
| Scenarios.AllowOrigin | test/lib.test.ts:54-68 | a URL target is stored as its origin, beside the `'self'` marker |
| Scenarios.HeaderMissingValue | test/lib.test.ts:85 | a member without a value (`fullscreen`) fails the header |
| Scenarios.HeaderNoneToken | test/lib.test.ts:91 | the token `none` gives `Deny` |
| Scenarios.HeaderEmptyList | test/lib.test.ts:110 | `()` gives `Deny` |
| Scenarios.HeaderWildcardList | test/lib.test.ts:111 | `(*)` gives `Wildcard` |
| Scenarios.HeaderSelfList | test/lib.test.ts:112 | `(self)` gives the `'self'` marker |
| Scenarios.HeaderSelfAndOrigin | test/lib.test.ts:125-136 | `(self "https://example.com")` gives the `'self'` marker and the origin |
| Scenarios.TopLevelSelfDefault | test/index.test.ts:23-33 | with no header and a `'self'` default, the page may use the feature and another origin may not |
| Scenarios.TopLevelWildcardDefault | test/index.test.ts:35-44 | with no header and a `*` default, the default origin, the page and another origin may all use the feature |
| Scenarios.TopLevelHeaderDenies | test/index.test.ts:61-64 | `fullscreen=()` denies the page, the default origin and another origin |
| Scenarios.SameOriginFrameDefault | test/index.test.ts:113-124 | a same-origin frame with empty `allow` may use a default-`'self'` feature by default and for its own origin, and not for the two other example origins |
| Scenarios.CrossOriginFrameDefault | test/index.test.ts:342-353 | a cross-origin frame with empty `allow` is denied a default-`'self'` feature for every example origin |
| Scenarios.CrossOriginFrameAllowed | test/index.test.ts:370-381 | `allow="fullscreen"` on a cross-origin frame allows the frame (by default and by name) and denies the page and a third origin |
| Scenarios.CrossOriginFrameHeaderSelf | test/index.test.ts:499-504 | a `fullscreen=(self)` header denies a cross-origin frame the feature, even when its `allow` names it |

## Left out

- URL parsing itself is a parameter (`canon`). The model does not know which strings are URLs or
  what their origins are; it relies only on `canon` being a function.
- The structured-headers parser is a parameter (`dict`). Item parameters are not modelled, and
  every bare item other than a token, a string or a boolean is one value, `OtherItem`. `dict` is
  assumed to return each key once (the `ParsedDictionary` type). The overwriting of a repeated
  key happens inside the parser, which is not part of this model. The lemmas about `HeaderFold`
  hold for any member list, including one that repeats a key.
- Error objects and their messages are not modelled. Every throw is the single value `Err`.
- The `instanceof NormalizedParsedValue` test is modelled as the `normalized` flag of a parsed
  value, and the `NormalizedParsedValue` class as that flag set to true.
- Aliasing is not modelled, because the model works on values. In the source, normalising copies
  the map shallowly (src/index.ts:185), so its in-place `add`/`delete` edit the Sets the caller
  still holds. After `result.set(k, new Set())` for `'none'`, the edits go to the old Set. This can
  change results, not only the caller's object. Take a pre-parsed `allow` value
  `{fullscreen: {}}` from `parseAllow` and pass it to `inherit` for two frames. The first call
  adds the first frame's origin to the shared empty Set. The second frame, at another origin,
  then finds a set holding only the first origin and is denied `fullscreen`. The model gives
  each call its own value, so the second frame gets its own origin.
- The `#opts` field is stored but never read, so it is not modelled.
- Map insertion order is not modelled: maps are Dafny `map`s. No decision depends on the order.
- Markers and origins are distinct values. In the source they share one string space: the
  literal string `'self'` and an origin could only coincide if `new URL` returned such a string,
  and it cannot.
- Keys of the defaults object that come from its prototype (`constructor` and the like) are not
  modelled. The model treats any feature missing from the map as having no default, which
  behaves as `'self'`.
- Scenarios.AllowNoneWins: uses `fullscreen 'self' 'none'` without the trailing `;` of the test
  case. `Scenarios.AllowTwoFeatures` covers a trailing `;`.
- Scenarios.AllowOrigin: uses one URL target (`https://www.example.org/foo`). The test case has
  three.
- Scenarios.HeaderSelfAndOrigin: uses one string origin, without `:443`. The test case has two,
  and turning a default port into an origin is URL parsing, which is a parameter here.
- Scenarios.CrossOriginFrameHeaderSelf: uses `allow="fullscreen"`, where the test case has
  `fullscreen;`. The two parse alike; `Scenarios.AllowFeatureOnly` and
  `Scenarios.AllowTwoFeatures` show how a trailing `;` is handled.
- The header-table cases of test/index.test.ts other than `()` are not restated.
  `Policy.TopLevelHeaderOnly` and `Policy.HeaderAllows` state the general rule behind them.
