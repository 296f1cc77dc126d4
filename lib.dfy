/**
 * The two policy-text parsers of src/lib.ts. `parseAllow` reads an iframe `allow`
 * attribute and never fails; `parseHeader` reads a `Permissions-Policy` header
 * through the Dictionary grammar of section 3.2 of RFC 8941 and fails as a whole.
 * Both build their maps step by step, and so do the methods here; each method is
 * proved equal to a specification function, whose properties are the lemmas.
 */
module Lib {
  import opened Types
  import opened Tokenize

  // ---------------------------------------------------------------------------
  // Origins of target tokens (src/lib.ts:104-111)
  // ---------------------------------------------------------------------------

  /** The origin a target token names, when the URL constructor accepts it. */
  function OriginTarget(canon: Canon, token: string): (t: Option<Target>)
    ensures t.Some? <==> canon(token).Some?
    ensures t.Some? ==> t.value == Concrete(canon(token).value)
  {
    match canon(token)
    case None => None
    case Some(o) => Some(Concrete(o))
  }

  function AsSet(t: Option<Target>): set<Target> {
    if t.Some? then {t.value} else {}
  }

  /** `addIfOrigin`: adds the token's origin to the set; a token that is not a URL is dropped. */
  method AddIfOrigin(canon: Canon, s: set<Target>, val: string) returns (r: set<Target>)
    ensures canon(val).Some? ==> r == s + {Concrete(canon(val).value)}
    ensures canon(val).None? ==> r == s
  {
    match canon(val)
    case Some(origin) => r := s + {Concrete(origin)};
    case None => r := s;
  }

  // ---------------------------------------------------------------------------
  // The `allow` attribute (src/lib.ts:14-52)
  // ---------------------------------------------------------------------------

  /** What one target token of a directive adds to its set. */
  function AllowTarget(canon: Canon, token: string): Option<Target> {
    if token == "'self'" then Some(SelfMarker)
    else if token == "'src'" then Some(SrcMarker)
    else OriginTarget(canon, token)
  }

  /** The set the inner loop of `parseAllow` builds from a directive's targets. */
  function TargetSet(canon: Canon, targets: seq<string>): (s: set<Target>)
    ensures NoneMarker !in s
  {
    if targets == [] then {}
    else
      TargetSet(canon, targets[..|targets| - 1]) + AsSet(AllowTarget(canon, targets[|targets| - 1]))
  }

  /** Exactly the targets `'self'`, `'src'` and the origins of the URL tokens are in the set. */
  lemma {:induction false} TargetSetMembers(canon: Canon, targets: seq<string>, x: Target)
    ensures x in TargetSet(canon, targets) <==>
              exists i :: 0 <= i < |targets| && AllowTarget(canon, targets[i]) == Some(x)
  {
    if targets != [] {
      var init := targets[..|targets| - 1];
      TargetSetMembers(canon, init, x);
      if x in TargetSet(canon, init) {
        var i :| 0 <= i < |init| && AllowTarget(canon, init[i]) == Some(x);
        assert targets[i] == init[i];
      }
      if exists i :: 0 <= i < |targets| && AllowTarget(canon, targets[i]) == Some(x) {
        var i :| 0 <= i < |targets| && AllowTarget(canon, targets[i]) == Some(x);
        if i < |init| {
          assert init[i] == targets[i];
        }
      }
    }
  }

  /**
   * The allow-list one directive gives its feature: `Wildcard` exactly when `*`
   * is a target, `Deny` exactly when `'none'` is and `*` is not, and otherwise a
   * set, never with the `'none'` marker.
   */
  function DirectiveAllowList(canon: Canon, targets: seq<string>): (r: AllowList)
    ensures r == Wildcard <==> "*" in targets
    ensures r == Deny <==> "*" !in targets && "'none'" in targets
    ensures r.Targets? ==> NoneMarker !in r.targets
  {
    if "*" in targets then Wildcard
    else if "'none'" in targets then Deny
    else Targets(TargetSet(canon, targets))
  }

  /**
   * The rule for one directive: a `*` anywhere wins, even over `'none'` and
   * `'self'`; otherwise a `'none'` anywhere denies; otherwise the set holds
   * exactly `'self'`, `'src'` and the origins of the targets that are URLs (so no
   * `'none'` marker, and nothing for a target that is not a URL).
   */
  lemma DirectiveRule(canon: Canon, targets: seq<string>)
    ensures "*" in targets ==> DirectiveAllowList(canon, targets) == Wildcard
    ensures "*" !in targets && "'none'" in targets ==> DirectiveAllowList(canon, targets) == Deny
    ensures "*" !in targets && "'none'" !in targets ==>
              && DirectiveAllowList(canon, targets).Targets?
              && NoneMarker !in DirectiveAllowList(canon, targets).targets
              && (SelfMarker in DirectiveAllowList(canon, targets).targets <==> "'self'" in targets)
              && (SrcMarker in DirectiveAllowList(canon, targets).targets <==> "'src'" in targets)
              && (forall o :: Concrete(o) in DirectiveAllowList(canon, targets).targets <==>
                    exists i :: 0 <= i < |targets| && targets[i] != "'self'" && targets[i] != "'src'"
                                && canon(targets[i]) == Some(o))
    ensures targets == [] ==> DirectiveAllowList(canon, targets) == Targets({})
  {
    if "*" !in targets && "'none'" !in targets {
      TargetSetMembers(canon, targets, SelfMarker);
      TargetSetMembers(canon, targets, SrcMarker);
      if "'self'" in targets {
        var i :| 0 <= i < |targets| && targets[i] == "'self'";
        assert AllowTarget(canon, targets[i]) == Some(SelfMarker);
      }
      if "'src'" in targets {
        var i :| 0 <= i < |targets| && targets[i] == "'src'";
        assert AllowTarget(canon, targets[i]) == Some(SrcMarker);
      }
      forall o ensures Concrete(o) in TargetSet(canon, targets) <==>
                         exists i :: 0 <= i < |targets| && targets[i] != "'self'" && targets[i] != "'src'"
                                     && canon(targets[i]) == Some(o)
      {
        TargetSetMembers(canon, targets, Concrete(o));
      }
    }
  }

  /** A non-blank directive: its first token names the feature, the rest are targets. */
  datatype Directive = Directive(feature: Feature, targets: seq<string>)

  /** `const [feature, ...targetList] = tokens` */
  function DirectiveOf(d: string): Directive
    requires Trimmed(d)
  {
    var tokens := Tokens(d);
    Directive(tokens[0], tokens[1..])
  }

  /** The non-blank directives of attribute text, in order. */
  function DirectiveList(s: string): seq<Directive> {
    DirectivesOf(Directives(s))
  }

  function DirectivesOf(directives: seq<string>): seq<Directive>
    requires forall d <- directives :: Trimmed(d)
  {
    if directives == [] then []
    else [DirectiveOf(directives[0])] + DirectivesOf(directives[1..])
  }

  /**
   * The map the directive loop of `parseAllow` builds: one `result.set` per
   * directive. No entry it makes is a set holding the `'none'` marker.
   */
  function AllowFold(canon: Canon, ds: seq<Directive>): (r: PolicyMap)
    ensures forall f <- r :: r[f].Targets? ==> NoneMarker !in r[f].targets
  {
    if ds == [] then map[]
    else
      var d := ds[|ds| - 1];
      AllowFold(canon, ds[..|ds| - 1])[d.feature := DirectiveAllowList(canon, d.targets)]
  }

  /** The features of the result are exactly those the directives name. */
  lemma {:induction false} AllowFoldKeys(canon: Canon, ds: seq<Directive>)
    ensures AllowFold(canon, ds).Keys == set d | d in ds :: d.feature
  {
    if ds != [] {
      var init := ds[..|ds| - 1];
      AllowFoldKeys(canon, init);
      assert ds == init + [ds[|ds| - 1]];
      assert (set d | d in ds :: d.feature) == (set d | d in init :: d.feature) + {ds[|ds| - 1].feature};
    }
  }

  /** A feature's entry comes from the last directive that names it; earlier ones are overwritten. */
  lemma {:induction false} AllowFoldLastWins(canon: Canon, ds: seq<Directive>, i: nat)
    requires i < |ds|
    requires forall j :: i < j < |ds| ==> ds[j].feature != ds[i].feature
    ensures ds[i].feature in AllowFold(canon, ds)
    ensures AllowFold(canon, ds)[ds[i].feature] == DirectiveAllowList(canon, ds[i].targets)
  {
    if i < |ds| - 1 {
      var init := ds[..|ds| - 1];
      AllowFoldLastWins(canon, init, i);
    }
  }

  /** One more directive: one more `result.set`. */
  lemma AllowFoldSnoc(canon: Canon, ds: seq<Directive>, d: Directive)
    ensures AllowFold(canon, ds + [d]) == AllowFold(canon, ds)[d.feature := DirectiveAllowList(canon, d.targets)]
  {
    assert (ds + [d])[..|ds|] == ds;
  }

  /** What `parseAllow` makes of attribute text. */
  function AllowValue(canon: Canon, s: string): PolicyMap {
    AllowFold(canon, DirectiveList(s))
  }

  /** `parseAllow`: text is parsed, an already-parsed value comes back unchanged. */
  function ParsedAllow(canon: Canon, attrValue: PolicyText): ParsedValue {
    match attrValue
    case Value(v) => v
    case Text(s) => ParsedValue(AllowValue(canon, s), false)
  }

  /**
   * `parseAllow` (src/lib.ts:14-52). It has no failure result: every text gives a
   * map. An already-parsed value is returned as it is.
   */
  method ParseAllow(canon: Canon, attrValue: PolicyText) returns (r: ParsedValue)
    ensures attrValue.Value? ==> r == attrValue.value
    ensures attrValue.Text? ==> r == ParsedValue(AllowValue(canon, attrValue.text), false)
  {
    if attrValue.Value? {
      return attrValue.value;
    }
    var directives := DirectiveList(attrValue.text);
    var result := SetDirectives(canon, directives);
    return ParsedValue(result, false);
  }

  /**
   * The directive loop of `parseAllow` (src/lib.ts:24-49): for each directive a
   * `*` target gives `Wildcard`, else a `'none'` target gives `Deny`, else the set
   * of its targets; `result.set` overwrites an earlier entry for the same feature.
   */
  method SetDirectives(canon: Canon, directives: seq<Directive>) returns (result: PolicyMap)
    ensures result == AllowFold(canon, directives)
  {
    result := map[];
    for i := 0 to |directives|
      invariant result == AllowFold(canon, directives[..i])
    {
      var feature, targetList := directives[i].feature, directives[i].targets;
      assert directives[..i + 1] == directives[..i] + [directives[i]];
      AllowFoldSnoc(canon, directives[..i], directives[i]);
      if "*" in targetList {
        result := result[feature := Wildcard];
        continue;
      }
      if "'none'" in targetList {
        result := result[feature := Deny];
        continue;
      }
      var allowList := CollectTargets(canon, targetList);
      result := result[feature := Targets(allowList)];
    }
    assert directives[..|directives|] == directives;
  }

  /** The inner loop of `parseAllow` (src/lib.ts:40-47): markers kept, URL tokens as origins. */
  method CollectTargets(canon: Canon, targetList: seq<string>) returns (allowList: set<Target>)
    ensures allowList == TargetSet(canon, targetList)
  {
    allowList := {};
    for j := 0 to |targetList|
      invariant allowList == TargetSet(canon, targetList[..j])
    {
      var element := targetList[j];
      assert targetList[..j + 1][..j] == targetList[..j];
      if element == "'self'" || element == "'src'" {
        allowList := allowList + {if element == "'self'" then SelfMarker else SrcMarker};
      } else {
        allowList := AddIfOrigin(canon, allowList, element);
      }
    }
    assert targetList[..|targetList|] == targetList;
  }

  // ---------------------------------------------------------------------------
  // The `Permissions-Policy` header (src/lib.ts:54-102)
  // ---------------------------------------------------------------------------

  /**
   * The bare items of the structured-headers library that matter here: tokens,
   * strings and booleans; every other kind (numbers, byte sequences, dates, ...)
   * is `OtherItem`. Item parameters are not modelled.
   */
  datatype BareItem = Token(name: string) | Str(chars: string) | Boolean(b: bool) | OtherItem

  /** A dictionary member's value: one item, or an inner list of items. */
  datatype Member = Item(item: BareItem) | InnerList(items: seq<BareItem>)

  /** The members `parseDictionary` returns, in order. */
  type Dictionary = seq<(Feature, Member)>

  /** No key occurs twice among the members. */
  predicate DistinctKeys(d: Dictionary) {
    forall i, j :: 0 <= i < j < |d| ==> d[i].0 != d[j].0
  }

  /**
   * A dictionary as `parseDictionary` returns it: a repeated key overwrites the
   * earlier value (section 4.2.2 of RFC 8941), so each key occurs once.
   */
  type ParsedDictionary = d: Dictionary | DistinctKeys(d)

  /** `parseDictionary`: the members of a header value, or a failure. */
  type DictionaryParser = string -> Result<ParsedDictionary>

  predicate IsText(it: BareItem) {
    it.Token? || it.Str?
  }

  /** The first `n` items are all tokens or strings. */
  predicate TextBefore(items: seq<BareItem>, n: nat) {
    n <= |items| && forall i :: 0 <= i < n ==> IsText(items[i])
  }

  /** `item instanceof Token ? item.toString() : item`: tokens and strings read alike. */
  function ItemText(it: BareItem): string
    requires IsText(it)
  {
    if it.Token? then it.name else it.chars
  }

  /**
   * The scan over a member's items stops at an item that is neither a token nor a
   * string (it throws) and at `*` or `none` (it returns).
   */
  predicate Stops(it: BareItem) {
    !IsText(it) || ItemText(it) == "*" || ItemText(it) == "none"
  }

  /** The index of the first item the scan stops at, or the length when it stops at none. */
  function FirstStop(items: seq<BareItem>): (k: nat)
    ensures k <= |items|
  {
    if items == [] then 0
    else if Stops(items[0]) then 0
    else 1 + FirstStop(items[1..])
  }

  /** The scan stops at `k` exactly when no earlier item stops it and the item at `k`, if any, does. */
  lemma {:induction false} FirstStopIs(items: seq<BareItem>, k: nat)
    requires k <= |items| && forall j :: 0 <= j < k ==> !Stops(items[j])
    requires k < |items| ==> Stops(items[k])
    ensures FirstStop(items) == k
  {
    if k > 0 {
      assert !Stops(items[0]);
      FirstStopIs(items[1..], k - 1);
    }
  }

  /** Every item before the stop is a token or a string. */
  lemma {:induction false} FirstStopScan(items: seq<BareItem>)
    ensures forall j :: 0 <= j < FirstStop(items) ==> !Stops(items[j])
  {
    if items != [] && !Stops(items[0]) {
      FirstStopScan(items[1..]);
      forall j | 0 <= j < FirstStop(items) ensures !Stops(items[j]) {
        if j > 0 { assert items[j] == items[1..][j - 1]; }
      }
    }
  }

  /** What one item adds to the set: `self` gives the marker, a URL gives its origin. */
  function HeaderTarget(canon: Canon, it: BareItem): Option<Target>
    requires IsText(it)
  {
    if ItemText(it) == "self" then Some(SelfMarker) else OriginTarget(canon, ItemText(it))
  }

  /** The set the item loop has built after its first `n` items. */
  function HeaderTargetSet(canon: Canon, items: seq<BareItem>, n: nat): (s: set<Target>)
    requires TextBefore(items, n)
    ensures SrcMarker !in s && NoneMarker !in s
  {
    if n == 0 then {}
    else HeaderTargetSet(canon, items, n - 1) + AsSet(HeaderTarget(canon, items[n - 1]))
  }

  /** Exactly `self` and the origins of the URL items are in the set. */
  lemma {:induction false} HeaderTargetSetMembers(canon: Canon, items: seq<BareItem>, n: nat, x: Target)
    requires TextBefore(items, n)
    ensures x in HeaderTargetSet(canon, items, n) <==>
              exists i :: 0 <= i < n && HeaderTarget(canon, items[i]) == Some(x)
  {
    if n > 0 {
      HeaderTargetSetMembers(canon, items, n - 1, x);
      if x in HeaderTargetSet(canon, items, n - 1) {
        var i :| 0 <= i < n - 1 && HeaderTarget(canon, items[i]) == Some(x);
      }
    }
  }

  /** `Array.isArray(value) ? value : [[value]]` */
  function MemberItems(value: Member): seq<BareItem> {
    match value
    case InnerList(items) => items
    case Item(it) => [it]
  }

  /**
   * The allow-list of one member: the first item the scan stops at decides (a
   * failure, `Wildcard` or `Deny`); with no such item, the set of `self` markers
   * and origins, or `Deny` when that set is empty. The result is never an empty
   * set and never holds a `'src'` or `'none'` marker.
   */
  function MemberAllowList(canon: Canon, value: Member): (r: Result<AllowList>)
    ensures r.Ok? && r.value.Targets? ==>
              r.value.targets != {} && SrcMarker !in r.value.targets && NoneMarker !in r.value.targets
  {
    var items := MemberItems(value);
    var k := FirstStop(items);
    FirstStopScan(items);
    if k < |items| then
      if !IsText(items[k]) then Err
      else if ItemText(items[k]) == "*" then Ok(Wildcard)
      else Ok(Deny)
    else
      var s := HeaderTargetSet(canon, items, |items|);
      if s != {} then Ok(Targets(s)) else Ok(Deny)
  }

  /**
   * The rule for one member, in list order: an item that is neither token nor
   * string, reached before any `*` or `none`, fails the member; otherwise the first
   * `*` or `none` decides; otherwise the set holds exactly the `self` marker (for a
   * `self` item) and the origins of the items that are URLs.
   */
  lemma MemberRule(canon: Canon, value: Member, k: nat)
    requires k < |MemberItems(value)| && Stops(MemberItems(value)[k])
    requires forall j :: 0 <= j < k ==> !Stops(MemberItems(value)[j])
    ensures !IsText(MemberItems(value)[k]) ==> MemberAllowList(canon, value) == Err
    ensures IsText(MemberItems(value)[k]) && ItemText(MemberItems(value)[k]) == "*" ==>
              MemberAllowList(canon, value) == Ok(Wildcard)
    ensures IsText(MemberItems(value)[k]) && ItemText(MemberItems(value)[k]) == "none" ==>
              MemberAllowList(canon, value) == Ok(Deny)
  {
    FirstStopIs(MemberItems(value), k);
  }

  /** With no stopping item, the member's set is its `self` items and URL items, or `Deny` if none. */
  lemma MemberTargets(canon: Canon, value: Member)
    requires forall j :: 0 <= j < |MemberItems(value)| ==> !Stops(MemberItems(value)[j])
    ensures TextBefore(MemberItems(value), |MemberItems(value)|)
    ensures MemberAllowList(canon, value).Ok?
    ensures var items := MemberItems(value);
            (forall i :: 0 <= i < |items| ==> HeaderTarget(canon, items[i]).None?) <==>
            MemberAllowList(canon, value) == Ok(Deny)
    ensures var items := MemberItems(value);
            MemberAllowList(canon, value).value.Targets? ==>
              forall x :: x in MemberAllowList(canon, value).value.targets <==>
                exists i :: 0 <= i < |items| && HeaderTarget(canon, items[i]) == Some(x)
  {
    var items := MemberItems(value);
    MemberCollects(canon, value);
    var s := HeaderTargetSet(canon, items, |items|);
    forall x ensures x in s <==> exists i :: 0 <= i < |items| && HeaderTarget(canon, items[i]) == Some(x) {
      HeaderTargetSetMembers(canon, items, |items|, x);
    }
    if exists i :: 0 <= i < |items| && HeaderTarget(canon, items[i]).Some? {
      var i :| 0 <= i < |items| && HeaderTarget(canon, items[i]).Some?;
      assert HeaderTarget(canon, items[i]).value in s;
    }
  }

  /**
   * `getAllowListForParsedDictMember` (src/lib.ts:80-102): scans the items in
   * order, failing on an item that is neither a token nor a string, returning
   * early on `*` and `none`, and otherwise collecting `self` and origins.
   */
  method GetAllowListForParsedDictMember(canon: Canon, value: Member) returns (r: Result<AllowList>)
    ensures r == MemberAllowList(canon, value)
  {
    var allowList: set<Target> := {};
    var valuesAsArray := MemberItems(value);
    for i := 0 to |valuesAsArray|
      invariant forall j :: 0 <= j < i ==> !Stops(valuesAsArray[j])
      invariant allowList == HeaderTargetSet(canon, valuesAsArray, i)
    {
      var item := valuesAsArray[i];
      if !IsText(item) {
        MemberRule(canon, value, i);
        return Err;
      }
      var val := ItemText(item);
      if val == "*" {
        MemberRule(canon, value, i);
        return Ok(Wildcard);
      }
      if val == "none" {
        MemberRule(canon, value, i);
        return Ok(Deny);
      }
      if val == "self" {
        allowList := allowList + {SelfMarker};
      } else {
        allowList := AddIfOrigin(canon, allowList, val);
      }
    }
    MemberCollects(canon, value);
    return if allowList != {} then Ok(Targets(allowList)) else Ok(Deny);
  }

  /** A member with no stopping item gets its collected set, or `Deny` when that is empty. */
  lemma MemberCollects(canon: Canon, value: Member)
    requires forall j :: 0 <= j < |MemberItems(value)| ==> !Stops(MemberItems(value)[j])
    ensures TextBefore(MemberItems(value), |MemberItems(value)|)
    ensures MemberAllowList(canon, value) ==
              var s := HeaderTargetSet(canon, MemberItems(value), |MemberItems(value)|);
              if s != {} then Ok(Targets(s)) else Ok(Deny)
  {
    FirstStopIs(MemberItems(value), |MemberItems(value)|);
  }

  /**
   * A member fails the header when its value is `true` or its scan fails; any
   * other member gets its allow-list, which is never an empty set and never holds
   * a `'src'` or `'none'` marker.
   */
  function MemberResult(canon: Canon, value: Member): (r: Result<AllowList>)
    ensures value == Item(Boolean(true)) ==> r.Err?
    ensures value != Item(Boolean(true)) ==> r == MemberAllowList(canon, value)
    ensures r.Ok? && r.value.Targets? ==>
              r.value.targets != {} && SrcMarker !in r.value.targets && NoneMarker !in r.value.targets
  {
    if value == Item(Boolean(true)) then Err else MemberAllowList(canon, value)
  }

  /**
   * The map the member loop of `parseHeader` builds, or a failure: one
   * `result.set` per member. A header that succeeds has no member without a value.
   */
  function HeaderFold(canon: Canon, members: Dictionary): (r: Result<PolicyMap>)
    ensures r.Ok? ==> forall i :: 0 <= i < |members| ==> members[i].1 != Item(Boolean(true))
  {
    if members == [] then Ok(map[])
    else
      var (feature, value) := members[|members| - 1];
      assert forall i :: 0 <= i < |members| - 1 ==> members[..|members| - 1][i] == members[i];
      match HeaderFold(canon, members[..|members| - 1])
      case Err => Err
      case Ok(m) =>
        match MemberResult(canon, value)
        case Err => Err
        case Ok(a) => Ok(m[feature := a])
  }

  /** The header fails, with no partial map, exactly when one of its members fails. */
  lemma HeaderFoldFails(canon: Canon, members: Dictionary)
    ensures HeaderFold(canon, members).Err? <==>
              exists i :: 0 <= i < |members| && MemberResult(canon, members[i].1).Err?
  {
    if HeaderFold(canon, members).Err? {
      var i := FailingMember(canon, members);
    }
    if exists i :: 0 <= i < |members| && MemberResult(canon, members[i].1).Err? {
      var i :| 0 <= i < |members| && MemberResult(canon, members[i].1).Err?;
      FailingMemberFails(canon, members, i);
    }
  }

  /** A failed header has a failing member. */
  lemma {:induction false} FailingMember(canon: Canon, members: Dictionary) returns (i: nat)
    requires HeaderFold(canon, members).Err?
    ensures i < |members| && MemberResult(canon, members[i].1).Err?
  {
    var init := members[..|members| - 1];
    if HeaderFold(canon, init).Err? {
      i := FailingMember(canon, init);
      assert init[i] == members[i];
    } else {
      i := |members| - 1;
    }
  }

  /** A failing member fails the header. */
  lemma {:induction false} FailingMemberFails(canon: Canon, members: Dictionary, i: nat)
    requires i < |members| && MemberResult(canon, members[i].1).Err?
    ensures HeaderFold(canon, members).Err?
  {
    var init := members[..|members| - 1];
    if i < |init| {
      assert init[i] == members[i];
      FailingMemberFails(canon, init, i);
    }
  }

  /** A successful header has an entry for exactly the dictionary's keys. */
  lemma {:induction false} HeaderFoldKeys(canon: Canon, members: Dictionary)
    requires HeaderFold(canon, members).Ok?
    ensures HeaderFold(canon, members).value.Keys == set m | m in members :: m.0
  {
    if members != [] {
      var init := members[..|members| - 1];
      var last := members[|members| - 1];
      HeaderFoldKeys(canon, init);
      assert HeaderFold(canon, members).value.Keys == HeaderFold(canon, init).value.Keys + {last.0};
      assert members == init + [last];
      DictionaryKeysSnoc(init, last);
    }
  }

  lemma DictionaryKeysSnoc(members: Dictionary, last: (Feature, Member))
    ensures (set m | m in members + [last] :: m.0) == (set m | m in members :: m.0) + {last.0}
  {
  }

  /** In a successful header a feature's entry comes from its last member. */
  lemma {:induction false} HeaderFoldLastWins(canon: Canon, members: Dictionary, i: nat)
    requires HeaderFold(canon, members).Ok?
    requires i < |members|
    requires forall j :: i < j < |members| ==> members[j].0 != members[i].0
    ensures members[i].0 in HeaderFold(canon, members).value
    ensures MemberResult(canon, members[i].1).Ok?
    ensures HeaderFold(canon, members).value[members[i].0] == MemberResult(canon, members[i].1).value
  {
    var init := members[..|members| - 1];
    if i < |members| - 1 {
      HeaderFoldLastWins(canon, init, i);
    }
  }

  /** In a dictionary the parser returns, every member's allow-list is its key's entry. */
  lemma HeaderFoldEachMember(canon: Canon, members: ParsedDictionary, i: nat)
    requires HeaderFold(canon, members).Ok?
    requires i < |members|
    ensures members[i].0 in HeaderFold(canon, members).value
    ensures MemberResult(canon, members[i].1).Ok?
    ensures HeaderFold(canon, members).value[members[i].0] == MemberResult(canon, members[i].1).value
  {
    HeaderFoldLastWins(canon, members, i);
  }

  /** Header entries are never empty sets and never hold `'src'` or `'none'` markers. */
  lemma {:induction false} HeaderFoldEntries(canon: Canon, members: Dictionary)
    requires HeaderFold(canon, members).Ok?
    ensures forall f <- HeaderFold(canon, members).value ::
              HeaderFold(canon, members).value[f].Targets? ==>
                var s := HeaderFold(canon, members).value[f].targets;
                s != {} && SrcMarker !in s && NoneMarker !in s
  {
    if members != [] {
      HeaderFoldEntries(canon, members[..|members| - 1]);
    }
  }

  /** What `parseHeader` makes of header text. */
  function HeaderValue(canon: Canon, dict: DictionaryParser, s: string): Result<PolicyMap> {
    match dict(s)
    case Err => Err
    case Ok(members) => HeaderFold(canon, members)
  }

  /** `parseHeader`: text is parsed, an already-parsed value comes back unchanged. */
  function ParsedHeader(canon: Canon, dict: DictionaryParser, headerValue: PolicyText): Result<ParsedValue> {
    match headerValue
    case Value(v) => Ok(v)
    case Text(s) =>
      match HeaderValue(canon, dict, s)
      case Err => Err
      case Ok(m) => Ok(ParsedValue(m, false))
  }

  /**
   * `parseHeader` (src/lib.ts:54-78). Fails when the dictionary does not parse,
   * when a member's value is `true`, or when a member's scan fails; an
   * already-parsed value is returned as it is.
   */
  method ParseHeader(canon: Canon, dict: DictionaryParser, headerValue: PolicyText)
    returns (r: Result<ParsedValue>)
    ensures headerValue.Value? ==> r == Ok(headerValue.value)
    ensures headerValue.Text? ==>
              (r.Err? <==> HeaderValue(canon, dict, headerValue.text).Err?)
    ensures headerValue.Text? && r.Ok? ==>
              r.value == ParsedValue(HeaderValue(canon, dict, headerValue.text).value, false)
  {
    if headerValue.Value? {
      return Ok(headerValue.value);
    }
    var result: PolicyMap := map[];
    var parsed := dict(headerValue.text);
    if parsed.Err? {
      return Err;
    }
    var members := parsed.value;
    for i := 0 to |members|
      invariant HeaderFold(canon, members[..i]) == Ok(result)
    {
      var (feature, value) := members[i];
      assert members[..i + 1][..i] == members[..i];
      if value == Item(Boolean(true)) {
        HeaderFoldFails(canon, members);
        return Err;
      }
      var allowList := GetAllowListForParsedDictMember(canon, value);
      if allowList.Err? {
        HeaderFoldFails(canon, members);
        return Err;
      }
      result := result[feature := allowList.value];
    }
    assert members[..|members|] == members;
    return Ok(ParsedValue(result, false));
  }
}
