/**
 * Cases from the repository's tables of examples (test/lib.test.ts and
 * test/index.test.ts), stated for any URL canonicaliser and any dictionary
 * parser that give the answers the case relies on.
 */
module Scenarios {
  import opened Types
  import opened Tokenize
  import opened Lib
  import opened Policy

  const Host: Origin := "https://sidvishnoi.com"
  const Embedded: Origin := "https://example.com"
  const Other: Origin := "https://www.example.org"

  /** A canonicaliser that keeps the three example origins as they are. */
  predicate KnowsExamples(canon: Canon) {
    canon(Host) == Some(Host) && canon(Embedded) == Some(Embedded) && canon(Other) == Some(Other)
  }

  // ---------------------------------------------------------------------------
  // Shapes of allow text
  // ---------------------------------------------------------------------------

  predicate Word(w: string) {
    w != [] && NoWhitespace(w) && NoSeparator(w, IsSemicolon)
  }

  /** The words the examples use. */
  lemma ExampleWords()
    ensures Word("fullscreen") && Word("geolocation") && Word("*") && Word("'self'") && Word("'none'")
    ensures Word("'src'") && Word("https://www.example.org/foo")
  {
    PrintableWord("fullscreen");
    PrintableWord("geolocation");
    PrintableWord("*");
    PrintableWord("'self'");
    PrintableWord("'none'");
    PrintableWord("'src'");
    PrintableWord("https://www.example.org/foo");
  }

  /** Visible ASCII other than `;` is neither whitespace nor a directive separator. */
  lemma PrintableWord(w: string)
    requires w != [] && forall i :: 0 <= i < |w| ==> '!' <= w[i] <= '~' && w[i] != ';'
    ensures Word(w)
  {
  }

  lemma OneDirective(d: string)
    requires Trimmed(d) && NoSeparator(d, IsSemicolon)
    ensures DirectiveList(d) == DirectivesOf([d])
  {
    DirectivesSingle(d);
  }

  lemma WordDirective(w: string)
    requires Word(w)
    ensures DirectiveList(w) == [Directive(w, [])]
  {
    OneDirective(w);
    TokensSingle(w);
  }

  lemma NoSeparatorJoin(a: string, c: char, b: string, isSep: char -> bool)
    requires NoSeparator(a, isSep) && !isSep(c) && NoSeparator(b, isSep)
    ensures NoSeparator(a + [c] + b, isSep)
  {
    var s := a + [c] + b;
    forall i | 0 <= i < |s| ensures !isSep(s[i]) {
      if i < |a| { assert s[i] == a[i]; }
      else if i > |a| { assert s[i] == b[i - |a| - 1]; }
    }
  }

  lemma TwoWordDirective(d: string, f: string, t: string)
    requires Word(f) && Word(t) && d == f + " " + t
    ensures DirectiveList(d) == [Directive(f, [t])]
  {
    NoSeparatorJoin(f, ' ', t, IsSemicolon);
    assert d[0] == f[0] && d[|d| - 1] == t[|t| - 1];
    OneDirective(d);
    TokensCons(f, ' ', t);
    TokensSingle(t);
  }

  lemma ThreeTokens(f: string, t1: string, t2: string)
    requires Word(f) && Word(t1) && Word(t2)
    ensures Tokens(f + " " + t1 + " " + t2) == [f, t1, t2]
  {
    var tail := t1 + " " + t2;
    assert f + " " + t1 + " " + t2 == f + [' '] + tail;
    TokensCons(t1, ' ', t2);
    TokensSingle(t2);
    TokensCons(f, ' ', tail);
  }

  lemma ThreeWordDirective(d: string, f: string, t1: string, t2: string)
    requires Word(f) && Word(t1) && Word(t2) && d == f + " " + t1 + " " + t2
    ensures DirectiveList(d) == [Directive(f, [t1, t2])]
  {
    var tail := t1 + " " + t2;
    NoSeparatorJoin(t1, ' ', t2, IsSemicolon);
    NoSeparatorJoin(f, ' ', tail, IsSemicolon);
    assert d == f + [' '] + tail;
    assert d[0] == f[0] && d[|d| - 1] == t2[|t2| - 1];
    OneDirective(d);
    ThreeTokens(f, t1, t2);
  }

  lemma FoldOne(canon: Canon, d: Directive)
    ensures AllowFold(canon, [d]) == map[d.feature := DirectiveAllowList(canon, d.targets)]
  {
    assert [d][..0] == [];
  }

  lemma FoldTwo(canon: Canon, d1: Directive, d2: Directive)
    requires d1.feature != d2.feature
    ensures AllowFold(canon, [d1, d2]) ==
              map[d1.feature := DirectiveAllowList(canon, d1.targets), d2.feature := DirectiveAllowList(canon, d2.targets)]
  {
    assert [d1, d2][..1] == [d1];
    FoldOne(canon, d1);
  }

  lemma ValueOf(canon: Canon, s: string, ds: seq<Directive>)
    requires DirectiveList(s) == ds
    ensures AllowValue(canon, s) == AllowFold(canon, ds)
  {
  }

  lemma SingleDirectiveValue(canon: Canon, s: string, d: Directive)
    requires DirectiveList(s) == [d]
    ensures AllowValue(canon, s) == map[d.feature := DirectiveAllowList(canon, d.targets)]
  {
    ValueOf(canon, s, [d]);
    FoldOne(canon, d);
  }

  lemma TwoDirectiveValue(canon: Canon, s: string, d1: Directive, d2: Directive)
    requires DirectiveList(s) == [d1, d2] && d1.feature != d2.feature
    ensures AllowValue(canon, s) ==
              map[d1.feature := DirectiveAllowList(canon, d1.targets), d2.feature := DirectiveAllowList(canon, d2.targets)]
  {
    ValueOf(canon, s, [d1, d2]);
    FoldTwo(canon, d1, d2);
  }

  lemma TwoWordValue(canon: Canon, s: string, f: string, t: string)
    requires Word(f) && Word(t) && s == f + " " + t
    ensures AllowValue(canon, s) == map[f := DirectiveAllowList(canon, [t])]
  {
    TwoWordDirective(s, f, t);
    SingleDirectiveValue(canon, s, Directive(f, [t]));
  }

  lemma ThreeWordValue(canon: Canon, s: string, f: string, t1: string, t2: string)
    requires Word(f) && Word(t1) && Word(t2) && s == f + " " + t1 + " " + t2
    ensures AllowValue(canon, s) == map[f := DirectiveAllowList(canon, [t1, t2])]
  {
    ThreeWordDirective(s, f, t1, t2);
    SingleDirectiveValue(canon, s, Directive(f, [t1, t2]));
  }

  /** The allow-lists the example target lists give. */
  lemma ExampleAllowLists(canon: Canon)
    ensures DirectiveAllowList(canon, ["*"]) == Wildcard
    ensures DirectiveAllowList(canon, ["*", "'self'"]) == Wildcard
    ensures DirectiveAllowList(canon, ["'none'"]) == Deny
    ensures DirectiveAllowList(canon, ["'self'", "'none'"]) == Deny
    ensures DirectiveAllowList(canon, ["'self'"]) == Targets({SelfMarker})
    ensures DirectiveAllowList(canon, ["'src'"]) == Targets({SrcMarker})
    ensures canon("https://www.example.org/foo") == Some(Other) ==>
              DirectiveAllowList(canon, ["'self'", "https://www.example.org/foo"]) ==
                Targets({SelfMarker, Concrete(Other)})
  {
    DistinctMarkers();
    OneTarget(canon, "'self'");
    OneTarget(canon, "'src'");
    TwoTargets(canon, "'self'", "https://www.example.org/foo");
  }

  /** The two-word example texts, word by word. */
  lemma TwoWordTexts()
    ensures "fullscreen *" == "fullscreen" + " " + "*"
    ensures "fullscreen 'none'" == "fullscreen" + " " + "'none'"
    ensures "fullscreen 'self'" == "fullscreen" + " " + "'self'"
    ensures "fullscreen 'src'" == "fullscreen" + " " + "'src'"
  {
  }

  /** The three-word example texts, word by word. */
  lemma ThreeWordTexts()
    ensures "fullscreen * 'self'" == "fullscreen" + " " + "*" + " " + "'self'"
    ensures "fullscreen 'self' 'none'" == "fullscreen" + " " + "'self'" + " " + "'none'"
  {
  }

  lemma OriginText()
    ensures "fullscreen 'self' https://www.example.org/foo" ==
              "fullscreen" + " " + "'self'" + " " + "https://www.example.org/foo"
  {
  }

  /** The marker tokens are different strings. */
  lemma DistinctMarkers()
    ensures "'none'" != "'self'" && "*" != "'self'" && "*" != "'src'" && "'none'" != "'src'"
    ensures "*" != "https://www.example.org/foo" && "'none'" != "https://www.example.org/foo"
  {
    assert "'none'"[1] != "'self'"[1];
  }

  lemma OneTarget(canon: Canon, t: string)
    ensures TargetSet(canon, [t]) == AsSet(AllowTarget(canon, t))
  {
    assert [t][..0] == [];
  }

  lemma TwoTargets(canon: Canon, t1: string, t2: string)
    ensures TargetSet(canon, [t1, t2]) == AsSet(AllowTarget(canon, t1)) + AsSet(AllowTarget(canon, t2))
  {
    assert [t1, t2][..1] == [t1];
    OneTarget(canon, t1);
  }

  // ---------------------------------------------------------------------------
  // parseAllow
  // ---------------------------------------------------------------------------

  /** Text with no directive names no feature. */
  lemma BlankValue(canon: Canon, s: string)
    requires Directives(s) == []
    ensures AllowValue(canon, s) == map[]
  {
    ValueOf(canon, s, []);
  }

  /** Empty attribute text names no feature. */
  lemma AllowEmpty(canon: Canon)
    ensures AllowValue(canon, "") == map[]
  {
    NoDirectives();
    BlankValue(canon, "");
  }

  /** A lone `;` names no feature. */
  lemma AllowSeparatorOnly(canon: Canon)
    ensures AllowValue(canon, ";") == map[]
  {
    LoneSeparator();
    BlankValue(canon, ";");
  }

  /** A feature without targets gets the empty set, which normalising later turns into `'src'`. */
  lemma AllowFeatureOnly(canon: Canon)
    ensures AllowValue(canon, "fullscreen") == map["fullscreen" := Targets({})]
  {
    PrintableWord("fullscreen");
    WordDirective("fullscreen");
    SingleDirectiveValue(canon, "fullscreen", Directive("fullscreen", []));
  }

  /** Directives separated by `;` each name a feature. */
  lemma AllowTwoFeatures(canon: Canon)
    ensures AllowValue(canon, "fullscreen;geolocation;") ==
              map["fullscreen" := Targets({}), "geolocation" := Targets({})]
  {
    ExampleWords();
    TwoFeatureText();
    TwoFeatureDirectives("fullscreen;geolocation;", "fullscreen", "geolocation");
    TwoDirectiveValue(canon, "fullscreen;geolocation;", Directive("fullscreen", []), Directive("geolocation", []));
  }

  lemma NoDirectives()
    ensures Directives("") == []
  {
  }

  lemma LoneSeparator()
    ensures Directives(";") == []
  {
    SplitAtFirst("", ';', "", IsSemicolon);
    assert "" + [';'] + "" == ";";
    assert Split(";", IsSemicolon) == ["", ""];
    assert ["", ""][1..] == [""];
    assert NonBlankTrimmed([""]) == [];
  }

  lemma LastDirective(g: string)
    requires Word(g)
    ensures Directives(g + ";" + "") == [g]
  {
    DirectivesCons(g, "");
    NoDirectives();
  }

  lemma TwoFeatureSplit(s: string, f: string, g: string)
    requires Word(f) && Word(g) && s == f + ";" + (g + ";" + "")
    ensures Directives(s) == [f, g]
  {
    DirectivesCons(f, g + ";" + "");
    LastDirective(g);
  }

  lemma WordDirectiveOf(g: string)
    requires Word(g)
    ensures DirectivesOf([g]) == [Directive(g, [])]
  {
    TokensSingle(g);
    assert [g][1..] == [];
  }

  lemma DirectivesOfTwo(f: string, g: string)
    requires Trimmed(f) && Trimmed(g)
    ensures DirectivesOf([f, g]) == [DirectiveOf(f)] + DirectivesOf([g])
  {
    assert [f, g][1..] == [g];
  }

  lemma TwoWordDirectivesOf(f: string, g: string)
    requires Word(f) && Word(g)
    ensures DirectivesOf([f, g]) == [Directive(f, []), Directive(g, [])]
  {
    WordDirectiveOf(f);
    WordDirectiveOf(g);
    assert Trimmed(f) && Trimmed(g);
    DirectivesOfTwo(f, g);
  }

  lemma TwoFeatureDirectives(s: string, f: string, g: string)
    requires Word(f) && Word(g) && s == f + ";" + (g + ";" + "")
    ensures DirectiveList(s) == [Directive(f, []), Directive(g, [])]
  {
    TwoFeatureSplit(s, f, g);
    TwoWordDirectivesOf(f, g);
  }

  lemma TwoFeatureText()
    ensures "fullscreen;geolocation;" == "fullscreen" + ";" + ("geolocation" + ";" + "")
  {
  }

  /** `*` gives every origin. */
  lemma AllowWildcard(canon: Canon)
    ensures AllowValue(canon, "fullscreen *") == map["fullscreen" := Wildcard]
  {
    ExampleWords();
    TwoWordTexts();
    ExampleAllowLists(canon);
    TwoWordValue(canon, "fullscreen *", "fullscreen", "*");
  }

  /** `*` wins over the targets beside it. */
  lemma AllowWildcardWins(canon: Canon)
    ensures AllowValue(canon, "fullscreen * 'self'") == map["fullscreen" := Wildcard]
  {
    ExampleWords();
    ThreeWordTexts();
    ExampleAllowLists(canon);
    ThreeWordValue(canon, "fullscreen * 'self'", "fullscreen", "*", "'self'");
  }

  /** `'none'` denies. */
  lemma AllowNone(canon: Canon)
    ensures AllowValue(canon, "fullscreen 'none'") == map["fullscreen" := Deny]
  {
    ExampleWords();
    TwoWordTexts();
    ExampleAllowLists(canon);
    TwoWordValue(canon, "fullscreen 'none'", "fullscreen", "'none'");
  }

  /** `'none'` denies whatever else is listed. */
  lemma AllowNoneWins(canon: Canon)
    ensures AllowValue(canon, "fullscreen 'self' 'none'") == map["fullscreen" := Deny]
  {
    ExampleWords();
    ThreeWordTexts();
    ExampleAllowLists(canon);
    ThreeWordValue(canon, "fullscreen 'self' 'none'", "fullscreen", "'self'", "'none'");
  }

  /** `'self'` is kept as a marker. */
  lemma AllowSelf(canon: Canon)
    ensures AllowValue(canon, "fullscreen 'self'") == map["fullscreen" := Targets({SelfMarker})]
  {
    ExampleWords();
    TwoWordTexts();
    ExampleAllowLists(canon);
    TwoWordValue(canon, "fullscreen 'self'", "fullscreen", "'self'");
  }

  /** `'src'` is kept as a marker. */
  lemma AllowSrc(canon: Canon)
    ensures AllowValue(canon, "fullscreen 'src'") == map["fullscreen" := Targets({SrcMarker})]
  {
    ExampleWords();
    TwoWordTexts();
    ExampleAllowLists(canon);
    TwoWordValue(canon, "fullscreen 'src'", "fullscreen", "'src'");
  }

  /** An origin target is stored as the canonicaliser's origin for it. */
  lemma AllowOrigin(canon: Canon)
    requires canon("https://www.example.org/foo") == Some(Other)
    ensures AllowValue(canon, "fullscreen 'self' https://www.example.org/foo") ==
              map["fullscreen" := Targets({SelfMarker, Concrete(Other)})]
  {
    ExampleWords();
    OriginText();
    ExampleAllowLists(canon);
    ThreeWordValue(canon, "fullscreen 'self' https://www.example.org/foo", "fullscreen", "'self'",
                   "https://www.example.org/foo");
  }

  // ---------------------------------------------------------------------------
  // parseHeader
  // ---------------------------------------------------------------------------

  /** A member without a value (`fullscreen`) is rejected. */
  lemma HeaderMissingValue(canon: Canon, dict: DictionaryParser)
    requires dict("fullscreen") == Result<ParsedDictionary>.Ok([("fullscreen", Item(Boolean(true)))])
    ensures HeaderValue(canon, dict, "fullscreen").Err?
  {
    HeaderFoldFails(canon, [("fullscreen", Item(Boolean(true)))]);
  }

  /** An empty inner list denies. */
  lemma HeaderEmptyList(canon: Canon)
    ensures MemberAllowList(canon, InnerList([])) == Ok(Deny)
  {
  }

  /** The token `none` denies. */
  lemma HeaderNoneToken(canon: Canon)
    ensures MemberAllowList(canon, Item(Token("none"))) == Ok(Deny)
  {
    MemberRule(canon, Item(Token("none")), 0);
  }

  /** `(*)` allows every origin. */
  lemma HeaderWildcardList(canon: Canon)
    ensures MemberAllowList(canon, InnerList([Token("*")])) == Ok(Wildcard)
  {
    MemberRule(canon, InnerList([Token("*")]), 0);
  }

  /** `(self)` is kept as the `'self'` marker. */
  lemma HeaderSelfList(canon: Canon)
    ensures MemberAllowList(canon, InnerList([Token("self")])) == Ok(Targets({SelfMarker}))
  {
    var items := [Token("self")];
    assert forall j :: 0 <= j < |items| ==> !Stops(items[j]);
    FirstStopIs(items, |items|);
    assert HeaderTargetSet(canon, items, 1) == {SelfMarker};
  }

  /** `(self "https://example.com")` gives the marker and the origin. */
  lemma HeaderSelfAndOrigin(canon: Canon)
    requires canon(Embedded) == Some(Embedded)
    ensures MemberAllowList(canon, InnerList([Token("self"), Str(Embedded)])) ==
              Ok(Targets({SelfMarker, Concrete(Embedded)}))
  {
    var items := [Token("self"), Str(Embedded)];
    assert forall j :: 0 <= j < |items| ==> !Stops(items[j]);
    FirstStopIs(items, |items|);
    assert HeaderTargetSet(canon, items, 1) == {SelfMarker};
    assert HeaderTarget(canon, Str(Embedded)) == Some(Concrete(Embedded)) by {
      assert ItemText(Str(Embedded)) != "self" by { assert Embedded[0] != "self"[0]; }
    }
    assert HeaderTargetSet(canon, items, 2) == {SelfMarker} + {Concrete(Embedded)};
    assert {SelfMarker} + {Concrete(Embedded)} == {SelfMarker, Concrete(Embedded)};
    assert HeaderTargetSet(canon, items, 2) != {} by {
      assert SelfMarker in HeaderTargetSet(canon, items, 2);
    }
    assert MemberItems(InnerList(items)) == items;
    assert MemberAllowList(canon, InnerList(items)) == Ok(Targets(HeaderTargetSet(canon, items, 2)));
  }

  // ---------------------------------------------------------------------------
  // allowsFeature
  // ---------------------------------------------------------------------------

  const SelfDefault: map<Feature, DefaultAllowlist> := map["fullscreen" := DefaultSelf]
  const WildcardDefault: map<Feature, DefaultAllowlist> := map["fullscreen" := DefaultWildcard]

  lemma NormalizeEmpty(selfOrigin: Origin, src: Option<Origin>)
    ensures NormalizedValue(ParsedValue(map[], false), selfOrigin, src) == ParsedValue(map[], true)
  {
  }

  lemma NormalizeSingle(f: Feature, v: AllowList, selfOrigin: Origin, src: Option<Origin>)
    ensures NormalizedValue(ParsedValue(map[f := v], false), selfOrigin, src) ==
              ParsedValue(map[f := NormalizeEntry(v, selfOrigin, src)], true)
  {
  }

  /** The top-level policy for header text whose parsed map is known. */
  lemma TopLevelPolicy(canon: Canon, dict: DictionaryParser, origin: Origin, text: string, m: PolicyMap,
                       defaults: map<Feature, DefaultAllowlist>)
    requires canon(origin) == Some(origin) && HeaderValue(canon, dict, text) == Ok(m)
    ensures Construct(canon, dict, origin, Text(text), Some(defaults), None) ==
              Ok(PermissionsPolicy(origin, NormalizedValue(ParsedValue(m, false), origin, None), defaults,
                                   ParsedValue(map[], false), "", false))
  {
  }

  lemma AllowParsed(canon: Canon, text: string, m: PolicyMap)
    requires AllowValue(canon, text) == m
    ensures ParsedAllow(canon, Text(text)) == ParsedValue(m, false)
  {
  }

  /** The frame policy `inherit` gives a normalised-header policy with a canonical page origin. */
  lemma FramePolicy(p: PermissionsPolicy, canon: Canon, dict: DictionaryParser, fi: FrameInfo)
    requires canon(p.origin) == Some(p.origin) && p.header.normalized
    requires canon(fi.origin) == Some(fi.origin) && fi.origin != ""
    ensures var r := Inherit(p, canon, dict, fi);
            && r.Ok?
            && r.value == PermissionsPolicy(p.origin, p.header, p.defaultAllowList,
                 NormalizedValue(ParsedAllow(canon, fi.allow), p.origin, Some(fi.origin)), fi.origin, true)
  {
    var r := Inherit(p, canon, dict, fi);
    assert r.value.origin == p.origin;
    assert r.value.header == p.header;
  }

  /** `p` embedding a frame at `frameOrigin` whose normalised `allow` map is `allow`. */
  function Framed(p: PermissionsPolicy, allow: PolicyMap, frameOrigin: Origin): PermissionsPolicy {
    PermissionsPolicy(p.origin, p.header, p.defaultAllowList, ParsedValue(allow, true), frameOrigin, true)
  }

  lemma EmptyHeader(canon: Canon, dict: DictionaryParser)
    requires dict("") == Result<ParsedDictionary>.Ok([])
    ensures HeaderValue(canon, dict, "") == Ok(map[])
  {
  }

  /** The policy of a page at `origin` with no header and the given defaults. */
  function Page(origin: Origin, defaults: map<Feature, DefaultAllowlist>): PermissionsPolicy {
    PermissionsPolicy(origin, ParsedValue(map[], true), defaults, ParsedValue(map[], false), "", false)
  }

  lemma PageWithoutHeader(canon: Canon, dict: DictionaryParser, origin: Origin,
                          defaults: map<Feature, DefaultAllowlist>)
    requires canon(origin) == Some(origin) && dict("") == Result<ParsedDictionary>.Ok([])
    ensures Construct(canon, dict, origin, Text(""), Some(defaults), None) == Ok(Page(origin, defaults))
  {
    EmptyHeader(canon, dict);
    TopLevelPolicy(canon, dict, origin, "", map[], defaults);
    NormalizeEmpty(origin, None);
  }

  lemma DistinctOrigins()
    ensures Host != Embedded && Host != Other && Embedded != Other
  {
  }

  /** With no header and a `'self'` default, only the page itself may use the feature. */
  lemma TopLevelSelfDefault(canon: Canon, dict: DictionaryParser)
    requires KnowsExamples(canon) && dict("") == Result<ParsedDictionary>.Ok([])
    ensures var p := Construct(canon, dict, Host, Text(""), Some(SelfDefault), None);
            && p.Ok?
            && AllowsFeature(p.value, canon, "fullscreen", None) == Ok(true)
            && AllowsFeature(p.value, canon, "fullscreen", Some(Host)) == Ok(true)
            && AllowsFeature(p.value, canon, "fullscreen", Some(Embedded)) == Ok(false)
  {
    PageWithoutHeader(canon, dict, Host, SelfDefault);
    DistinctOrigins();
  }

  /** With no header and a `*` default, every origin may use the feature. */
  lemma TopLevelWildcardDefault(canon: Canon, dict: DictionaryParser)
    requires KnowsExamples(canon) && dict("") == Result<ParsedDictionary>.Ok([])
    ensures var p := Construct(canon, dict, Host, Text(""), Some(WildcardDefault), None);
            && p.Ok?
            && AllowsFeature(p.value, canon, "fullscreen", None) == Ok(true)
            && AllowsFeature(p.value, canon, "fullscreen", Some(Host)) == Ok(true)
            && AllowsFeature(p.value, canon, "fullscreen", Some(Embedded)) == Ok(true)
  {
    PageWithoutHeader(canon, dict, Host, WildcardDefault);
  }

  /** `fullscreen=()` at top level denies the page itself. */
  lemma TopLevelHeaderDenies(canon: Canon, dict: DictionaryParser, o: Option<string>)
    requires KnowsExamples(canon) && dict("fullscreen=()") == Result<ParsedDictionary>.Ok([("fullscreen", InnerList([]))])
    requires o == None || o == Some(Host) || o == Some(Embedded)
    ensures var p := Construct(canon, dict, Host, Text("fullscreen=()"), Some(SelfDefault), None);
            p.Ok? && AllowsFeature(p.value, canon, "fullscreen", o) == Ok(false)
  {
    HeaderEmptyList(canon);
    assert [("fullscreen", InnerList([]))][..0] == [];
    TopLevelPolicy(canon, dict, Host, "fullscreen=()", map["fullscreen" := Deny], SelfDefault);
    NormalizeSingle("fullscreen", Deny, Host, None);
  }

  lemma EmptyAllowFrame(canon: Canon, dict: DictionaryParser, page: Origin)
    requires KnowsExamples(canon) && dict("") == Result<ParsedDictionary>.Ok([]) && canon(page) == Some(page)
    ensures Inherit(Construct(canon, dict, page, Text(""), Some(SelfDefault), None).value,
                    canon, dict, FrameInfo(Text(""), Embedded)) == Ok(Framed(Page(page, SelfDefault), map[], Embedded))
  {
    PageWithoutHeader(canon, dict, page, SelfDefault);
    FramePolicy(Page(page, SelfDefault), canon, dict, FrameInfo(Text(""), Embedded));
    AllowEmpty(canon);
    AllowParsed(canon, "", map[]);
    NormalizeEmpty(page, Some(Embedded));
  }

  lemma FeatureAllowFrame(canon: Canon, dict: DictionaryParser, top: PermissionsPolicy)
    requires KnowsExamples(canon) && canon(top.origin) == Some(top.origin) && top.header.normalized
    ensures Inherit(top, canon, dict, FrameInfo(Text("fullscreen"), Embedded)) ==
              Ok(Framed(top, map["fullscreen" := Targets({Concrete(Embedded)})], Embedded))
  {
    FramePolicy(top, canon, dict, FrameInfo(Text("fullscreen"), Embedded));
    AllowFeatureOnly(canon);
    AllowParsed(canon, "fullscreen", map["fullscreen" := Targets({})]);
    NormalizeSingle("fullscreen", Targets({}), top.origin, Some(Embedded));
  }

  /** A cross-origin frame never gets a default-`'self'` feature its `allow` does not name. */
  lemma CrossOriginFrameDefault(canon: Canon, dict: DictionaryParser, o: Option<string>)
    requires KnowsExamples(canon) && dict("") == Result<ParsedDictionary>.Ok([])
    requires o == None || o == Some(Host) || o == Some(Embedded) || o == Some(Other)
    ensures var top := Construct(canon, dict, Host, Text(""), Some(SelfDefault), None);
            var frame := Inherit(top.value, canon, dict, FrameInfo(Text(""), Embedded));
            && top.Ok? && frame.Ok?
            && AllowsFeature(frame.value, canon, "fullscreen", o) == Ok(false)
  {
    PageWithoutHeader(canon, dict, Host, SelfDefault);
    EmptyAllowFrame(canon, dict, Host);
    SilentFrameDecision(canon, Host, o);
  }

  /** The decisions in a frame at `Embedded` whose page has no header and whose `allow` is empty. */
  lemma SilentFrameDecision(canon: Canon, page: Origin, o: Option<string>)
    requires KnowsExamples(canon)
    requires o == None || o == Some(Host) || o == Some(Embedded) || o == Some(Other)
    ensures var f := Framed(Page(page, SelfDefault), map[], Embedded);
            AllowsFeature(f, canon, "fullscreen", o) ==
              Ok(page == Embedded && (o == None || o == Some(Embedded)))
  {
    DistinctOrigins();
    var f := Framed(Page(page, SelfDefault), map[], Embedded);
    assert DefaultFor(f, "fullscreen") == Some(DefaultSelf);
    assert CheckedOrigin(f, canon, o) == Ok(if o.None? then Embedded else o.value);
  }

  /**
   * `allow="fullscreen"` on a cross-origin frame: the empty list means the frame
   * origin, so the frame may use the feature for itself and for nobody else.
   */
  lemma CrossOriginFrameAllowed(canon: Canon, dict: DictionaryParser)
    requires KnowsExamples(canon) && dict("") == Result<ParsedDictionary>.Ok([])
    ensures var top := Construct(canon, dict, Host, Text(""), Some(SelfDefault), None);
            var frame := Inherit(top.value, canon, dict, FrameInfo(Text("fullscreen"), Embedded));
            && top.Ok? && frame.Ok?
            && AllowsFeature(frame.value, canon, "fullscreen", None) == Ok(true)
            && AllowsFeature(frame.value, canon, "fullscreen", Some(Embedded)) == Ok(true)
            && AllowsFeature(frame.value, canon, "fullscreen", Some(Host)) == Ok(false)
            && AllowsFeature(frame.value, canon, "fullscreen", Some(Other)) == Ok(false)
  {
    PageWithoutHeader(canon, dict, Host, SelfDefault);
    FeatureAllowFrame(canon, dict, Page(Host, SelfDefault));
    FeatureFrameDecisions(canon, Page(Host, SelfDefault));
  }

  lemma FeatureFrameDecisions(canon: Canon, top: PermissionsPolicy)
    requires KnowsExamples(canon) && top.origin == Host && "fullscreen" !in top.header.entries
    ensures var f := Framed(top, map["fullscreen" := Targets({Concrete(Embedded)})], Embedded);
            && AllowsFeature(f, canon, "fullscreen", None) == Ok(true)
            && AllowsFeature(f, canon, "fullscreen", Some(Embedded)) == Ok(true)
            && AllowsFeature(f, canon, "fullscreen", Some(Host)) == Ok(false)
            && AllowsFeature(f, canon, "fullscreen", Some(Other)) == Ok(false)
  {
    DistinctOrigins();
  }

  /**
   * A header that names only the page (`fullscreen=(self)`) keeps the feature
   * from a cross-origin frame even when its `allow` names it.
   */
  lemma CrossOriginFrameHeaderSelf(canon: Canon, dict: DictionaryParser, o: Option<string>)
    requires KnowsExamples(canon)
    requires dict("fullscreen=(self)") == Result<ParsedDictionary>.Ok([("fullscreen", InnerList([Token("self")]))])
    requires o == None || o == Some(Host) || o == Some(Embedded) || o == Some(Other)
    ensures var top := Construct(canon, dict, Host, Text("fullscreen=(self)"), Some(SelfDefault), None);
            var frame := Inherit(top.value, canon, dict, FrameInfo(Text("fullscreen"), Embedded));
            && top.Ok? && frame.Ok?
            && AllowsFeature(frame.value, canon, "fullscreen", o) == Ok(false)
  {
    var top := SelfHeaderPage(canon, dict);
    FeatureAllowFrame(canon, dict, top);
    SelfHeaderFrameDecision(canon, top, o);
  }

  lemma SelfHeaderFrameDecision(canon: Canon, top: PermissionsPolicy, o: Option<string>)
    requires KnowsExamples(canon)
    requires o == None || o == Some(Host) || o == Some(Embedded) || o == Some(Other)
    requires top.header.entries == map["fullscreen" := Targets({Concrete(Host)})]
    ensures AllowsFeature(Framed(top, map["fullscreen" := Targets({Concrete(Embedded)})], Embedded),
                          canon, "fullscreen", o) == Ok(false)
  {
    DistinctOrigins();
    var f := Framed(top, map["fullscreen" := Targets({Concrete(Embedded)})], Embedded);
    assert CheckedOrigin(f, canon, o).Ok?;
    assert !Decide(f, "fullscreen", CheckedOrigin(f, canon, o).value);
  }

  /** The page policy for `Permissions-Policy: fullscreen=(self)`. */
  lemma SelfHeaderPage(canon: Canon, dict: DictionaryParser) returns (top: PermissionsPolicy)
    requires KnowsExamples(canon)
    requires dict("fullscreen=(self)") == Result<ParsedDictionary>.Ok([("fullscreen", InnerList([Token("self")]))])
    ensures Construct(canon, dict, Host, Text("fullscreen=(self)"), Some(SelfDefault), None) == Ok(top)
    ensures top == PermissionsPolicy(Host, ParsedValue(map["fullscreen" := Targets({Concrete(Host)})], true),
                                     SelfDefault, ParsedValue(map[], false), "", false)
  {
    HeaderSelfList(canon);
    assert [("fullscreen", InnerList([Token("self")]))][..0] == [];
    TopLevelPolicy(canon, dict, Host, "fullscreen=(self)", map["fullscreen" := Targets({SelfMarker})], SelfDefault);
    NormalizeSingle("fullscreen", Targets({SelfMarker}), Host, None);
    assert NormalizeEntry(Targets({SelfMarker}), Host, None) == Targets({Concrete(Host)});
    top := PermissionsPolicy(Host, ParsedValue(map["fullscreen" := Targets({Concrete(Host)})], true),
                             SelfDefault, ParsedValue(map[], false), "", false);
  }

  /** A same-origin frame without `allow` inherits a default-`'self'` feature for its own origin only. */
  lemma SameOriginFrameDefault(canon: Canon, dict: DictionaryParser)
    requires KnowsExamples(canon) && dict("") == Result<ParsedDictionary>.Ok([])
    ensures var top := Construct(canon, dict, Embedded, Text(""), Some(SelfDefault), None);
            var frame := Inherit(top.value, canon, dict, FrameInfo(Text(""), Embedded));
            && top.Ok? && frame.Ok?
            && AllowsFeature(frame.value, canon, "fullscreen", None) == Ok(true)
            && AllowsFeature(frame.value, canon, "fullscreen", Some(Embedded)) == Ok(true)
            && AllowsFeature(frame.value, canon, "fullscreen", Some(Host)) == Ok(false)
            && AllowsFeature(frame.value, canon, "fullscreen", Some(Other)) == Ok(false)
  {
    PageWithoutHeader(canon, dict, Embedded, SelfDefault);
    EmptyAllowFrame(canon, dict, Embedded);
    SilentFrameDecision(canon, Embedded, None);
    SilentFrameDecision(canon, Embedded, Some(Embedded));
    SilentFrameDecision(canon, Embedded, Some(Host));
    SilentFrameDecision(canon, Embedded, Some(Other));
  }
}
