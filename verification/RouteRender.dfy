/**
 Compilation of Clash routing rules into a sing-box route table, and of inline provider payloads
 into headless rule-sets. The meaning of a rule list is the outbound it gives to a connection.
 */
module RouteRender {
  import opened Common
  import opened Text
  import opened RuleLine
  import Cidr

  /** The matcher keys shared by route rules and headless rules. */
  datatype HeadlessRule = HeadlessRule(
    domain: Option<seq<string>>,
    domainKeyword: Option<seq<string>>,
    domainSuffix: Option<seq<string>>,
    ipCidr: Option<seq<string>>)

  datatype RouteRule = RouteRule(
    keys: HeadlessRule, outbound: string, ruleSet: Option<string>, ipIsPrivate: Option<bool>)

  datatype Behavior = DomainList | SuffixList | CidrList | Classical

  datatype ProviderSource = Http(url: string, intervalMs: u64) | File(path: string) | Inline(payload: string)

  datatype Format = SourceFormat | BinaryFormat

  datatype RuleProvider = RuleProvider(name: string, source: ProviderSource, behavior: Behavior, format: Format)

  /** A Go duration of whole hours, minutes or seconds. */
  datatype Interval = Interval(count: nat, unit: char)

  datatype RuleSetSource = RuleSetSource(
    behavior: Option<string>,
    downloadInterval: Option<Interval>,
    format: Option<string>,
    path: Option<string>,
    rules: Option<seq<HeadlessRule>>,
    tag: string,
    kind: string,
    url: Option<string>)

  datatype SingBoxRules = SingBoxRules(
    rules: seq<RouteRule>,
    ruleSets: seq<RuleSetSource>,
    finalOutbound: string,
    blockOutbound: bool,
    skipped: nat)

  /** What the surrounding document can represent. */
  datatype Document = Document(proxyRepresentable: bool, groups: set<string>, providerTags: set<string>)

  const NO_KEYS := HeadlessRule(None, None, None, None)

  // ----- Policies and matchers -----

  /** A tag exists for every policy except a proxy in a document without proxies. */
  function OutboundTag(policy: RulePolicy, doc: Document): (tag: Option<string>)
    ensures tag.None? <==> policy.Proxy? && !doc.proxyRepresentable
    ensures tag.Some? && !doc.proxyRepresentable ==> tag.value in {"direct", "block"}
    ensures tag.Some? ==> tag.value in {"direct", "block", "PROXY", "GLOBAL"} + doc.groups
  {
    match policy
    case Direct => Some("direct")
    case Reject => Some("block")
    case Proxy(group) =>
      if !doc.proxyRepresentable then None
      else if group in doc.groups || group == "GLOBAL" then Some(group)
      else Some("PROXY")
  }

  predicate IsPrivateCode(code: string) {
    ToLower(code) == "private"
  }

  function MatcherObject(matcher: RuleMatch, outbound: string, tags: set<string>): Option<RouteRule> {
    match matcher
    case Domain(t) => Some(RouteRule(NO_KEYS.(domain := Some([t])), outbound, None, None))
    case DomainSuffix(t) => Some(RouteRule(NO_KEYS.(domainSuffix := Some([t])), outbound, None, None))
    case DomainKeyword(t) => Some(RouteRule(NO_KEYS.(domainKeyword := Some([t])), outbound, None, None))
    case IpCidr(t) => Some(RouteRule(NO_KEYS.(ipCidr := Some([t])), outbound, None, None))
    case Geoip(code) =>
      if IsPrivateCode(code) then Some(RouteRule(NO_KEYS, outbound, None, Some(true)))
      else if ToLower(code) in tags then Some(RouteRule(NO_KEYS, outbound, Some(code), None))
      else None
    case RuleSet(name) => Some(RouteRule(NO_KEYS, outbound, Some(name), None))
    case Geosite(code) => if ToLower(code) in tags then Some(RouteRule(NO_KEYS, outbound, Some(code), None)) else None
    case ProcessName(_) => None
    case SourceIpCidr(_) => None
    case Match => None
  }

  /** Everything but catch-alls and Mihomo's own matchers; geo codes only as private or as a declared provider. */
  predicate Representable(matcher: RuleMatch, tags: set<string>) {
    && !matcher.Match? && !matcher.ProcessName? && !matcher.SourceIpCidr?
    && (matcher.Geoip? && !IsPrivateCode(matcher.text) ==> ToLower(matcher.text) in tags)
    && (matcher.Geosite? ==> ToLower(matcher.text) in tags)
  }

  /** The rules that leave nothing in the table and no final outbound, and are counted as skipped. */
  lemma DroppedIff(rule: RoutingRule, doc: Document)
    ensures !Kept(rule, doc) <==>
      || (rule.policy.Proxy? && !doc.proxyRepresentable)
      || (!rule.matcher.Match? && !Representable(rule.matcher, doc.providerTags))
  {
  }

  // ----- What rules mean for a connection -----

  /** A connection: its host, and the address blocks and rule-sets it falls under. */
  datatype Traffic = Traffic(host: string, cidrs: set<string>, ruleSets: set<string>, isPrivate: bool)

  function HostOnly(host: string): Traffic {
    Traffic(host, {}, {}, false)
  }

  predicate MatcherHits(matcher: RuleMatch, t: Traffic) {
    match matcher
    case IpCidr(cidr) => cidr in t.cidrs
    case Geoip(code) => if IsPrivateCode(code) then t.isPrivate else code in t.ruleSets
    case RuleSet(name) => name in t.ruleSets
    case Geosite(code) => code in t.ruleSets
    case _ => MatchesHost(RoutingRule(matcher, Direct, RuleFlags(false, false)), t.host)
  }

  /** With nothing but a host known, this is the offline host matcher. */
  lemma HostOnlyIsOffline(rule: RoutingRule, host: string)
    ensures MatcherHits(rule.matcher, HostOnly(host)) <==> MatchesHost(rule, host)
  {
  }

  predicate KeysHit(keys: HeadlessRule, t: Traffic) {
    var host := ToLower(t.host);
    || (keys.domain.Some? && exists d :: d in keys.domain.value && host == ToLower(d))
    || (keys.domainSuffix.Some?
        && exists d :: d in keys.domainSuffix.value && (host == ToLower(d) || EndsWith(host, "." + ToLower(d))))
    || (keys.domainKeyword.Some? && exists d :: d in keys.domainKeyword.value && Contains(host, ToLower(d)))
    || (keys.ipCidr.Some? && exists d :: d in keys.ipCidr.value && d in t.cidrs)
  }

  predicate RouteHits(rule: RouteRule, t: Traffic) {
    || KeysHit(rule.keys, t)
    || (rule.ruleSet.Some? && rule.ruleSet.value in t.ruleSets)
    || (rule.ipIsPrivate == Some(true) && t.isPrivate)
  }

  lemma ObjectMeansMatcher(matcher: RuleMatch, outbound: string, tags: set<string>, t: Traffic)
    requires MatcherObject(matcher, outbound, tags).Some?
    ensures MatcherObject(matcher, outbound, tags).value.outbound == outbound
    ensures RouteHits(MatcherObject(matcher, outbound, tags).value, t) <==> MatcherHits(matcher, t)
  {
    if matcher.Domain? || matcher.DomainSuffix? || matcher.DomainKeyword? || matcher.IpCidr? {
      assert matcher.text in [matcher.text];
    }
  }

  /** First match over the table, then `route.final`. */
  function Route(rules: seq<RouteRule>, final: string, t: Traffic): string {
    if rules == [] then final
    else if RouteHits(rules[0], t) then rules[0].outbound
    else Route(rules[1..], final, t)
  }

  function DefaultOutbound(doc: Document): string {
    if doc.proxyRepresentable then "PROXY" else "direct"
  }

  /** The document can carry the rule: a tag for the policy and, unless catch-all, an object for the matcher. */
  predicate Kept(rule: RoutingRule, doc: Document) {
    var tag := OutboundTag(rule.policy, doc);
    tag.Some? && (rule.matcher.Match? || MatcherObject(rule.matcher, tag.value, doc.providerTags).Some?)
  }

  predicate KeptOrdinary(rule: RoutingRule, doc: Document) {
    Kept(rule, doc) && !rule.matcher.Match?
  }

  predicate KeptMatch(rule: RoutingRule, doc: Document) {
    Kept(rule, doc) && rule.matcher.Match?
  }

  function Tag(rule: RoutingRule, doc: Document): string
    requires Kept(rule, doc)
  {
    OutboundTag(rule.policy, doc).value
  }

  /** The source list with skipped rules erased. */
  function Erase(rules: seq<RoutingRule>, doc: Document): seq<RoutingRule> {
    if rules == [] then []
    else (if Kept(rules[0], doc) then [rules[0]] else []) + Erase(rules[1..], doc)
  }

  function FirstHit(rules: seq<RoutingRule>, t: Traffic): Option<RoutingRule> {
    if rules == [] then None
    else if MatcherHits(rules[0].matcher, t) then Some(rules[0])
    else FirstHit(rules[1..], t)
  }

  function MatchHost(rules: seq<RoutingRule>, host: string): Option<RoutingRule> {
    if rules == [] then None
    else if MatchesHost(rules[0], host) then Some(rules[0])
    else MatchHost(rules[1..], host)
  }

  lemma {:induction false} FirstHitIsMatchHost(rules: seq<RoutingRule>, host: string)
    ensures FirstHit(rules, HostOnly(host)) == MatchHost(rules, host)
  {
    if rules != [] {
      HostOnlyIsOffline(rules[0], host);
      FirstHitIsMatchHost(rules[1..], host);
    }
  }

  /** Nothing but an address is known, and the blocks it falls under. */
  ghost predicate AddressOnly(parser: Cidr.Parser, rules: seq<RoutingRule>, ip: string, t: Traffic) {
    && t.host == "" && t.ruleSets == {} && !t.isPrivate
    && forall k :: 0 <= k < |rules| && rules[k].matcher.IpCidr? ==>
      (rules[k].matcher.text in t.cidrs <==> Cidr.IpFallsUnder(parser, rules[k], ip))
  }

  lemma AddressHits(parser: Cidr.Parser, rules: seq<RoutingRule>, ip: string, t: Traffic, k: nat)
    requires AddressOnly(parser, rules, ip, t) && k < |rules| && Canonical(rules[k])
    ensures MatcherHits(rules[k].matcher, t) <==> Cidr.IpFallsUnder(parser, rules[k], ip)
  {
  }

  /** With nothing but an address known, the first hit is the first rule whose block shares its leading bits. */
  lemma {:induction false} FirstHitIsMatchIp(parser: Cidr.Parser, rules: seq<RoutingRule>, ip: string, t: Traffic)
    requires AddressOnly(parser, rules, ip, t) && forall k :: 0 <= k < |rules| ==> Canonical(rules[k])
    ensures FirstHit(rules, t).None? <==> forall k :: 0 <= k < |rules| ==> !Cidr.IpFallsUnder(parser, rules[k], ip)
    ensures FirstHit(rules, t).Some? ==>
      exists k: nat :: k < |rules| && FirstHit(rules, t).value == rules[k] && Cidr.FirstUnder(parser, rules, ip, k)
  {
    if rules != [] {
      AddressHits(parser, rules, ip, t, 0);
      if MatcherHits(rules[0].matcher, t) {
        assert Cidr.FirstUnder(parser, rules, ip, 0);
      } else {
        var rest := rules[1..];
        assert forall k :: 0 <= k < |rest| ==> rest[k] == rules[k + 1];
        FirstHitIsMatchIp(parser, rest, ip, t);
        if FirstHit(rest, t).Some? {
          var k: nat :| k < |rest| && FirstHit(rest, t).value == rest[k] && Cidr.FirstUnder(parser, rest, ip, k);
          FirstUnderBehind(parser, rules, ip, k);
        }
      }
    }
  }

  lemma FirstUnderBehind(parser: Cidr.Parser, rules: seq<RoutingRule>, ip: string, k: nat)
    requires k + 1 < |rules| && !Cidr.IpFallsUnder(parser, rules[0], ip) && Cidr.FirstUnder(parser, rules[1..], ip, k)
    ensures Cidr.FirstUnder(parser, rules, ip, k + 1)
  {
    assert forall j :: 0 <= j <= k ==> rules[1..][j] == rules[j + 1];
  }

  /** What the rule list says: the tag of the first kept rule that hits, or the default. */
  function Decision(rules: seq<RoutingRule>, doc: Document, t: Traffic): string {
    var hit := FirstHit(Erase(rules, doc), t);
    if hit.Some? && Kept(hit.value, doc) then Tag(hit.value, doc) else DefaultOutbound(doc)
  }

  // ----- What the renderer computes -----

  function Emitted(rules: seq<RoutingRule>, doc: Document): seq<RouteRule> {
    if rules == [] then []
    else
      (if KeptOrdinary(rules[0], doc)
       then [MatcherObject(rules[0].matcher, Tag(rules[0], doc), doc.providerTags).value] else [])
      + Emitted(rules[1..], doc)
  }

  function FirstFinal(rules: seq<RoutingRule>, doc: Document): Option<string> {
    if rules == [] then None
    else if KeptMatch(rules[0], doc) then Some(Tag(rules[0], doc))
    else FirstFinal(rules[1..], doc)
  }

  /** Rules that cannot be carried; catch-alls after the one that became final are not looked at. */
  function SkippedRules(rules: seq<RoutingRule>, doc: Document, finalSet: bool): nat {
    if rules == [] then 0
    else
      (if Kept(rules[0], doc) || (rules[0].matcher.Match? && finalSet) then 0 else 1)
      + SkippedRules(rules[1..], doc, finalSet || KeptMatch(rules[0], doc))
  }

  /** Some ordinary rule steers to `block`, whether or not its matcher can be carried. */
  predicate SteersToBlock(rule: RoutingRule, doc: Document) {
    !rule.matcher.Match? && OutboundTag(rule.policy, doc) == Some("block")
  }

  /** One turn of the loop: the object to emit, the final outbound so far, whether to flag `block` and what to skip. */
  method RenderOne(rule: RoutingRule, doc: Document, before: Option<string>)
    returns (emit: Option<RouteRule>, final: Option<string>, block: bool, skip: nat)
    ensures emit.Some? <==> KeptOrdinary(rule, doc)
    ensures emit.Some? ==> emit == MatcherObject(rule.matcher, Tag(rule, doc), doc.providerTags)
    ensures final == if before.None? && KeptMatch(rule, doc) then Some(Tag(rule, doc)) else before
    ensures block <==> SteersToBlock(rule, doc)
    ensures skip == if Kept(rule, doc) || (rule.matcher.Match? && before.Some?) then 0 else 1
  {
    emit, final, block, skip := None, before, false, 0;
    var tag := OutboundTag(rule.policy, doc);
    if rule.matcher.Match? {
      if final.None? {
        if tag.Some? {
          final := tag;
        } else {
          skip := 1;
        }
      }
      return;
    }
    if tag.None? {
      skip := 1;
      return;
    }
    if tag.value == "block" {
      block := true;
    }
    emit := MatcherObject(rule.matcher, tag.value, doc.providerTags);
    if emit.None? {
      skip := 1;
    }
  }

  /** What the loop variables hold before rule `i`. */
  ghost predicate RenderedTo(rules: seq<RoutingRule>, doc: Document, i: nat, objects: seq<RouteRule>,
                             final: Option<string>, skipped: nat) {
    && i <= |rules|
    && objects + Emitted(rules[i..], doc) == Emitted(rules, doc)
    && FirstFinal(rules, doc) == (if final.Some? then final else FirstFinal(rules[i..], doc))
    && skipped + SkippedRules(rules[i..], doc, final.Some?) == SkippedRules(rules, doc, false)
  }

  lemma EmittedFrom(rules: seq<RoutingRule>, doc: Document, i: nat)
    requires i < |rules|
    ensures Emitted(rules[i..], doc) ==
      if KeptOrdinary(rules[i], doc)
      then [MatcherObject(rules[i].matcher, Tag(rules[i], doc), doc.providerTags).value] + Emitted(rules[i + 1..], doc)
      else Emitted(rules[i + 1..], doc)
  {
    assert rules[i..][1..] == rules[i + 1..];
  }

  lemma RenderedOn(rules: seq<RoutingRule>, doc: Document, i: nat, objects: seq<RouteRule>, before: Option<string>,
                   skipped: nat,
                   emit: Option<RouteRule>, final: Option<string>, skip: nat)
    requires RenderedTo(rules, doc, i, objects, before, skipped) && i < |rules|
    requires emit.Some? <==> KeptOrdinary(rules[i], doc)
    requires emit.Some? ==> emit == MatcherObject(rules[i].matcher, Tag(rules[i], doc), doc.providerTags)
    requires final == if before.None? && KeptMatch(rules[i], doc) then Some(Tag(rules[i], doc)) else before
    requires skip == if Kept(rules[i], doc) || (rules[i].matcher.Match? && before.Some?) then 0 else 1
    ensures RenderedTo(rules, doc, i + 1, if emit.Some? then objects + [emit.value] else objects, final, skipped + skip)
  {
    EmittedFrom(rules, doc, i);
    assert rules[i..][1..] == rules[i + 1..];
  }

  method RenderRules(rules: seq<RoutingRule>, doc: Document)
    returns (objects: seq<RouteRule>, final: Option<string>, block: bool, skipped: nat)
    ensures objects == Emitted(rules, doc) && final == FirstFinal(rules, doc)
    ensures skipped == SkippedRules(rules, doc, false)
    ensures block <==> exists k :: 0 <= k < |rules| && SteersToBlock(rules[k], doc)
  {
    objects, final, block, skipped := [], None, false, 0;
    var i := 0;
    assert rules[0..] == rules;
    while i < |rules|
      invariant 0 <= i <= |rules| && RenderedTo(rules, doc, i, objects, final, skipped)
      invariant block <==> exists k :: 0 <= k < i && SteersToBlock(rules[k], doc)
    {
      var emit, next, steers, skip := RenderOne(rules[i], doc, final);
      RenderedOn(rules, doc, i, objects, final, skipped, emit, next, skip);
      if emit.Some? {
        objects := objects + [emit.value];
      }
      final, block, skipped := next, block || steers, skipped + skip;
      i := i + 1;
    }
    assert rules[i..] == [];
  }

  // ----- Meaning preservation -----

  /** The rendered table: emitted rules first, the first representable MATCH last. */
  function Rendered(rules: seq<RoutingRule>, doc: Document, t: Traffic): string {
    var final := FirstFinal(rules, doc);
    Route(Emitted(rules, doc), if final.Some? then final.value else DefaultOutbound(doc), t)
  }

  predicate Applies(rule: RoutingRule, doc: Document, t: Traffic) {
    KeptOrdinary(rule, doc) && MatcherHits(rule.matcher, t)
  }

  /**
   An ordinary rule behind the catch-all is the first ordinary rule that hits, and steers elsewhere
   than the catch-all. Rule `i` is the first representable MATCH, rule `j` the one behind it.
   */
  predicate OvertakenBy(rules: seq<RoutingRule>, doc: Document, t: Traffic, i: nat, j: nat)
    requires i < |rules| && j < |rules|
  {
    && i < j
    && KeptMatch(rules[i], doc) && (forall k :: 0 <= k < i ==> !KeptMatch(rules[k], doc))
    && Applies(rules[j], doc, t) && (forall k :: 0 <= k < j ==> !Applies(rules[k], doc, t))
    && Tag(rules[i], doc) != Tag(rules[j], doc)
  }

  ghost predicate Overtaken(rules: seq<RoutingRule>, doc: Document, t: Traffic) {
    exists i: nat, j: nat :: i < |rules| && j < |rules| && OvertakenBy(rules, doc, t, i, j)
  }

  lemma RouteStep(rules: seq<RoutingRule>, doc: Document, final: string, t: Traffic)
    requires rules != []
    ensures Route(Emitted(rules, doc), final, t) ==
      if Applies(rules[0], doc, t) then Tag(rules[0], doc) else Route(Emitted(rules[1..], doc), final, t)
  {
    EmittedFrom(rules, doc, 0);
    assert rules[0..] == rules;
    if KeptOrdinary(rules[0], doc) {
      ObjectMeansMatcher(rules[0].matcher, Tag(rules[0], doc), doc.providerTags, t);
      assert Emitted(rules, doc)[1..] == Emitted(rules[1..], doc);
    }
  }

  /** Rule `j` is the first the table can carry that hits, or there is none. */
  ghost predicate FirstApplies(rules: seq<RoutingRule>, doc: Document, t: Traffic, j: nat) {
    && j <= |rules| && (j < |rules| ==> Applies(rules[j], doc, t))
    && forall k :: 0 <= k < j ==> !Applies(rules[k], doc, t)
  }

  lemma {:induction false} RouteIsFirstApplicable(rules: seq<RoutingRule>, doc: Document, final: string, t: Traffic,
                                                  j: nat)
    requires FirstApplies(rules, doc, t, j)
    ensures Route(Emitted(rules, doc), final, t) == if j < |rules| then Tag(rules[j], doc) else final
    decreases j
  {
    if rules != [] {
      RouteStep(rules, doc, final, t);
      if j > 0 {
        assert forall k :: 0 <= k < |rules| - 1 ==> rules[1..][k] == rules[k + 1];
        RouteIsFirstApplicable(rules[1..], doc, final, t, j - 1);
      }
    }
  }

  /** Rule `i` is the first catch-all the table can carry, or there is none. */
  ghost predicate FirstCatches(rules: seq<RoutingRule>, doc: Document, i: nat) {
    && i <= |rules| && (i < |rules| ==> KeptMatch(rules[i], doc))
    && forall k :: 0 <= k < i ==> !KeptMatch(rules[k], doc)
  }

  lemma {:induction false} FirstFinalAt(rules: seq<RoutingRule>, doc: Document, i: nat)
    requires FirstCatches(rules, doc, i)
    ensures FirstFinal(rules, doc) == if i < |rules| then Some(Tag(rules[i], doc)) else None
    decreases i
  {
    if i > 0 {
      assert forall k :: 0 <= k < |rules| - 1 ==> rules[1..][k] == rules[k + 1];
      FirstFinalAt(rules[1..], doc, i - 1);
    }
  }

  predicate Deciding(rule: RoutingRule, doc: Document, t: Traffic) {
    KeptMatch(rule, doc) || Applies(rule, doc, t)
  }

  lemma DecisionStep(rules: seq<RoutingRule>, doc: Document, t: Traffic)
    requires rules != []
    ensures Decision(rules, doc, t) ==
      if Deciding(rules[0], doc, t) then Tag(rules[0], doc) else Decision(rules[1..], doc, t)
  {
    var first, rest := rules[0], rules[1..];
    assert MatcherHits(Match, t);
    if Kept(first, doc) {
      assert Erase(rules, doc) == [first] + Erase(rest, doc);
      assert Erase(rules, doc)[1..] == Erase(rest, doc);
    } else {
      assert Erase(rules, doc) == Erase(rest, doc);
    }
  }

  /** Rule `j` is the first representable rule that hits, catch-alls included, or there is none. */
  ghost predicate FirstDecides(rules: seq<RoutingRule>, doc: Document, t: Traffic, j: nat) {
    && j <= |rules| && (j < |rules| ==> Deciding(rules[j], doc, t))
    && forall k :: 0 <= k < j ==> !Deciding(rules[k], doc, t)
  }

  lemma {:induction false} DecisionIsFirstDeciding(rules: seq<RoutingRule>, doc: Document, t: Traffic, j: nat)
    requires FirstDecides(rules, doc, t, j)
    ensures Decision(rules, doc, t) == if j < |rules| then Tag(rules[j], doc) else DefaultOutbound(doc)
    decreases j
  {
    if rules != [] {
      DecisionStep(rules, doc, t);
      if j > 0 {
        assert forall k :: 0 <= k < |rules| - 1 ==> rules[1..][k] == rules[k + 1];
        DecisionIsFirstDeciding(rules[1..], doc, t, j - 1);
      }
    }
  }

  ghost function FirstApplying(rules: seq<RoutingRule>, doc: Document, t: Traffic): (j: nat)
    ensures FirstApplies(rules, doc, t, j)
  {
    if rules == [] || Applies(rules[0], doc, t) then 0
    else
      assert forall k :: 0 < k < |rules| ==> rules[k] == rules[1..][k - 1];
      1 + FirstApplying(rules[1..], doc, t)
  }

  ghost function FirstCatching(rules: seq<RoutingRule>, doc: Document): (i: nat)
    ensures FirstCatches(rules, doc, i)
  {
    if rules == [] || KeptMatch(rules[0], doc) then 0
    else
      assert forall k :: 0 < k < |rules| ==> rules[k] == rules[1..][k - 1];
      1 + FirstCatching(rules[1..], doc)
  }

  /** The table decides by the first applicable rule, then by the first representable MATCH. */
  lemma RenderedByPosition(rules: seq<RoutingRule>, doc: Document, t: Traffic, i: nat, j: nat)
    requires FirstCatches(rules, doc, i) && FirstApplies(rules, doc, t, j)
    ensures Rendered(rules, doc, t) ==
      if j < |rules| then Tag(rules[j], doc) else if i < |rules| then Tag(rules[i], doc) else DefaultOutbound(doc)
  {
    FirstFinalAt(rules, doc, i);
    RouteIsFirstApplicable(rules, doc, if i < |rules| then Tag(rules[i], doc) else DefaultOutbound(doc), t, j);
  }

  /** The list decides by whichever of the two comes first. */
  lemma DecisionByPosition(rules: seq<RoutingRule>, doc: Document, t: Traffic, i: nat, j: nat)
    requires FirstCatches(rules, doc, i) && FirstApplies(rules, doc, t, j)
    ensures Decision(rules, doc, t) ==
      if j < i then Tag(rules[j], doc) else if i < |rules| then Tag(rules[i], doc) else DefaultOutbound(doc)
  {
    DecisionIsFirstDeciding(rules, doc, t, if j < i then j else i);
  }

  /** The table decides as the rule list does, except exactly on overtaken connections. */
  lemma RenderedMeansRules(rules: seq<RoutingRule>, doc: Document, t: Traffic)
    ensures Rendered(rules, doc, t) == Decision(rules, doc, t) <==> !Overtaken(rules, doc, t)
  {
    var i, j := FirstCatching(rules, doc), FirstApplying(rules, doc, t);
    RenderedByPosition(rules, doc, t, i, j);
    DecisionByPosition(rules, doc, t, i, j);
    OvertakenAtFirsts(rules, doc, t, i, j);
    if i < |rules| && j < |rules| {
      assert i != j;
    }
  }

  lemma OvertakenAtFirsts(rules: seq<RoutingRule>, doc: Document, t: Traffic, i: nat, j: nat)
    requires FirstCatches(rules, doc, i) && FirstApplies(rules, doc, t, j)
    ensures Overtaken(rules, doc, t) <==> i < j < |rules| && Tag(rules[i], doc) != Tag(rules[j], doc)
  {
    if i < j < |rules| && Tag(rules[i], doc) != Tag(rules[j], doc) {
      assert OvertakenBy(rules, doc, t, i, j);
    }
    if a: nat, b: nat :| a < |rules| && b < |rules| && OvertakenBy(rules, doc, t, a, b) {
      assert a == i && b == j;
    }
  }

  /** A list with no ordinary rule behind its first representable MATCH is rendered faithfully. */
  lemma CatchAllLastIsFaithful(rules: seq<RoutingRule>, doc: Document, t: Traffic)
    requires forall i, j :: 0 <= i < j < |rules| && KeptMatch(rules[i], doc) ==> !KeptOrdinary(rules[j], doc)
    ensures Rendered(rules, doc, t) == Decision(rules, doc, t)
  {
    RenderedMeansRules(rules, doc, t);
  }

  /** The offline matcher's answer, read as an outbound. */
  function HostDecision(rules: seq<RoutingRule>, doc: Document, host: string): string {
    var hit := MatchHost(Erase(rules, doc), host);
    if hit.Some? && Kept(hit.value, doc) then Tag(hit.value, doc) else DefaultOutbound(doc)
  }

  lemma HostsAreRoutedAsMatched(rules: seq<RoutingRule>, doc: Document, host: string)
    ensures Rendered(rules, doc, HostOnly(host)) == HostDecision(rules, doc, host)
      <==> !Overtaken(rules, doc, HostOnly(host))
  {
    FirstHitIsMatchHost(Erase(rules, doc), host);
    RenderedMeansRules(rules, doc, HostOnly(host));
  }

  lemma {:induction false} ErasedAreKept(rules: seq<RoutingRule>, doc: Document, k: nat)
    requires k < |Erase(rules, doc)|
    ensures Kept(Erase(rules, doc)[k], doc) && Erase(rules, doc)[k] in rules
  {
    if !Kept(rules[0], doc) {
      assert Erase(rules, doc) == Erase(rules[1..], doc);
      ErasedAreKept(rules[1..], doc, k);
    } else if k > 0 {
      assert Erase(rules, doc)[k] == Erase(rules[1..], doc)[k - 1];
      ErasedAreKept(rules[1..], doc, k - 1);
    }
  }

  /** The first kept rule the address falls under, by position in the erased list; its length when there is none. */
  ghost predicate FirstKeptUnder(parser: Cidr.Parser, rules: seq<RoutingRule>, doc: Document, ip: string, k: nat) {
    var kept := Erase(rules, doc);
    if k < |kept| then Cidr.FirstUnder(parser, kept, ip, k)
    else k == |kept| && forall j :: 0 <= j < k ==> !Cidr.IpFallsUnder(parser, kept[j], ip)
  }

  ghost function AddressOutbound(rules: seq<RoutingRule>, doc: Document, k: nat): string {
    var kept := Erase(rules, doc);
    if k < |kept| && Kept(kept[k], doc) then Tag(kept[k], doc) else DefaultOutbound(doc)
  }

  lemma AddressDecision(parser: Cidr.Parser, rules: seq<RoutingRule>, doc: Document, ip: string, t: Traffic, k: nat)
    requires (forall r :: r in rules ==> Canonical(r)) && AddressOnly(parser, Erase(rules, doc), ip, t)
    requires FirstKeptUnder(parser, rules, doc, ip, k)
    ensures Decision(rules, doc, t) == AddressOutbound(rules, doc, k)
  {
    var kept := Erase(rules, doc);
    forall j | 0 <= j < |kept|
      ensures Canonical(kept[j])
    {
      ErasedAreKept(rules, doc, j);
    }
    FirstHitIsMatchIp(parser, kept, ip, t);
    if FirstHit(kept, t).Some? {
      var j: nat :| j < |kept| && FirstHit(kept, t).value == kept[j] && Cidr.FirstUnder(parser, kept, ip, j);
      assert j == k;
    }
  }

  /** For every address, the table's outbound is that of the first kept rule it falls under, unless overtaken. */
  lemma AddressesAreRoutedAsMatched(parser: Cidr.Parser, rules: seq<RoutingRule>, doc: Document, ip: string, t: Traffic,
                                    k: nat)
    requires (forall r :: r in rules ==> Canonical(r)) && AddressOnly(parser, Erase(rules, doc), ip, t)
    requires FirstKeptUnder(parser, rules, doc, ip, k)
    ensures Rendered(rules, doc, t) == AddressOutbound(rules, doc, k) <==> !Overtaken(rules, doc, t)
  {
    AddressDecision(parser, rules, doc, ip, t, k);
    RenderedMeansRules(rules, doc, t);
  }

  /** `MATCH,DIRECT` followed by `DOMAIN,a,REJECT`: the list says direct, the table blocks. */
  lemma LateRuleOvertakes(doc: Document)
    ensures var none := RuleFlags(false, false);
      var rules := [RoutingRule(Match, Direct, none), RoutingRule(Domain("a"), Reject, none)];
      HostDecision(rules, doc, "a") == "direct" && Rendered(rules, doc, HostOnly("a")) == "block"
  {
    var none := RuleFlags(false, false);
    var rules := [RoutingRule(Match, Direct, none), RoutingRule(Domain("a"), Reject, none)];
    var t := HostOnly("a");
    assert MatcherHits(Domain("a"), t) by {
      assert ToLower("a") == ToLower("a");
    }
    assert Applies(rules[1], doc, t) && !Applies(rules[0], doc, t) && KeptMatch(rules[0], doc);
    RenderedByPosition(rules, doc, t, 0, 1);
    DecisionByPosition(rules, doc, t, 0, 1);
    FirstHitIsMatchHost(Erase(rules, doc), "a");
  }

  // ----- Accounting and closure -----

  /** Catch-alls that can be carried, or that stand behind the one that became final. */
  function SettledMatches(rules: seq<RoutingRule>, doc: Document, finalSet: bool): nat {
    if rules == [] then 0
    else
      (if rules[0].matcher.Match? && (finalSet || KeptMatch(rules[0], doc)) then 1 else 0)
      + SettledMatches(rules[1..], doc, finalSet || KeptMatch(rules[0], doc))
  }

  lemma {:induction false} EveryRuleIsAccounted(rules: seq<RoutingRule>, doc: Document, finalSet: bool)
    ensures |Emitted(rules, doc)| + SkippedRules(rules, doc, finalSet) + SettledMatches(rules, doc, finalSet) == |rules|
  {
    if rules != [] {
      EveryRuleIsAccounted(rules[1..], doc, finalSet || KeptMatch(rules[0], doc));
    }
  }

  lemma {:induction false} EmittedTagsComeFromRules(rules: seq<RoutingRule>, doc: Document)
    ensures forall r :: r in Emitted(rules, doc) ==>
      exists k :: 0 <= k < |rules| && !rules[k].matcher.Match? && OutboundTag(rules[k].policy, doc) == Some(r.outbound)
  {
    if rules != [] {
      EmittedTagsComeFromRules(rules[1..], doc);
      forall r | r in Emitted(rules, doc)
        ensures exists k ::
          0 <= k < |rules| && !rules[k].matcher.Match? && OutboundTag(rules[k].policy, doc) == Some(r.outbound)
      {
        if r in Emitted(rules[1..], doc) {
          var k :| 0 <= k < |rules[1..]| && !rules[1..][k].matcher.Match?
            && OutboundTag(rules[1..][k].policy, doc) == Some(r.outbound);
          assert rules[k + 1] == rules[1..][k];
        } else {
          assert OutboundTag(rules[0].policy, doc) == Some(r.outbound);
        }
      }
    }
  }

  // ----- Inline provider payloads -----

  predicate IsContent(line: string) {
    Trim(line) != [] && Trim(line)[0] != '#'
  }

  /** The trimmed lines of a payload that are neither blank nor comments. */
  function ContentLines(lines: seq<string>): seq<string> {
    if lines == [] then []
    else (if IsContent(lines[0]) then [Trim(lines[0])] else []) + ContentLines(lines[1..])
  }

  /** Drops a leading `+.`, else a leading `.`. */
  function StripWildcard(line: string): Option<string> {
    if "+." <= line then Some(line[2..])
    else if "." <= line then Some(line[1..])
    else None
  }

  function HeadlessFromMatcher(matcher: RuleMatch): Option<HeadlessRule> {
    match matcher
    case Domain(t) => Some(NO_KEYS.(domain := Some([t])))
    case DomainSuffix(t) => Some(NO_KEYS.(domainSuffix := Some([t])))
    case DomainKeyword(t) => Some(NO_KEYS.(domainKeyword := Some([t])))
    case IpCidr(t) => Some(NO_KEYS.(ipCidr := Some([t])))
    case _ => None
  }

  /** The matcher a payload line stands for under each behaviour. */
  function LineMatcher(behavior: Behavior, line: string): Option<RuleMatch> {
    match behavior
    case DomainList =>
      var suffix := StripWildcard(line);
      if suffix.Some? && suffix.value != [] then Some(DomainSuffix(suffix.value)) else Some(Domain(line))
    case SuffixList =>
      var suffix := StripWildcard(line);
      var text := if suffix.Some? then suffix.value else line;
      if text == [] then None else Some(DomainSuffix(text))
    case CidrList => Some(IpCidr(line))
    case Classical =>
      var rule := FromClashLine(line);
      if rule.Ok? then Some(rule.value.matcher) else None
  }

  function LineRule(behavior: Behavior, line: string): Option<HeadlessRule> {
    var matcher := LineMatcher(behavior, line);
    if matcher.Some? then HeadlessFromMatcher(matcher.value) else None
  }

  function LineRules(behavior: Behavior, lines: seq<string>): (rules: seq<HeadlessRule>)
    ensures |rules| <= |lines|
  {
    if lines == [] then []
    else
      var first := LineRule(behavior, lines[0]);
      (if first.Some? then [first.value] else []) + LineRules(behavior, lines[1..])
  }

  lemma HeadlessMeansMatcher(matcher: RuleMatch, t: Traffic)
    requires HeadlessFromMatcher(matcher).Some?
    ensures KeysHit(HeadlessFromMatcher(matcher).value, t) <==> MatcherHits(matcher, t)
  {
    ObjectMeansMatcher(matcher, "", {}, t);
  }

  /** The content lines without a headless form. */
  lemma UnconvertedIff(behavior: Behavior, line: string)
    ensures LineRule(behavior, line).None? <==>
      || (behavior == SuffixList && (line == "+." || line == "." || line == ""))
      || (behavior == Classical
          && (FromClashLine(line).Err?
              || !(var m := FromClashLine(line).value.matcher;
                   m.Domain? || m.DomainSuffix? || m.DomainKeyword? || m.IpCidr?)))
  {
  }

  /** Converts one content line; `skipped` is one when it has no headless form. */
  method ConvertLine(behavior: Behavior, line: string) returns (headless: Option<HeadlessRule>, skipped: nat)
    ensures headless == LineRule(behavior, line)
    ensures skipped == if headless.None? then 1 else 0
  {
    skipped := 0;
    match behavior {
      case DomainList =>
        var suffix := StripWildcard(line);
        if suffix.Some? && suffix.value != [] {
          headless := Some(NO_KEYS.(domainSuffix := Some([suffix.value])));
        } else {
          headless := Some(NO_KEYS.(domain := Some([line])));
        }
      case SuffixList =>
        var suffix := StripWildcard(line);
        var text := if suffix.Some? then suffix.value else line;
        if text == [] {
          skipped := 1;
          headless := None;
        } else {
          headless := Some(NO_KEYS.(domainSuffix := Some([text])));
        }
      case CidrList => headless := Some(NO_KEYS.(ipCidr := Some([line])));
      case Classical =>
        var rule := FromClashLine(line);
        headless := if rule.Ok? then HeadlessFromMatcher(rule.value.matcher) else None;
        if headless.None? {
          skipped := 1;
        }
    }
  }

  lemma {:induction false} ContentLinesSnoc(lines: seq<string>, line: string)
    ensures ContentLines(lines + [line]) ==
      if IsContent(line) then ContentLines(lines) + [Trim(line)] else ContentLines(lines)
  {
    if lines != [] {
      assert (lines + [line])[1..] == lines[1..] + [line];
      ContentLinesSnoc(lines[1..], line);
    } else {
      assert lines + [line] == [line] && [line][1..] == [];
    }
  }

  lemma ContentLinesOn(lines: seq<string>, i: nat)
    requires i < |lines|
    ensures ContentLines(lines[..i + 1]) ==
      if IsContent(lines[i]) then ContentLines(lines[..i]) + [Trim(lines[i])] else ContentLines(lines[..i])
  {
    assert lines[..i + 1] == lines[..i] + [lines[i]];
    ContentLinesSnoc(lines[..i], lines[i]);
  }

  /** The values `f` gives, in order. */
  ghost function Somes<A, B>(f: A -> Option<B>, s: seq<A>): seq<B> {
    if s == [] then [] else (if f(s[0]).Some? then [f(s[0]).value] else []) + Somes(f, s[1..])
  }

  lemma {:induction false} SomesSnoc<A, B>(f: A -> Option<B>, s: seq<A>, x: A)
    ensures Somes(f, s + [x]) == Somes(f, s) + if f(x).Some? then [f(x).value] else []
  {
    if s != [] {
      assert (s + [x])[1..] == s[1..] + [x];
      SomesSnoc(f, s[1..], x);
    } else {
      assert s + [x] == [x] && [x][1..] == [];
    }
  }

  ghost predicate Converts(f: string -> Option<HeadlessRule>, behavior: Behavior) {
    forall line {:trigger LineRule(behavior, line)} :: f(line) == LineRule(behavior, line)
  }

  lemma Converter(behavior: Behavior) returns (f: string -> Option<HeadlessRule>)
    ensures Converts(f, behavior)
  {
    f := line => LineRule(behavior, line);
  }

  lemma {:induction false} ConvertsAll(f: string -> Option<HeadlessRule>, behavior: Behavior, lines: seq<string>)
    requires Converts(f, behavior)
    ensures Somes(f, lines) == LineRules(behavior, lines)
  {
    if lines != [] {
      ConvertsAll(f, behavior, lines[1..]);
    }
  }

  /** Converts one line of the payload, unless it is blank or a comment. */
  method TakeLine(behavior: Behavior, raw: string, before: seq<HeadlessRule>,
                  ghost f: string -> Option<HeadlessRule>, ghost done: seq<string>)
    returns (rules: seq<HeadlessRule>, skipped: nat)
    requires Converts(f, behavior) && before == Somes(f, done)
    ensures rules == Somes(f, if IsContent(raw) then done + [Trim(raw)] else done)
    ensures |rules| + skipped == |before| + if IsContent(raw) then 1 else 0
  {
    rules, skipped := before, 0;
    var line := Trim(raw);
    if line != [] && line[0] != '#' {
      var headless, unconverted := ConvertLine(behavior, line);
      SomesSnoc(f, done, line);
      skipped := unconverted;
      if headless.Some? {
        rules := rules + [headless.value];
      }
    }
  }

  /** The conversion loop. */
  method ConvertLines(behavior: Behavior, lines: seq<string>, ghost f: string -> Option<HeadlessRule>)
    returns (rules: seq<HeadlessRule>, skipped: nat)
    requires Converts(f, behavior)
    ensures rules == Somes(f, ContentLines(lines)) && |rules| + skipped == |ContentLines(lines)|
  {
    ghost var done: seq<string> := [];
    rules, skipped := [], 0;
    var i := 0;
    while i < |lines|
      invariant 0 <= i <= |lines| && done == ContentLines(lines[..i])
      invariant rules == Somes(f, done) && |rules| + skipped == |done|
    {
      ContentLinesOn(lines, i);
      var unconverted;
      rules, unconverted := TakeLine(behavior, lines[i], rules, f, done);
      skipped := skipped + unconverted;
      done := if IsContent(lines[i]) then done + [Trim(lines[i])] else done;
      i := i + 1;
    }
    assert lines[..i] == lines;
  }

  /** Headless rules in line order, and the number of lines that could not be converted. */
  method InlinePayloadRules(behavior: Behavior, payload: string) returns (rules: seq<HeadlessRule>, skipped: nat)
    ensures rules == LineRules(behavior, ContentLines(Split(payload, '\n')))
    ensures |rules| + skipped == |ContentLines(Split(payload, '\n'))|
  {
    // Line ends are trimmed away, so splitting at line feeds sees the same content lines.
    ghost var f := Converter(behavior);
    rules, skipped := ConvertLines(behavior, Split(payload, '\n'), f);
    ConvertsAll(f, behavior, ContentLines(Split(payload, '\n')));
  }

  ghost predicate SetHits(rules: seq<HeadlessRule>, t: Traffic) {
    exists r :: r in rules && KeysHit(r, t)
  }

  /** The line converts, and what it stands for hits. */
  ghost predicate LineHits(behavior: Behavior, line: string, t: Traffic) {
    LineRule(behavior, line).Some? && MatcherHits(LineMatcher(behavior, line).value, t)
  }

  lemma LineHitsIffRuleHits(behavior: Behavior, line: string, t: Traffic)
    ensures LineHits(behavior, line, t) <==>
      LineRule(behavior, line).Some? && KeysHit(LineRule(behavior, line).value, t)
  {
    if LineRule(behavior, line).Some? {
      HeadlessMeansMatcher(LineMatcher(behavior, line).value, t);
    }
  }

  lemma {:induction false} LineRulesMembers(behavior: Behavior, lines: seq<string>, r: HeadlessRule)
    ensures r in LineRules(behavior, lines) <==> exists line :: line in lines && LineRule(behavior, line) == Some(r)
  {
    if lines != [] {
      LineRulesMembers(behavior, lines[1..], r);
      assert forall line :: line in lines <==> line == lines[0] || line in lines[1..];
    }
  }

  /** A converted rule-set hits a connection exactly when one of its convertible lines does. */
  lemma PayloadMeaning(behavior: Behavior, lines: seq<string>, t: Traffic)
    ensures SetHits(LineRules(behavior, lines), t) <==> exists line :: line in lines && LineHits(behavior, line, t)
  {
    if r :| r in LineRules(behavior, lines) && KeysHit(r, t) {
      LineRulesMembers(behavior, lines, r);
      var line :| line in lines && LineRule(behavior, line) == Some(r);
      LineHitsIffRuleHits(behavior, line, t);
    }
    if line :| line in lines && LineHits(behavior, line, t) {
      LineHitsIffRuleHits(behavior, line, t);
      LineRulesMembers(behavior, lines, LineRule(behavior, line).value);
    }
  }

  // ----- The whole document -----

  /** Content lines without a headless form. */
  ghost function Unconverted(provider: RuleProvider): nat
    requires provider.source.Inline?
  {
    |ContentLines(Split(provider.source.payload, '\n'))| - |PayloadRules(provider)|
  }

  ghost function InlineSkips(providers: seq<RuleProvider>): nat {
    if providers == [] then 0
    else
      var last := providers[|providers| - 1];
      InlineSkips(providers[..|providers| - 1]) + if last.source.Inline? then Unconverted(last) else 0
  }

  function FormatName(format: Format): string {
    if format == SourceFormat then "source" else "binary"
  }

  function BehaviorName(behavior: Behavior): Option<string> {
    match behavior
    case DomainList => Some("domain")
    case SuffixList => Some("domain_suffix")
    case CidrList => Some("ipcidr")
    case Classical => None
  }

  const ONE_MINUTE_MS := 60_000
  const ONE_HOUR_MS := 3_600_000

  function SingBoxInterval(ms: u64): Interval {
    if ms >= ONE_HOUR_MS && ms % ONE_HOUR_MS == 0 then Interval(ms / ONE_HOUR_MS, 'h')
    else if ms >= ONE_MINUTE_MS && ms % ONE_MINUTE_MS == 0 then Interval(ms / ONE_MINUTE_MS, 'm')
    else Interval((ms + 999) / 1000, 's')
  }

  function DurationMs(interval: Interval): nat {
    interval.count
    * (if interval.unit == 'h' then ONE_HOUR_MS else if interval.unit == 'm' then ONE_MINUTE_MS else 1000)
  }

  /** The interval is the declared one rounded up to whole seconds, and zero only for zero. */
  lemma IntervalRoundsUp(ms: u64)
    ensures ms <= DurationMs(SingBoxInterval(ms)) < ms + 1000
    ensures ms % 1000 == 0 ==> DurationMs(SingBoxInterval(ms)) == ms
    ensures SingBoxInterval(ms).count == 0 <==> ms == 0
  {
  }

  /** The headless rules of an inline payload. */
  ghost function PayloadRules(provider: RuleProvider): seq<HeadlessRule>
    requires provider.source.Inline?
  {
    LineRules(provider.behavior, ContentLines(Split(provider.source.payload, '\n')))
  }

  ghost predicate SourceOf(provider: RuleProvider, source: RuleSetSource) {
    match provider.source
    case Http(url, ms) =>
      source == RuleSetSource(BehaviorName(provider.behavior), Some(SingBoxInterval(ms)),
                              Some(FormatName(provider.format)),
                              None, None, provider.name, "remote", Some(url))
    case File(path) =>
      source == RuleSetSource(BehaviorName(provider.behavior), None, Some(FormatName(provider.format)),
                              Some(path), None, provider.name, "local", None)
    case Inline(_) =>
      source == RuleSetSource(None, None, None, None, Some(PayloadRules(provider)), provider.name, "inline", None)
  }

  method ProviderToSource(provider: RuleProvider) returns (source: RuleSetSource, skipped: nat)
    ensures SourceOf(provider, source)
    ensures skipped == if provider.source.Inline? then Unconverted(provider) else 0
  {
    skipped := 0;
    var behavior, format := BehaviorName(provider.behavior), FormatName(provider.format);
    match provider.source {
      case Http(url, ms) =>
        source := RuleSetSource(behavior, Some(SingBoxInterval(ms)), Some(format), None, None, provider.name, "remote",
                                Some(url));
      case File(path) =>
        source := RuleSetSource(behavior, None, Some(format), Some(path), None, provider.name, "local", None);
      case Inline(payload) =>
        var rules, inlineSkipped := InlinePayloadRules(provider.behavior, payload);
        source := RuleSetSource(None, None, None, None, Some(rules), provider.name, "inline", None);
        skipped := inlineSkipped;
    }
  }

  method BuildRuleSets(providers: seq<RuleProvider>) returns (sources: seq<RuleSetSource>, skipped: nat)
    ensures |sources| == |providers| && forall k :: 0 <= k < |providers| ==> SourceOf(providers[k], sources[k])
    ensures skipped == InlineSkips(providers)
  {
    sources, skipped := [], 0;
    for i := 0 to |providers|
      invariant |sources| == i && forall k :: 0 <= k < i ==> SourceOf(providers[k], sources[k])
      invariant skipped == InlineSkips(providers[..i])
    {
      assert providers[..i + 1][..i] == providers[..i];
      var source, inlineSkipped := ProviderToSource(providers[i]);
      sources := sources + [source];
      skipped := skipped + inlineSkipped;
    }
    assert providers[..|providers|] == providers;
  }

  /** The kernel lets a connection into an inline rule-set exactly when one of its headless rules hits. */
  ghost predicate KernelReads(sources: seq<RuleSetSource>, t: Traffic) {
    forall k :: 0 <= k < |sources| && sources[k].rules.Some? ==>
      (sources[k].tag in t.ruleSets <==> SetHits(sources[k].rules.value, t))
  }

  /** A compiled rule over a compiled inline provider hits exactly when a convertible line does. */
  lemma RuleSetMeansLines(providers: seq<RuleProvider>, sources: seq<RuleSetSource>, k: nat, outbound: string,
                          tags: set<string>,
                          t: Traffic)
    requires k < |providers| == |sources| && SourceOf(providers[k], sources[k]) && providers[k].source.Inline?
    requires KernelReads(sources, t)
    ensures var rule := MatcherObject(RuleSet(providers[k].name), outbound, tags);
      rule.Some? && (RouteHits(rule.value, t) <==>
        exists line :: line in ContentLines(Split(providers[k].source.payload, '\n'))
          && LineHits(providers[k].behavior, line, t))
  {
    PayloadMeaning(providers[k].behavior, ContentLines(Split(providers[k].source.payload, '\n')), t);
  }

  /** The document the providers and the proxy flag describe. */
  function DocumentOf(providers: seq<RuleProvider>, proxyRepresentable: bool, groups: set<string>): Document {
    Document(proxyRepresentable, groups, set k | 0 <= k < |providers| :: ToLower(providers[k].name))
  }

  /**
   The rendered document decides every connection as the rule list does, overtaken ones excepted;
   a used `block` tag has its flag, and every rule and payload line is emitted, settled or counted.
   */
  method RenderSingBoxRules(rules: seq<RoutingRule>, providers: seq<RuleProvider>, proxyRepresentable: bool,
                            groups: set<string>)
    returns (r: SingBoxRules)
    ensures var doc := DocumentOf(providers, proxyRepresentable, groups);
      && (forall t :: Route(r.rules, r.finalOutbound, t) == Decision(rules, doc, t) <==> !Overtaken(rules, doc, t))
      && r.blockOutbound == (r.finalOutbound == "block" || exists k :: 0 <= k < |rules| && SteersToBlock(rules[k], doc))
      && |r.rules| + r.skipped + SettledMatches(rules, doc, false) == |rules| + InlineSkips(providers)
    ensures r.finalOutbound == "block" || (exists x :: x in r.rules && x.outbound == "block") ==> r.blockOutbound
    ensures !proxyRepresentable ==>
      r.finalOutbound in {"direct", "block"} && forall x :: x in r.rules ==> x.outbound in {"direct", "block"}
    ensures |r.ruleSets| == |providers| && forall k :: 0 <= k < |providers| ==> SourceOf(providers[k], r.ruleSets[k])
  {
    var doc := DocumentOf(providers, proxyRepresentable, groups);
    var objects, final, block, skipped := RenderRules(rules, doc);
    var finalOutbound := if final.Some? then final.value else DefaultOutbound(doc);
    if finalOutbound == "block" {
      block := true;
    }
    var sources, inlineSkipped := BuildRuleSets(providers);
    r := SingBoxRules(objects, sources, finalOutbound, block, skipped + inlineSkipped);
    forall t
      ensures Route(objects, finalOutbound, t) == Decision(rules, doc, t) <==> !Overtaken(rules, doc, t)
    {
      RenderedMeansRules(rules, doc, t);
    }
    EveryRuleIsAccounted(rules, doc, false);
    EmittedTagsComeFromRules(rules, doc);
    FinalIsATag(rules, doc);
  }

  lemma {:induction false} FinalIsATag(rules: seq<RoutingRule>, doc: Document)
    ensures FirstFinal(rules, doc).Some? ==>
      exists k :: 0 <= k < |rules| && rules[k].matcher.Match?
        && OutboundTag(rules[k].policy, doc) == FirstFinal(rules, doc)
  {
    if rules != [] && !KeptMatch(rules[0], doc) {
      FinalIsATag(rules[1..], doc);
      if FirstFinal(rules, doc).Some? {
        var k :| 0 <= k < |rules[1..]| && rules[1..][k].matcher.Match?
          && OutboundTag(rules[1..][k].policy, doc) == FirstFinal(rules, doc);
        assert rules[k + 1] == rules[1..][k];
      }
    }
  }
}
