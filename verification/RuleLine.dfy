/**
 Clash rule lines: the parser, the printer and the offline host matcher.
 `TYPE,VALUE,POLICY[,FLAG...]`, or `MATCH,POLICY` for the catch-all.
 */
module RuleLine {
  import opened Text

  const RULE_TEXT_MAX_BYTES := 256
  const GEOIP_CODE_MAX_BYTES := 8
  const RULE_PROVIDER_NAME_MAX_BYTES := 64
  const GEOSITE_NAME_MAX_BYTES := 64
  const PROCESS_NAME_MAX_BYTES := 256

  const NO_RESOLVE := "no-resolve"
  const SRC := "src"

  datatype RuleMatch =
    | Domain(text: string)
    | DomainSuffix(text: string)
    | DomainKeyword(text: string)
    | IpCidr(text: string)
    | Geoip(text: string)
    | RuleSet(text: string)
    | Geosite(text: string)
    | ProcessName(text: string)
    | SourceIpCidr(text: string)
    | Match

  datatype RulePolicy = Direct | Reject | Proxy(name: string)

  datatype RuleFlags = RuleFlags(noResolve: bool, src: bool)

  datatype RoutingRule = RoutingRule(matcher: RuleMatch, policy: RulePolicy, flags: RuleFlags)

  datatype RuleError = Empty | Malformed | UnknownType | UnknownPolicy | UnknownFlag | TextTooLong | InvalidCidr

  datatype Result<T> = Ok(value: T) | Err(error: RuleError) {
    predicate IsFailure() { Err? }
    function PropagateFailure<U>(): Result<U> requires Err? { Err(error) }
    function Extract(): T requires Ok? { value }
  }

  // ----- Printing -----

  function PrintPolicy(policy: RulePolicy): string {
    match policy
    case Direct => "DIRECT"
    case Reject => "REJECT"
    case Proxy(name) => name
  }

  function Keyword(matcher: RuleMatch): string {
    match matcher
    case Domain(_) => "DOMAIN"
    case DomainSuffix(_) => "DOMAIN-SUFFIX"
    case DomainKeyword(_) => "DOMAIN-KEYWORD"
    case IpCidr(text) => if ':' in text then "IP-CIDR6" else "IP-CIDR"
    case Geoip(_) => "GEOIP"
    case RuleSet(_) => "RULE-SET"
    case Geosite(_) => "GEOSITE"
    case ProcessName(_) => "PROCESS-NAME"
    case SourceIpCidr(_) => "SRC-IP-CIDR"
    case Match => "MATCH"
  }

  function PrintMatcher(matcher: RuleMatch): string {
    if matcher.Match? then Keyword(matcher) else Keyword(matcher) + "," + matcher.text
  }

  function PrintFlags(flags: RuleFlags): string {
    (if flags.noResolve then "," + NO_RESOLVE else "") + (if flags.src then "," + SRC else "")
  }

  function ToClashLine(rule: RoutingRule): string {
    PrintMatcher(rule.matcher) + "," + PrintPolicy(rule.policy) + PrintFlags(rule.flags)
  }

  // ----- Parsing -----

  /** Bounded text: not empty, and within its capacity in UTF-8 bytes. */
  function Bounded(value: string, max: nat): Result<string> {
    if value == [] || Utf8Length(value) > max then Err(TextTooLong) else Ok(value)
  }

  function ParseText(value: string): Result<string> {
    if value == [] then Err(Malformed) else Bounded(value, RULE_TEXT_MAX_BYTES)
  }

  /** A slash with something on both sides of its first occurrence. */
  predicate IsCidrShaped(value: string) {
    '/' in value && value[0] != '/' && |Split(value, '/')[0]| + 1 < |value|
  }

  function ParseCidr(value: string): Result<string> {
    if !IsCidrShaped(value) then Err(InvalidCidr) else Bounded(value, RULE_TEXT_MAX_BYTES)
  }

  function ParsePolicy(token: string): Result<RulePolicy> {
    if token == "DIRECT" then Ok(Direct)
    else if token == "REJECT" then Ok(Reject)
    else if token == [] then Err(UnknownPolicy)
    else
      var name :- Bounded(token, RULE_TEXT_MAX_BYTES);
      Ok(Proxy(name))
  }

  /** Flags are recognised in any order and any number of times; anything else is refused. */
  function ParsedFlags(tokens: seq<string>): Result<RuleFlags> {
    if exists k :: 0 <= k < |tokens| && tokens[k] != NO_RESOLVE && tokens[k] != SRC then Err(UnknownFlag)
    else Ok(RuleFlags(NO_RESOLVE in tokens, SRC in tokens))
  }

  method ParseFlags(tokens: seq<string>) returns (r: Result<RuleFlags>)
    ensures r == ParsedFlags(tokens)
  {
    var flags := RuleFlags(false, false);
    for i := 0 to |tokens|
      invariant forall k :: 0 <= k < i ==> tokens[k] == NO_RESOLVE || tokens[k] == SRC
      invariant flags.noResolve <==> exists k :: 0 <= k < i && tokens[k] == NO_RESOLVE
      invariant flags.src <==> exists k :: 0 <= k < i && tokens[k] == SRC
    {
      if tokens[i] == NO_RESOLVE {
        flags := flags.(noResolve := true);
      } else if tokens[i] == SRC {
        flags := flags.(src := true);
      } else {
        return Err(UnknownFlag);
      }
    }
    r := Ok(flags);
  }

  predicate IsValued(kind: string) {
    || kind == "DOMAIN" || kind == "DOMAIN-SUFFIX" || kind == "DOMAIN-KEYWORD" || kind == "IP-CIDR"
    || kind == "IP-CIDR6" || kind == "GEOIP" || kind == "RULE-SET" || kind == "GEOSITE"
    || kind == "PROCESS-NAME" || kind == "SRC-IP-CIDR"
  }

  function ParseMatcher(kind: string, value: string): Result<RuleMatch>
    requires IsValued(kind)
  {
    if kind == "DOMAIN" then var t :- ParseText(value); Ok(Domain(t))
    else if kind == "DOMAIN-SUFFIX" then var t :- ParseText(value); Ok(DomainSuffix(t))
    else if kind == "DOMAIN-KEYWORD" then var t :- ParseText(value); Ok(DomainKeyword(t))
    else if kind == "IP-CIDR" || kind == "IP-CIDR6" then var t :- ParseCidr(value); Ok(IpCidr(t))
    else if kind == "GEOIP" then var t :- Bounded(value, GEOIP_CODE_MAX_BYTES); Ok(Geoip(t))
    else if kind == "RULE-SET" then var t :- Bounded(value, RULE_PROVIDER_NAME_MAX_BYTES); Ok(RuleSet(t))
    else if kind == "GEOSITE" then var t :- Bounded(value, GEOSITE_NAME_MAX_BYTES); Ok(Geosite(t))
    else if kind == "PROCESS-NAME" then var t :- Bounded(value, PROCESS_NAME_MAX_BYTES); Ok(ProcessName(t))
    else var t :- ParseCidr(value); Ok(SourceIpCidr(t))
  }

  function FromFields(fields: seq<string>): Result<RoutingRule>
    requires fields != []
  {
    if fields[0] == "MATCH" then
      if |fields| != 2 then Err(Malformed)
      else
        var policy :- ParsePolicy(fields[1]);
        Ok(RoutingRule(Match, policy, RuleFlags(false, false)))
    else if IsValued(fields[0]) then
      if |fields| < 3 then Err(Malformed)
      else
        var policy :- ParsePolicy(fields[2]);
        var flags :- ParsedFlags(fields[3..]);
        var matcher :- ParseMatcher(fields[0], fields[1]);
        Ok(RoutingRule(matcher, policy, flags))
    else Err(UnknownType)
  }

  function TrimAll(parts: seq<string>): (r: seq<string>)
    ensures |r| == |parts|
  {
    seq(|parts|, i requires 0 <= i < |parts| => Trim(parts[i]))
  }

  function FromClashLine(line: string): Result<RoutingRule> {
    var content := Trim(line);
    if content == [] || content[0] == '#' then Err(Empty)
    else FromFields(TrimAll(Split(content, ',')))
  }

  // ----- Which rules the text form can carry -----

  /** Text that survives as one field: bounded, free of commas, with nothing to trim. */
  predicate FieldText(value: string, max: nat) {
    value != [] && Utf8Length(value) <= max && IsTrimmed(value) && ',' !in value
  }

  predicate CanonicalMatcher(matcher: RuleMatch) {
    match matcher
    case Domain(t) => FieldText(t, RULE_TEXT_MAX_BYTES)
    case DomainSuffix(t) => FieldText(t, RULE_TEXT_MAX_BYTES)
    case DomainKeyword(t) => FieldText(t, RULE_TEXT_MAX_BYTES)
    case IpCidr(t) => FieldText(t, RULE_TEXT_MAX_BYTES) && IsCidrShaped(t)
    case Geoip(t) => FieldText(t, GEOIP_CODE_MAX_BYTES)
    case RuleSet(t) => FieldText(t, RULE_PROVIDER_NAME_MAX_BYTES)
    case Geosite(t) => FieldText(t, GEOSITE_NAME_MAX_BYTES)
    case ProcessName(t) => FieldText(t, PROCESS_NAME_MAX_BYTES)
    case SourceIpCidr(t) => FieldText(t, RULE_TEXT_MAX_BYTES) && IsCidrShaped(t)
    case Match => true
  }

  predicate CanonicalPolicy(policy: RulePolicy) {
    policy.Proxy? ==> FieldText(policy.name, RULE_TEXT_MAX_BYTES) && policy.name != "DIRECT" && policy.name != "REJECT"
  }

  predicate Canonical(rule: RoutingRule) {
    && CanonicalMatcher(rule.matcher)
    && CanonicalPolicy(rule.policy)
    && (rule.matcher.Match? ==> rule.flags == RuleFlags(false, false))
  }

  // ----- Parsing yields canonical rules -----

  /** A list of fields as splitting and trimming produce them. */
  ghost predicate CleanFields(fields: seq<string>) {
    forall k :: 0 <= k < |fields| ==> IsTrimmed(fields[k]) && ',' !in fields[k]
  }

  lemma SplitFieldsAreClean(content: string)
    ensures CleanFields(TrimAll(Split(content, ',')))
  {
    var parts := Split(content, ',');
    SplitPartsAreFree(content, ',');
    forall k | 0 <= k < |parts|
      ensures IsTrimmed(Trim(parts[k])) && ',' !in Trim(parts[k])
    {
      TrimIsTrimmedPiece(parts[k]);
      assert Free(parts[k], ',');
    }
  }

  lemma MatcherIsCanonical(kind: string, value: string)
    requires IsValued(kind) && IsTrimmed(value) && ',' !in value
    ensures ParseMatcher(kind, value).Ok? ==> CanonicalMatcher(ParseMatcher(kind, value).value)
    ensures ParseMatcher(kind, value).Ok? ==> !ParseMatcher(kind, value).value.Match?
  {
  }

  lemma PolicyIsCanonical(token: string)
    requires IsTrimmed(token) && ',' !in token && ParsePolicy(token).Ok?
    ensures CanonicalPolicy(ParsePolicy(token).value)
  {
  }

  lemma FieldsYieldCanonical(fields: seq<string>)
    requires fields != [] && CleanFields(fields) && FromFields(fields).Ok?
    ensures Canonical(FromFields(fields).value)
  {
    if fields[0] == "MATCH" {
      PolicyIsCanonical(fields[1]);
    } else {
      PolicyIsCanonical(fields[2]);
      MatcherIsCanonical(fields[0], fields[1]);
    }
  }

  lemma ParsedIsCanonical(line: string)
    requires FromClashLine(line).Ok?
    ensures Canonical(FromClashLine(line).value)
  {
    SplitFieldsAreClean(Trim(line));
    FieldsYieldCanonical(TrimAll(Split(Trim(line), ',')));
  }

  // ----- Printing a canonical rule and parsing it back -----

  ghost function FlagFields(flags: RuleFlags): seq<string> {
    (if flags.noResolve then [NO_RESOLVE] else []) + (if flags.src then [SRC] else [])
  }

  ghost function Fields(rule: RoutingRule): seq<string> {
    (if rule.matcher.Match? then [Keyword(rule.matcher)] else [Keyword(rule.matcher), rule.matcher.text])
    + [PrintPolicy(rule.policy)] + FlagFields(rule.flags)
  }

  lemma JoinFront(first: string, rest: seq<string>)
    requires rest != []
    ensures Join([first] + rest, ',') == first + "," + Join(rest, ',')
  {
    assert ([first] + rest)[1..] == rest;
  }

  lemma FlagsAreJoined(first: string, flags: RuleFlags)
    ensures Join([first] + FlagFields(flags), ',') == first + PrintFlags(flags)
  {
    var fs := FlagFields(flags);
    if flags.noResolve && flags.src {
      assert fs == [NO_RESOLVE] + [SRC];
      JoinFront(NO_RESOLVE, [SRC]);
      JoinFront(first, fs);
    } else if fs != [] {
      JoinFront(first, fs);
    }
  }

  lemma ThreePartLine(keyword: string, text: string, policy: string, flags: RuleFlags)
    ensures Join([keyword, text, policy] + FlagFields(flags), ',') ==
      keyword + "," + text + "," + policy + PrintFlags(flags)
  {
    var tail := [policy] + FlagFields(flags);
    FlagsAreJoined(policy, flags);
    JoinFront(text, tail);
    JoinFront(keyword, [text] + tail);
    assert [keyword, text, policy] + FlagFields(flags) == [keyword] + ([text] + tail);
  }

  lemma TwoPartLine(keyword: string, policy: string, flags: RuleFlags)
    ensures Join([keyword, policy] + FlagFields(flags), ',') == keyword + "," + policy + PrintFlags(flags)
  {
    var tail := [policy] + FlagFields(flags);
    FlagsAreJoined(policy, flags);
    JoinFront(keyword, tail);
    assert [keyword, policy] + FlagFields(flags) == [keyword] + tail;
  }

  lemma LineIsJoinedFields(rule: RoutingRule)
    ensures ToClashLine(rule) == Join(Fields(rule), ',')
  {
    var keyword, policy := Keyword(rule.matcher), PrintPolicy(rule.policy);
    if rule.matcher.Match? {
      TwoPartLine(keyword, policy, rule.flags);
      assert Fields(rule) == [keyword, policy] + FlagFields(rule.flags);
    } else {
      ThreePartLine(keyword, rule.matcher.text, policy, rule.flags);
      assert Fields(rule) == [keyword, rule.matcher.text, policy] + FlagFields(rule.flags);
    }
  }

  lemma {:induction false} JoinIsTrimmed(parts: seq<string>)
    requires parts != [] && forall k :: 0 <= k < |parts| ==> parts[k] != [] && IsTrimmed(parts[k])
    ensures var line := Join(parts, ',');
      && line != [] && IsTrimmed(line) && line[0] == parts[0][0]
      && line[|line| - 1] == parts[|parts| - 1][|parts[|parts| - 1]| - 1]
  {
    if |parts| > 1 {
      JoinIsTrimmed(parts[1..]);
    }
  }

  /** A non-empty field as the printer writes it. */
  ghost predicate CleanField(field: string) {
    field != [] && IsTrimmed(field) && ',' !in field
  }

  lemma KeywordIsClean(matcher: RuleMatch)
    ensures CleanField(Keyword(matcher)) && Keyword(matcher)[0] != '#'
  {
  }

  lemma PolicyIsClean(policy: RulePolicy)
    requires CanonicalPolicy(policy)
    ensures CleanField(PrintPolicy(policy))
  {
  }

  lemma FlagFieldsAreClean(flags: RuleFlags)
    ensures forall k :: 0 <= k < |FlagFields(flags)| ==> CleanField(FlagFields(flags)[k])
  {
    assert CleanField(NO_RESOLVE) && CleanField(SRC);
  }

  lemma FieldsAreClean(rule: RoutingRule)
    requires Canonical(rule)
    ensures forall k :: 0 <= k < |Fields(rule)| ==> CleanField(Fields(rule)[k])
    ensures Fields(rule)[0] == Keyword(rule.matcher)
  {
    KeywordIsClean(rule.matcher);
    PolicyIsClean(rule.policy);
    FlagFieldsAreClean(rule.flags);
    assert !rule.matcher.Match? ==> CleanField(rule.matcher.text);
  }

  lemma FlagFieldsParse(flags: RuleFlags)
    ensures ParsedFlags(FlagFields(flags)) == Ok(flags)
  {
    var fs := FlagFields(flags);
    assert NO_RESOLVE[0] == 'n' && SRC[0] == 's';
    if flags.noResolve {
      assert fs[0] == NO_RESOLVE;
    }
    if flags.src {
      assert fs[|fs| - 1] == SRC;
    }
  }

  lemma MatcherParses(matcher: RuleMatch)
    requires CanonicalMatcher(matcher) && !matcher.Match?
    ensures IsValued(Keyword(matcher)) && Keyword(matcher) != "MATCH"
    ensures ParseMatcher(Keyword(matcher), matcher.text) == Ok(matcher)
  {
  }

  lemma PolicyParses(policy: RulePolicy)
    requires CanonicalPolicy(policy)
    ensures ParsePolicy(PrintPolicy(policy)) == Ok(policy)
  {
  }

  lemma FieldsParse(rule: RoutingRule)
    requires Canonical(rule)
    ensures FromFields(Fields(rule)) == Ok(rule)
  {
    PolicyParses(rule.policy);
    var fields := Fields(rule);
    if rule.matcher.Match? {
      assert FlagFields(rule.flags) == [];
    } else {
      MatcherParses(rule.matcher);
      FlagFieldsParse(rule.flags);
      assert fields[3..] == FlagFields(rule.flags);
    }
  }

  lemma CanonicalRoundTrips(rule: RoutingRule)
    requires Canonical(rule)
    ensures FromClashLine(ToClashLine(rule)) == Ok(rule)
  {
    var fields, line := Fields(rule), ToClashLine(rule);
    LineIsJoinedFields(rule);
    FieldsAreClean(rule);
    KeywordIsClean(rule.matcher);
    JoinIsTrimmed(fields);
    TrimOfTrimmed(line);
    SplitOfJoin(fields, ',');
    forall k | 0 <= k < |fields|
      ensures Trim(fields[k]) == fields[k]
    {
      TrimOfTrimmed(fields[k]);
    }
    assert TrimAll(fields) == fields;
    FieldsParse(rule);
  }

  // ----- Main results -----

  /** The keywords a matcher may be written with: an address block of either family takes both. */
  predicate KeywordFor(kind: string, matcher: RuleMatch) {
    kind == Keyword(matcher) || (matcher.IpCidr? && (kind == "IP-CIDR" || kind == "IP-CIDR6"))
  }

  /** The grammar of a line: what its fields must be to stand for a rule. */
  predicate Spells(fields: seq<string>, rule: RoutingRule) {
    && Canonical(rule)
    && if rule.matcher.Match? then fields == ["MATCH", PrintPolicy(rule.policy)]
       else
         && |fields| >= 3 && KeywordFor(fields[0], rule.matcher)
         && fields[1] == rule.matcher.text && fields[2] == PrintPolicy(rule.policy)
         && (forall k :: 3 <= k < |fields| ==> fields[k] == NO_RESOLVE || fields[k] == SRC)
         && rule.flags == RuleFlags(NO_RESOLVE in fields[3..], SRC in fields[3..])
  }

  lemma MatcherMeans(kind: string, value: string, matcher: RuleMatch)
    requires IsValued(kind) && IsTrimmed(value) && ',' !in value && !matcher.Match?
    ensures ParseMatcher(kind, value) == Ok(matcher) <==>
      KeywordFor(kind, matcher) && value == matcher.text && CanonicalMatcher(matcher)
  {
    MatcherIsCanonical(kind, value);
  }

  lemma PolicyMeans(token: string, policy: RulePolicy)
    requires IsTrimmed(token) && ',' !in token
    ensures ParsePolicy(token) == Ok(policy) <==> token == PrintPolicy(policy) && CanonicalPolicy(policy)
  {
  }

  lemma FlagsMean(fields: seq<string>)
    requires |fields| >= 3
    ensures ParsedFlags(fields[3..]).Ok? <==>
      forall k :: 3 <= k < |fields| ==> fields[k] == NO_RESOLVE || fields[k] == SRC
  {
    assert forall k :: 3 <= k < |fields| ==> fields[k] == fields[3..][k - 3];
  }

  lemma FieldsMeanRule(fields: seq<string>, rule: RoutingRule)
    requires fields != [] && CleanFields(fields)
    ensures FromFields(fields) == Ok(rule) <==> Spells(fields, rule)
  {
    if fields[0] == "MATCH" {
      if |fields| == 2 {
        PolicyMeans(fields[1], rule.policy);
      }
    } else if |fields| >= 3 && IsValued(fields[0]) && !rule.matcher.Match? {
      PolicyMeans(fields[2], rule.policy);
      FlagsMean(fields);
      MatcherMeans(fields[0], fields[1], rule.matcher);
    }
  }

  /** A line parses to a rule exactly when, trimmed and split at its commas, its fields spell that rule. */
  lemma LineMeansRule(line: string, rule: RoutingRule)
    ensures FromClashLine(line) == Ok(rule) <==>
      var content := Trim(line);
      content != [] && content[0] != '#' && Spells(TrimAll(Split(content, ',')), rule)
  {
    var content := Trim(line);
    if content != [] && content[0] != '#' {
      SplitFieldsAreClean(content);
      FieldsMeanRule(TrimAll(Split(content, ',')), rule);
    }
  }

  /** Printing an accepted line and parsing it again gives the same rule. */
  lemma ParsePrintParse(line: string)
    requires FromClashLine(line).Ok?
    ensures FromClashLine(ToClashLine(FromClashLine(line).value)) == FromClashLine(line)
  {
    ParsedIsCanonical(line);
    CanonicalRoundTrips(FromClashLine(line).value);
  }

  /** A rule, however built, survives printing and parsing exactly when it is canonical. */
  lemma RoundTripsIffCanonical(rule: RoutingRule)
    ensures FromClashLine(ToClashLine(rule)) == Ok(rule) <==> Canonical(rule)
  {
    if Canonical(rule) {
      CanonicalRoundTrips(rule);
    } else if FromClashLine(ToClashLine(rule)) == Ok(rule) {
      ParsedIsCanonical(ToClashLine(rule));
    }
  }

  /** The parser's image is the set of canonical rules. */
  lemma AcceptedRulesAreTheCanonicalOnes(rule: RoutingRule)
    ensures Canonical(rule) <==> exists line :: FromClashLine(line) == Ok(rule)
  {
    if Canonical(rule) {
      CanonicalRoundTrips(rule);
    }
    if line :| FromClashLine(line) == Ok(rule) {
      ParsedIsCanonical(line);
    }
  }

  /** Two accepted lines print alike only when they mean the same rule. */
  lemma PrintSeparatesRules(line1: string, line2: string)
    requires FromClashLine(line1).Ok? && FromClashLine(line2).Ok?
    ensures ToClashLine(FromClashLine(line1).value) == ToClashLine(FromClashLine(line2).value)
      <==> FromClashLine(line1) == FromClashLine(line2)
  {
    ParsePrintParse(line1);
    ParsePrintParse(line2);
  }

  /** A proxy that happens to be called DIRECT does not survive: it comes back as the bypass policy. */
  lemma ProxyNamedDirectIsLost()
    ensures var rule := RoutingRule(Match, Proxy("DIRECT"), RuleFlags(false, false));
      FromClashLine(ToClashLine(rule)) == Ok(rule.(policy := Direct))
  {
    var direct := RoutingRule(Match, Direct, RuleFlags(false, false));
    CanonicalRoundTrips(direct);
    assert ToClashLine(direct.(policy := Proxy("DIRECT"))) == ToClashLine(direct);
  }

  // ----- Host matching -----

  predicate MatchesHost(rule: RoutingRule, host: string) {
    var host := ToLower(host);
    match rule.matcher
    case Domain(t) => host == ToLower(t)
    case DomainSuffix(t) => host == ToLower(t) || EndsWith(host, "." + ToLower(t))
    case DomainKeyword(t) => Contains(host, ToLower(t))
    case Match => true
    case _ => false
  }
}
