/**
 CIDR membership: the mask arithmetic of the offline IP matcher over 32-bit and 128-bit addresses.
 Machine words are numbers below a power of two; shifting and masking are defined on their bits.
 */
module Cidr {
  import opened Common
  import opened Text
  import opened RuleLine

  // ----- Machine words -----

  /** Bitwise conjunction of two `width`-bit words. */
  function And(x: nat, y: nat, width: nat): nat {
    if width == 0 then 0 else 2 * And(x / 2, y / 2, width - 1) + (x % 2) * (y % 2)
  }

  /** Left shift within `width` bits; a shift by the full width or more is an overflow in the source. */
  function Shl(x: nat, places: nat, width: nat): nat
    requires places < width
  {
    (x * Pow2(places)) % Pow2(width)
  }

  function AllOnes(width: nat): nat {
    Pow2(width) - 1
  }

  /** The network mask; a prefix of zero is special-cased so that nothing is shifted by the width. */
  function Mask(prefix: nat, width: nat): nat
    requires prefix <= width
  {
    if prefix == 0 then 0 else Shl(AllOnes(width), width - prefix, width)
  }

  // ----- Addresses and blocks -----

  datatype IpAddr = V4(bits: nat) | V6(bits: nat)

  function WidthOf(a: IpAddr): nat {
    if a.V4? then 32 else 128
  }

  ghost predicate IsWord(a: IpAddr) {
    a.bits < Pow2(WidthOf(a))
  }

  datatype Block = Block(network: IpAddr, prefix: nat)

  function BlockContains(block: Block, target: IpAddr): bool {
    match (block.network, target)
    case (V4(net), V4(addr)) =>
      block.prefix <= 32 && And(net, Mask(block.prefix, 32), 32) == And(addr, Mask(block.prefix, 32), 32)
    case (V6(net), V6(addr)) =>
      block.prefix <= 128 && And(net, Mask(block.prefix, 128), 128) == And(addr, Mask(block.prefix, 128), 128)
    case _ => false
  }

  /** Text parsing of addresses and prefixes, as the standard library provides it. */
  datatype Parser = Parser(address: string -> Option<IpAddr>, prefix: string -> Option<nat>)

  function SplitOnce(s: string, sep: char): Option<(string, string)> {
    if sep !in s then None
    else
      var head := Split(s, sep)[0];
      if |head| < |s| then Some((head, s[|head| + 1..])) else None
  }

  function CidrParts(parser: Parser, text: string): Option<Block> {
    var (address, prefixText) :- SplitOnce(text, '/');
    var network :- parser.address(address);
    var prefix :- parser.prefix(prefixText);
    if prefix > WidthOf(network) then None else Some(Block(network, prefix))
  }

  function CidrContains(parser: Parser, cidr: string, ip: string): bool {
    var block := CidrParts(parser, cidr);
    var target := parser.address(ip);
    block.Some? && target.Some? && BlockContains(block.value, target.value)
  }

  // ----- What a mask selects -----

  /** The word without its lowest `k` bits. */
  ghost function Drop(x: nat, k: nat): nat {
    if k == 0 then x else Drop(x / 2, k - 1)
  }

  lemma {:induction false} AndZero(x: nat, width: nat)
    ensures And(x, 0, width) == 0
  {
    if width > 0 {
      AndZero(x / 2, width - 1);
    }
  }

  lemma {:induction false} AndAllOnes(x: nat, width: nat)
    requires x < Pow2(width)
    ensures And(x, AllOnes(width), width) == x
  {
    if width > 0 {
      AndAllOnes(x / 2, width - 1);
      assert AllOnes(width) / 2 == AllOnes(width - 1) && AllOnes(width) % 2 == 1;
    }
  }

  lemma {:induction false} DropAll(x: nat, width: nat)
    requires x < Pow2(width)
    ensures Drop(x, width) == 0
  {
    if width > 0 {
      DropAll(x / 2, width - 1);
    }
  }

  lemma {:induction false} Pow2Grows(a: nat, b: nat)
    requires a <= b
    ensures Pow2(a) <= Pow2(b)
    decreases b - a
  {
    if a < b {
      Pow2Grows(a, b - 1);
    }
  }

  /** `width - host` ones followed by `host` zeros. */
  ghost function LeadingOnes(host: nat, width: nat): nat
    requires host <= width
  {
    Pow2Grows(host, width);
    Pow2(width) - Pow2(host)
  }

  /** Words agree under a mask of leading ones exactly when they agree without their low bits. */
  lemma {:induction false} LeadingOnesCompare(x: nat, y: nat, host: nat, width: nat)
    requires host <= width && x < Pow2(width) && y < Pow2(width)
    ensures And(x, LeadingOnes(host, width), width) == And(y, LeadingOnes(host, width), width) <==>
      Drop(x, host) == Drop(y, host)
    decreases width
  {
    if host == width {
      AndZero(x, width);
      AndZero(y, width);
      DropAll(x, width);
      DropAll(y, width);
    } else if host == 0 {
      AndAllOnes(x, width);
      AndAllOnes(y, width);
    } else {
      LeadingOnesCompare(x / 2, y / 2, host - 1, width - 1);
      MaskedHalf(x, host, width);
      MaskedHalf(y, host, width);
    }
  }

  /** Below the last network bit a masked word is twice its masked half. */
  lemma MaskedHalf(x: nat, host: nat, width: nat)
    requires 0 < host < width
    ensures And(x, LeadingOnes(host, width), width) == 2 * And(x / 2, LeadingOnes(host - 1, width - 1), width - 1)
  {
    assert LeadingOnes(host, width) == 2 * LeadingOnes(host - 1, width - 1);
  }

  // ----- Division -----

  lemma {:induction false} MulMonotone(m: nat, a: nat, b: nat)
    requires a <= b
    ensures m * a <= m * b
    decreases b - a
  {
    if a < b {
      MulMonotone(m, a, b - 1);
      assert m * b == m * (b - 1) + m;
    }
  }

  lemma NotMore(m: nat, q: nat, r: nat, q2: nat, r2: nat)
    requires m * q + r == m * q2 + r2 && r < m
    ensures q2 <= q
  {
    assert m * (q + 1) == m * q + m;
    if q2 >= q + 1 {
      MulMonotone(m, q + 1, q2);
    }
  }

  lemma DivisionIsUnique(x: nat, m: nat, q: nat, r: nat)
    requires m > 0 && x == m * q + r && r < m
    ensures x / m == q && x % m == r
  {
    var q2, r2 := x / m, x % m;
    assert x == m * q2 + r2;
    NotMore(m, q, r, q2, r2);
    NotMore(m, q2, r2, q, r);
  }

  lemma HalveTwice(x: nat, p: nat)
    requires p >= 1
    ensures (x / 2) / p == x / (2 * p)
  {
    var h := x / 2;
    var q, r := h / p, h % p;
    assert h == p * q + r;
    assert (2 * p) * q == 2 * (p * q);
    DivisionIsUnique(x, 2 * p, q, 2 * r + x % 2);
  }

  lemma {:induction false} DropIsDivision(x: nat, k: nat)
    ensures Drop(x, k) == x / Pow2(k)
  {
    if k > 0 {
      DropIsDivision(x / 2, k - 1);
      HalveTwice(x, Pow2(k - 1));
    }
  }

  lemma MulDouble(p: nat, q: nat)
    ensures p * (2 * q) == 2 * (p * q)
  {
  }

  lemma {:induction false} Pow2Splits(a: nat, b: nat)
    ensures Pow2(a + b) == Pow2(a) * Pow2(b)
    decreases b
  {
    if b > 0 {
      Pow2Splits(a, b - 1);
      MulDouble(Pow2(a), Pow2(b - 1));
      assert Pow2(a + b) == 2 * Pow2(a + (b - 1));
    } else {
      assert Pow2(b) == 1;
    }
  }

  lemma ShiftedOnes(m: nat, k: nat, p: nat)
    requires m == p * k && p >= 1 && k >= 1
    ensures k <= m && ((m - 1) * k) % m == m - k
  {
    MulMonotone(k, 1, p);
    assert (m - 1) * k == m * k - k && m * (k - 1) == m * k - m;
    DivisionIsUnique((m - 1) * k, m, k - 1, m - k);
  }

  /** The mask computed by shifting is `prefix` ones followed by zeros. */
  lemma MaskIsLeadingOnes(prefix: nat, width: nat)
    requires prefix <= width
    ensures Mask(prefix, width) == LeadingOnes(width - prefix, width)
  {
    if prefix > 0 {
      Pow2Splits(prefix, width - prefix);
      ShiftedOnes(Pow2(width), Pow2(width - prefix), Pow2(prefix));
    }
  }

  lemma MasksAgree(x: nat, y: nat, prefix: nat, width: nat)
    requires prefix <= width && x < Pow2(width) && y < Pow2(width)
    ensures And(x, Mask(prefix, width), width) == And(y, Mask(prefix, width), width)
      <==> x / Pow2(width - prefix) == y / Pow2(width - prefix)
  {
    MaskIsLeadingOnes(prefix, width);
    LeadingOnesCompare(x, y, width - prefix, width);
    DropIsDivision(x, width - prefix);
    DropIsDivision(y, width - prefix);
  }

  // ----- Main results -----

  /** Same family, and equal leading `prefix` bits. */
  ghost predicate SharesPrefix(a: IpAddr, b: IpAddr, prefix: nat) {
    a.V4? == b.V4? && prefix <= WidthOf(a) && a.bits / Pow2(WidthOf(a) - prefix) == b.bits / Pow2(WidthOf(a) - prefix)
  }

  /** A block contains exactly the addresses of its family that share its leading bits. */
  lemma ContainsIffPrefixShared(block: Block, target: IpAddr)
    requires IsWord(block.network) && IsWord(target)
    ensures BlockContains(block, target) <==> SharesPrefix(block.network, target, block.prefix)
  {
    var width := WidthOf(target);
    if block.network.V4? == target.V4? && block.prefix <= width {
      MasksAgree(block.network.bits, target.bits, block.prefix, width);
    }
  }

  lemma {:induction false} DropFurther(x: nat, y: nat, fine: nat, coarse: nat)
    requires fine <= coarse && Drop(x, fine) == Drop(y, fine)
    ensures Drop(x, coarse) == Drop(y, coarse)
    decreases coarse
  {
    if fine > 0 {
      DropFurther(x / 2, y / 2, fine - 1, coarse - 1);
    }
  }

  lemma CoarserQuotient(x: nat, y: nat, fine: nat, coarse: nat)
    requires fine <= coarse && x / Pow2(fine) == y / Pow2(fine)
    ensures x / Pow2(coarse) == y / Pow2(coarse)
  {
    DropIsDivision(x, fine);
    DropIsDivision(y, fine);
    DropFurther(x, y, fine, coarse);
    DropIsDivision(x, coarse);
    DropIsDivision(y, coarse);
  }

  /** Membership in a longer prefix implies membership in every shorter one. */
  lemma LongerPrefixIsNarrower(network: IpAddr, target: IpAddr, long: nat, short: nat)
    requires IsWord(network) && IsWord(target) && short <= long
    requires BlockContains(Block(network, long), target)
    ensures BlockContains(Block(network, short), target)
  {
    ContainsIffPrefixShared(Block(network, long), target);
    SharesShorter(network, target, long, short);
    ContainsIffPrefixShared(Block(network, short), target);
  }

  lemma SharesShorter(a: IpAddr, b: IpAddr, long: nat, short: nat)
    requires SharesPrefix(a, b, long) && short <= long
    ensures SharesPrefix(a, b, short)
  {
    CoarserQuotient(a.bits, b.bits, WidthOf(a) - long, WidthOf(a) - short);
  }

  /** Two blocks of one prefix length either coincide or share no address. */
  lemma EqualPrefixesCoincideOrPart(a: IpAddr, b: IpAddr, prefix: nat, x: IpAddr, y: IpAddr)
    requires IsWord(a) && IsWord(b) && IsWord(x) && IsWord(y)
    requires BlockContains(Block(a, prefix), x) && BlockContains(Block(b, prefix), x)
    ensures BlockContains(Block(a, prefix), y) <==> BlockContains(Block(b, prefix), y)
  {
    ContainsIffPrefixShared(Block(a, prefix), x);
    ContainsIffPrefixShared(Block(b, prefix), x);
    ContainsIffPrefixShared(Block(a, prefix), y);
    ContainsIffPrefixShared(Block(b, prefix), y);
  }

  // ----- Rules -----

  /** Only CIDR rules and the catch-all are evaluated offline. */
  predicate RuleMatchesIp(parser: Parser, rule: RoutingRule, ip: string) {
    match rule.matcher
    case IpCidr(cidr) => CidrContains(parser, cidr, ip)
    case Match => true
    case _ => false
  }

  /** The parser yields words of its address families. */
  ghost predicate YieldsWords(parser: Parser) {
    forall s :: parser.address(s).Some? ==> IsWord(parser.address(s).value)
  }

  ghost predicate IpFallsUnder(parser: Parser, rule: RoutingRule, ip: string) {
    match rule.matcher
    case IpCidr(cidr) =>
      var block, target := CidrParts(parser, cidr), parser.address(ip);
      block.Some? && target.Some? && SharesPrefix(block.value.network, target.value, block.value.prefix)
    case Match => true
    case _ => false
  }

  /** Rule `k` is the first the address falls under. */
  ghost predicate FirstUnder(parser: Parser, rules: seq<RoutingRule>, ip: string, k: nat)
    requires k < |rules|
  {
    IpFallsUnder(parser, rules[k], ip) && forall j :: 0 <= j < k ==> !IpFallsUnder(parser, rules[j], ip)
  }

  method MatchIp(parser: Parser, rules: seq<RoutingRule>, ip: string) returns (hit: Option<RoutingRule>)
    requires YieldsWords(parser)
    ensures hit.None? <==> forall k :: 0 <= k < |rules| ==> !IpFallsUnder(parser, rules[k], ip)
    ensures hit.Some? ==> exists k: nat :: k < |rules| && hit.value == rules[k] && FirstUnder(parser, rules, ip, k)
  {
    for i := 0 to |rules|
      invariant forall k :: 0 <= k < i ==> !IpFallsUnder(parser, rules[k], ip)
    {
      MatchesIffFallsUnder(parser, rules[i], ip);
      if RuleMatchesIp(parser, rules[i], ip) {
        assert FirstUnder(parser, rules, ip, i);
        return Some(rules[i]);
      }
    }
    hit := None;
  }

  lemma MatchesIffFallsUnder(parser: Parser, rule: RoutingRule, ip: string)
    requires YieldsWords(parser)
    ensures RuleMatchesIp(parser, rule, ip) <==> IpFallsUnder(parser, rule, ip)
  {
    if rule.matcher.IpCidr? {
      var block, target := CidrParts(parser, rule.matcher.text), parser.address(ip);
      if block.Some? && target.Some? {
        ContainsIffPrefixShared(block.value, target.value);
      }
    }
  }
}
