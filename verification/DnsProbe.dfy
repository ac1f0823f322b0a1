/** The UDP probe: the query it sends, how it classifies a datagram, and its receive loop. */
module DnsProbe {
  import opened Common
  import opened Text
  import opened DnsWire

  datatype Outcome = Resolved(address: Option<bytes>) | Refused | Timeout | Error

  const HEADER_TAIL: bytes := [1, 0, 0, 1, 0, 0, 0, 0, 0, 0]
  const QUESTION_TAIL: bytes := [0, 1, 0, 1]

  // ----- The query -----

  predicate IsAscii(s: string) {
    forall i :: 0 <= i < |s| ==> s[i] < '\U{80}'
  }

  /** One to 63 ASCII characters, which are as many bytes. */
  predicate GoodLabel(part: string) {
    1 <= |part| <= 63 && IsAscii(part)
  }

  function AsciiBytes(s: string): (b: bytes)
    requires IsAscii(s)
    ensures |b| == |s|
  {
    seq(|s|, i requires 0 <= i < |s| => s[i] as int)
  }

  function BytesToText(b: bytes): string {
    seq(|b|, i requires 0 <= i < |b| => b[i] as char)
  }

  lemma {:induction false} AsciiLength(s: string)
    requires IsAscii(s)
    ensures Utf8Length(s) == |s|
  {
    if s != [] {
      AsciiLength(s[1..]);
    }
  }

  lemma TextOfAscii(s: string)
    requires IsAscii(s)
    ensures BytesToText(AsciiBytes(s)) == s
  {
  }

  ghost predicate AllGood(parts: seq<string>) {
    forall k :: 0 <= k < |parts| ==> GoodLabel(parts[k])
  }

  /** The labels of a domain as bytes. */
  ghost function LabelBytes(parts: seq<string>): (labels: seq<bytes>)
    requires AllGood(parts)
    ensures |labels| == |parts| && ValidName(Name(labels, Root), 63)
    ensures forall k :: 0 <= k < |parts| ==> labels[k] == AsciiBytes(parts[k])
  {
    if parts == [] then []
    else
      assert GoodLabel(parts[0]) && AllGood(parts[1..]);
      [AsciiBytes(parts[0])] + LabelBytes(parts[1..])
  }

  ghost function WireName(domain: string): (name: Name)
    requires AllGood(Split(domain, '.'))
    ensures ValidName(name, 63)
  {
    Name(LabelBytes(Split(domain, '.')), Root)
  }

  ghost predicate Accepted(domain: string) {
    AllGood(Split(domain, '.')) && |EncodeName(WireName(domain))| <= 255
  }

  lemma {:induction false} EncodeLabelsSnoc(labels: seq<bytes>, part: bytes)
    requires |part| < 256 && forall k :: 0 <= k < |labels| ==> |labels[k]| < 256
    ensures EncodeLabels(labels + [part]) == EncodeLabels(labels) + ([|part|] + part)
  {
    if labels != [] {
      assert (labels + [part])[1..] == labels[1..] + [part];
      EncodeLabelsSnoc(labels[1..], part);
    }
  }

  /** Length-prefixed labels in domain order, or nothing at the first bad label. */
  method EncodeDomain(domain: string) returns (encoded: Option<bytes>)
    ensures encoded.Some? <==> AllGood(Split(domain, '.'))
    ensures encoded.Some? ==> encoded.value == EncodeName(WireName(domain))
  {
    var parts := Split(domain, '.');
    var out: bytes := [];
    ghost var done: seq<bytes> := [];
    var i := 0;
    while i < |parts|
      invariant 0 <= i <= |parts| && |done| == i
      invariant forall k :: 0 <= k < i ==> GoodLabel(parts[k]) && done[k] == AsciiBytes(parts[k]) && |done[k]| <= 63
      invariant out == EncodeLabels(done)
    {
      var part := parts[i];
      if part == [] || Utf8Length(part) > 63 || !IsAscii(part) {
        RefusedLabel(part);
        return None;
      }
      AsciiLength(part);
      EncodeLabelsSnoc(done, AsciiBytes(part));
      out := out + ([|part|] + AsciiBytes(part));
      done := done + [AsciiBytes(part)];
      i := i + 1;
    }
    assert done == LabelBytes(parts);
    encoded := Some(out + [0]);
  }

  lemma RefusedLabel(part: string)
    requires part == [] || Utf8Length(part) > 63 || !IsAscii(part)
    ensures !GoodLabel(part)
  {
    if IsAscii(part) {
      AsciiLength(part);
    }
  }

  method BuildQuery(domain: string, id0: byte, id1: byte) returns (query: Option<bytes>)
    ensures query.Some? <==> Accepted(domain)
    ensures query.Some? ==> IsQueryFor(query.value, domain, id0, id1)
  {
    var encoded := EncodeDomain(domain);
    if encoded.None? || |encoded.value| > 255 {
      return None;
    }
    query := Some([id0, id1] + HEADER_TAIL + encoded.value + QUESTION_TAIL);
  }

  ghost predicate IsQueryFor(query: bytes, domain: string, id0: byte, id1: byte) {
    Accepted(domain) && query == [id0, id1] + HEADER_TAIL + EncodeName(WireName(domain)) + QUESTION_TAIL
  }

  lemma MiddleIsAt(a: bytes, b: bytes, c: bytes)
    ensures At(a + b + c, |a|, b)
  {
    assert (a + b + c)[|a|..|a| + |b|] == b;
    AtIsSlice(a + b + c, |a|, b);
  }

  lemma NameBetween(head: bytes, name: Name, tail: bytes)
    requires ValidName(name, 63)
    ensures NameAt(head + EncodeName(name) + tail, |head|, name, |head| + |EncodeName(name)|)
  {
    MiddleIsAt(head, EncodeName(name), tail);
    NameAtIsEncoded(head + EncodeName(name) + tail, |head|, name);
  }

  /** An uncompressed name followed by the last four bytes of a message is its last question. */
  lemma LastQuestion(message: bytes, offset: nat, labels: seq<bytes>, end: nat)
    requires ValidName(Name(labels, Root), 63) && NameAt(message, offset, Name(labels, Root), end)
    requires |message| == end + 4
    ensures DecodeLabels(message, offset) == Some((labels, end)) && SkipQuestionAt(message, offset) == Some(|message|)
  {
    DecodesNameAt(message, offset, labels, end);
    SkipsNameAt(message, offset, Name(labels, Root), end);
  }

  lemma QueryHeader(query: bytes, domain: string, id0: byte, id1: byte)
    requires IsQueryFor(query, domain, id0, id1)
    ensures |query| == 16 + |EncodeName(WireName(domain))|
    ensures query[0] == id0 && query[1] == id1 && query[2] == 1
  {
  }

  /** The query stays within 271 bytes, its name decodes to the domain's labels, and its question ends where it does. */
  lemma QueryRoundTrip(query: bytes, domain: string, id0: byte, id1: byte)
    requires IsQueryFor(query, domain, id0, id1)
    ensures 16 <= |query| <= 271
    ensures DecodeLabels(query, 12) == Some((LabelBytes(Split(domain, '.')), |query| - 4))
    ensures SkipQuestionAt(query, 12) == Some(|query|)
  {
    QueryHeader(query, domain, id0, id1);
    NameBetween([id0, id1] + HEADER_TAIL, WireName(domain), QUESTION_TAIL);
    LastQuestion(query, 12, LabelBytes(Split(domain, '.')), |query| - 4);
  }

  function LabelTexts(labels: seq<bytes>): seq<string> {
    if labels == [] then [] else [BytesToText(labels[0])] + LabelTexts(labels[1..])
  }

  lemma {:induction false} TextsOfLabels(parts: seq<string>)
    requires AllGood(parts)
    ensures LabelTexts(LabelBytes(parts)) == parts
  {
    if parts != [] {
      assert GoodLabel(parts[0]);
      TextOfAscii(parts[0]);
      TextsOfLabels(parts[1..]);
      assert LabelBytes(parts)[1..] == LabelBytes(parts[1..]);
    }
  }

  /** The decoded labels, joined by dots, are the domain again. */
  lemma DomainIsRecovered(query: bytes, domain: string, id0: byte, id1: byte)
    requires IsQueryFor(query, domain, id0, id1)
    ensures DecodeLabels(query, 12).Some? && Join(LabelTexts(DecodeLabels(query, 12).value.0), '.') == domain
  {
    QueryRoundTrip(query, domain, id0, id1);
    TextsOfLabels(Split(domain, '.'));
    JoinOfSplit(domain, '.');
  }

  // ----- Classification -----

  function Classified(query: bytes, response: bytes): Option<Outcome> {
    if |response| < 12 || |query| < 2 then None
    else if response[0] != query[0] || response[1] != query[1] then None
    else if response[2] < 128 then None  // QR bit clear
    else if response[3] % 16 != 0 then Some(Refused)
    else Some(Resolved(ParsedFirstA(response)))
  }

  /** A response to the query: its id and the response bit, in a whole header. */
  predicate Answers(query: bytes, response: bytes) {
    |query| >= 2 && |response| >= 12 && response[..2] == query[..2] && response[2] >= 128
  }

  /** A datagram settles the probe exactly when it answers the query, with an address only if it holds it. */
  method ClassifyDatagram(query: bytes, response: bytes) returns (outcome: Option<Outcome>)
    ensures outcome == Classified(query, response)
    ensures outcome.Some? <==> Answers(query, response)
    ensures outcome == Some(Refused) <==> Answers(query, response) && response[3] % 16 != 0
    ensures outcome.Some? && outcome.value.Resolved? && outcome.value.address.Some? ==>
      Held(response, outcome.value.address.value)
  {
    if |response| < 12 || |query| < 2 {
      return None;
    }
    if response[0] != query[0] || response[1] != query[1] {
      return None;
    }
    if response[2] < 128 {
      return None;
    }
    if response[3] % 16 != 0 {
      return Some(Refused);
    }
    var address := ParseFirstA(response);
    outcome := Some(Resolved(address));
  }

  /** A well-formed answer to the query yields its first address record. */
  lemma AnswerIsResolved(query: bytes, response: bytes, qs: seq<Question>, rs: seq<Record>)
    requires |query| >= 2 && IsResponse(response, qs, rs)
    requires response[0] == query[0] && response[1] == query[1] && response[2] >= 128 && response[3] % 16 == 0
    ensures Classified(query, response) == Some(Resolved(FirstAddress(rs)))
  {
    ReadsFirstAddress(response, qs, rs);
  }

  /** The query itself, sent back, is never taken for an answer, nor is any query carrying its id. */
  lemma EchoIsDropped(query: bytes, domain: string, id0: byte, id1: byte, echo: bytes, other: string)
    requires IsQueryFor(query, domain, id0, id1) && IsQueryFor(echo, other, id0, id1)
    ensures Classified(query, echo).None?
  {
    QueryHeader(echo, other, id0, id1);
  }

  // ----- The receive loop -----

  const BUFFER_SIZE := 512

  /** What one turn of the loop meets: the deadline, a socket failure, a datagram, or a receive error. */
  datatype Turn = Expired | SetTimeoutFailed | Received(datagram: bytes) | WouldBlock | ReceiveFailed

  function Filled(datagram: bytes): bytes {
    if |datagram| <= BUFFER_SIZE then datagram else datagram[..BUFFER_SIZE]
  }

  predicate IsStray(query: bytes, turn: Turn) {
    turn.Received? && Classified(query, Filled(turn.datagram)).None?
  }

  /** What a turn settles, when it is not a stray datagram. */
  function Verdict(query: bytes, turn: Turn): Outcome
    requires !IsStray(query, turn)
  {
    match turn
    case Expired => Timeout
    case SetTimeoutFailed => Error
    case Received(datagram) => Classified(query, Filled(datagram)).value
    case WouldBlock => Timeout
    case ReceiveFailed => Error
  }

  /** The verdict of the first turn that is not stray; with only strays the budget runs out. */
  ghost function Settled(query: bytes, turns: seq<Turn>): Outcome {
    if turns == [] then Timeout
    else if IsStray(query, turns[0]) then Settled(query, turns[1..])
    else Verdict(query, turns[0])
  }

  method ReceiveLoop(query: bytes, turns: seq<Turn>) returns (outcome: Outcome)
    ensures outcome == Settled(query, turns)
  {
    var i := 0;
    while i < |turns|
      invariant 0 <= i <= |turns| && Settled(query, turns[i..]) == Settled(query, turns)
    {
      assert turns[i..][1..] == turns[i + 1..];
      match turns[i] {
        case Expired => return Timeout;
        case SetTimeoutFailed => return Error;
        case Received(datagram) =>
          var classified := ClassifyDatagram(query, Filled(datagram));
          if classified.Some? {
            return classified.value;
          }
        case WouldBlock => return Timeout;
        case ReceiveFailed => return Error;
      }
      i := i + 1;
    }
    outcome := Timeout;
  }

  ghost function WithoutStrays(query: bytes, turns: seq<Turn>): seq<Turn> {
    if turns == [] then []
    else (if IsStray(query, turns[0]) then [] else [turns[0]]) + WithoutStrays(query, turns[1..])
  }

  /** Stray datagrams, however many and wherever they arrive, change nothing. */
  lemma {:induction false} StraysChangeNothing(query: bytes, turns: seq<Turn>)
    ensures Settled(query, WithoutStrays(query, turns)) == Settled(query, turns)
  {
    if turns != [] {
      StraysChangeNothing(query, turns[1..]);
      if IsStray(query, turns[0]) {
        assert WithoutStrays(query, turns) == WithoutStrays(query, turns[1..]);
      }
    }
  }

  /** Turn `k` is the first that is not stray, and a datagram with the query's id and the response bit. */
  ghost predicate AnswersAt(query: bytes, turns: seq<Turn>, k: nat)
    requires k < |turns|
  {
    && turns[k].Received? && (forall m :: 0 <= m < k ==> IsStray(query, turns[m]))
    && var d := Filled(turns[k].datagram);
       |d| >= 12 && |query| >= 2 && d[0] == query[0] && d[1] == query[1] && d[2] >= 128
  }

  /** An answer is only ever taken from a datagram that carries the query's id and the response bit. */
  lemma {:induction false} AnswersAreAuthentic(query: bytes, turns: seq<Turn>) returns (k: nat)
    requires Settled(query, turns).Resolved? || Settled(query, turns).Refused?
    ensures k < |turns| && AnswersAt(query, turns, k)
    ensures Settled(query, turns) == Verdict(query, turns[k])
  {
    if IsStray(query, turns[0]) {
      var j := AnswersAreAuthentic(query, turns[1..]);
      k := j + 1;
      forall m | 0 <= m < k
        ensures IsStray(query, turns[m])
      {
        assert m > 0 ==> turns[m] == turns[1..][m - 1];
      }
    } else {
      k := 0;
    }
  }
}
