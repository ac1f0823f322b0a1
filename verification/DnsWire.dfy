/**
 The DNS probe's reader of responses (sections 3.1, 4.1.2, 4.1.3 and 4.1.4 of RFC 1035): skipping names
 and questions, and reading the first A record.
 */
module DnsWire {
  import opened Common

  function U16(hi: byte, lo: byte): (n: nat)
    ensures n < 65536
  {
    hi as nat * 256 + lo as nat
  }

  function ToBytes16(n: nat): (b: bytes)
    requires n < 65536
    ensures |b| == 2 && U16(b[0], b[1]) == n
  {
    [n / 256, n % 256]
  }

  /** Top two bits set: the first byte of a compression pointer. */
  predicate IsPointer(length: byte) {
    length >= 192
  }

  // ----- Names on the wire -----

  datatype Ending = Root | Pointer(first: byte, second: byte)

  /** A name as labels followed by the root byte or a compression pointer. */
  datatype Name = Name(labels: seq<bytes>, ending: Ending)

  /** Labels of 1 to `maxLabel` bytes; RFC 1035 allows 63, the reader takes anything below a pointer. */
  ghost predicate ValidName(name: Name, maxLabel: nat) {
    && (forall k :: 0 <= k < |name.labels| ==> 1 <= |name.labels[k]| <= maxLabel)
    && (name.ending.Pointer? ==> IsPointer(name.ending.first))
  }

  function EncodeEnding(ending: Ending): bytes {
    match ending
    case Root => [0]
    case Pointer(first, second) => [first, second]
  }

  function EncodeLabels(labels: seq<bytes>): bytes
    requires forall k :: 0 <= k < |labels| ==> |labels[k]| < 256
  {
    if labels == [] then [] else [|labels[0]|] + labels[0] + EncodeLabels(labels[1..])
  }

  function EncodeName(name: Name): bytes
    requires forall k :: 0 <= k < |name.labels| ==> |name.labels[k]| < 256
  {
    EncodeLabels(name.labels) + EncodeEnding(name.ending)
  }

  // ----- Skipping a name -----

  function SkipNameAt(message: bytes, offset: nat): Option<nat>
    decreases |message| - offset
  {
    if offset >= |message| then None
    else if message[offset] == 0 then Some(offset + 1)
    else if IsPointer(message[offset]) then Some(offset + 2)
    else if offset + 1 + message[offset] as nat > |message| then None
    else SkipNameAt(message, offset + 1 + message[offset] as nat)
  }

  method SkipName(message: bytes, start: nat) returns (end: Option<nat>)
    ensures end == SkipNameAt(message, start)
  {
    var offset := start;
    while true
      invariant SkipNameAt(message, offset) == SkipNameAt(message, start)
      decreases |message| - offset
    {
      if offset >= |message| {
        return None;
      }
      var length := message[offset];
      if length == 0 {
        return Some(offset + 1);
      }
      if IsPointer(length) {
        return Some(offset + 2);
      }
      offset := offset + 1 + length as nat;
      if offset > |message| {
        return None;
      }
    }
  }

  /** The bytes `part` stand in `message` at `offset`. */
  ghost predicate At(message: bytes, offset: nat, part: bytes)
    decreases |part|
  {
    if part == [] then offset <= |message|
    else offset < |message| && message[offset] == part[0] && At(message, offset + 1, part[1..])
  }

  lemma {:induction false} AtIsSlice(message: bytes, offset: nat, part: bytes)
    ensures At(message, offset, part) <==> offset + |part| <= |message| && message[offset..offset + |part|] == part
    decreases |part|
  {
    if part == [] {
      assert offset <= |message| ==> message[offset..offset] == part;
    } else {
      AtIsSlice(message, offset + 1, part[1..]);
      if offset + |part| <= |message| {
        var slice := message[offset..offset + |part|];
        assert slice[1..] == message[offset + 1..offset + |part|];
        assert slice == [slice[0]] + slice[1..] && part == [part[0]] + part[1..];
      }
    }
  }

  lemma SliceIsAt(message: bytes, offset: nat, end: nat)
    requires offset <= end <= |message|
    ensures At(message, offset, message[offset..end])
  {
    AtIsSlice(message, offset, message[offset..end]);
  }

  lemma {:induction false} AtConcat(message: bytes, offset: nat, a: bytes, b: bytes)
    ensures At(message, offset, a + b) <==> At(message, offset, a) && At(message, offset + |a|, b)
    decreases |a|
  {
    if a == [] {
      assert a + b == b;
      AtFits(message, offset, b);
    } else {
      assert (a + b)[1..] == a[1..] + b;
      AtConcat(message, offset + 1, a[1..], b);
    }
  }

  lemma {:induction false} AtFits(message: bytes, offset: nat, part: bytes)
    ensures At(message, offset, part) ==> offset + |part| <= |message|
    decreases |part|
  {
    if part != [] {
      AtFits(message, offset + 1, part[1..]);
    }
  }

  lemma AtByte(message: bytes, offset: nat, b: byte)
    ensures At(message, offset, [b]) <==> offset < |message| && message[offset] == b
  {
    assert At(message, offset + 1, [b][1..]) <==> offset + 1 <= |message|;
  }

  /** A name read off a message label by label, ending just before `end`. */
  ghost predicate NameAt(message: bytes, offset: nat, name: Name, end: nat)
    decreases |name.labels|
  {
    if name.labels != [] then
      var part := name.labels[0];
      && offset + 1 + |part| <= |message| && message[offset] == |part| && At(message, offset + 1, part)
      && NameAt(message, offset + 1 + |part|, Name(name.labels[1..], name.ending), end)
    else if name.ending.Root? then end == offset + 1 <= |message| && message[offset] == 0
    else
      && end == offset + 2 <= |message|
      && message[offset] == name.ending.first && message[offset + 1] == name.ending.second
  }

  lemma EndingAt(message: bytes, offset: nat, ending: Ending)
    ensures At(message, offset, EncodeEnding(ending)) <==>
      NameAt(message, offset, Name([], ending), offset + |EncodeEnding(ending)|)
  {
    if ending.Root? {
      AtByte(message, offset, 0);
    } else {
      assert EncodeEnding(ending) == [ending.first] + [ending.second];
      AtConcat(message, offset, [ending.first], [ending.second]);
      AtByte(message, offset, ending.first);
      AtByte(message, offset + 1, ending.second);
    }
  }

  lemma FrontLabel(message: bytes, offset: nat, part: bytes, rest: bytes)
    requires |part| < 256
    ensures At(message, offset, [|part|] + part + rest) <==>
      && offset + 1 + |part| <= |message| && message[offset] == |part| && At(message, offset + 1, part)
      && At(message, offset + 1 + |part|, rest)
  {
    AtConcat(message, offset, [|part|] + part, rest);
    AtConcat(message, offset, [|part|], part);
    AtByte(message, offset, |part|);
    AtFits(message, offset + 1, part);
  }

  /** Reading label by label is reading the encoding. */
  lemma {:induction false} NameAtIsEncoded(message: bytes, offset: nat, name: Name)
    requires ValidName(name, 191)
    ensures At(message, offset, EncodeName(name)) <==> NameAt(message, offset, name, offset + |EncodeName(name)|)
    decreases |name.labels|
  {
    if name.labels == [] {
      assert EncodeName(name) == EncodeEnding(name.ending);
      EndingAt(message, offset, name.ending);
    } else {
      var part, rest := name.labels[0], Name(name.labels[1..], name.ending);
      assert EncodeName(name) == [|part|] + part + EncodeName(rest);
      FrontLabel(message, offset, part, EncodeName(rest));
      NameAtIsEncoded(message, offset + 1 + |part|, rest);
    }
  }

  lemma {:induction false} SkipsNameAt(message: bytes, offset: nat, name: Name, end: nat)
    requires ValidName(name, 191) && NameAt(message, offset, name, end)
    ensures SkipNameAt(message, offset) == Some(end)
    decreases |name.labels|
  {
    if name.labels != [] {
      SkipsNameAt(message, offset + 1 + |name.labels[0]|, Name(name.labels[1..], name.ending), end);
    }
  }

  /** Conversely, a skip that stays inside the message has passed over a name. */
  lemma {:induction false} SkippedIsNameAt(message: bytes, offset: nat) returns (name: Name)
    requires SkipNameAt(message, offset).Some? && SkipNameAt(message, offset).value <= |message|
    ensures ValidName(name, 191) && NameAt(message, offset, name, SkipNameAt(message, offset).value)
    decreases |message| - offset
  {
    var length := message[offset];
    if length == 0 {
      name := Name([], Root);
    } else if IsPointer(length) {
      name := Name([], Pointer(length, message[offset + 1]));
    } else {
      var next := offset + 1 + length as nat;
      var rest := SkippedIsNameAt(message, next);
      SliceIsAt(message, offset + 1, next);
      name := Name([message[offset + 1..next]] + rest.labels, rest.ending);
      assert Name(name.labels[1..], name.ending) == rest;
    }
  }

  /** A name is skipped to its last byte wherever its encoding stands. */
  lemma SkipsEncodedName(message: bytes, offset: nat, name: Name)
    requires ValidName(name, 191) && At(message, offset, EncodeName(name))
    ensures SkipNameAt(message, offset) == Some(offset + |EncodeName(name)|)
  {
    NameAtIsEncoded(message, offset, name);
    SkipsNameAt(message, offset, name, offset + |EncodeName(name)|);
  }

  /** A reader independent of the skipper: the labels of an uncompressed name, and where it ends. */
  function DecodeLabels(message: bytes, offset: nat): Option<(seq<bytes>, nat)>
    decreases |message| - offset
  {
    if offset >= |message| then None
    else if message[offset] == 0 then Some(([], offset + 1))
    else if message[offset] > 63 || offset + 1 + message[offset] as nat > |message| then None
    else
      var next := offset + 1 + message[offset] as nat;
      var rest :- DecodeLabels(message, next);
      Some(([message[offset + 1..next]] + rest.0, rest.1))
  }

  lemma {:induction false} DecodesNameAt(message: bytes, offset: nat, labels: seq<bytes>, end: nat)
    requires ValidName(Name(labels, Root), 63) && NameAt(message, offset, Name(labels, Root), end)
    ensures DecodeLabels(message, offset) == Some((labels, end))
    decreases |labels|
  {
    if labels != [] {
      DecodesNameAt(message, offset + 1 + |labels[0]|, labels[1..], end);
      AtIsSlice(message, offset + 1, labels[0]);
      assert labels == [labels[0]] + labels[1..];
    }
  }

  // ----- Questions and answers -----

  datatype Question = Question(name: Name, qtype: bytes, qclass: bytes)

  datatype Record = Record(name: Name, rtype: nat, rclass: bytes, ttl: bytes, rdata: bytes)

  ghost predicate ValidQuestion(q: Question) {
    ValidName(q.name, 191) && |q.qtype| == 2 && |q.qclass| == 2
  }

  ghost predicate ValidRecord(r: Record) {
    ValidName(r.name, 191) && r.rtype < 65536 && |r.rclass| == 2 && |r.ttl| == 4 && |r.rdata| < 65536
  }

  ghost predicate ValidQuestions(qs: seq<Question>) {
    forall k :: 0 <= k < |qs| ==> ValidQuestion(qs[k])
  }

  ghost predicate ValidRecords(rs: seq<Record>) {
    forall k :: 0 <= k < |rs| ==> ValidRecord(rs[k])
  }

  ghost function EncodeQuestion(q: Question): bytes
    requires ValidQuestion(q)
  {
    EncodeName(q.name) + (q.qtype + q.qclass)
  }

  /** TYPE, CLASS, TTL, RDLENGTH and the data. */
  ghost function EncodeFields(r: Record): bytes
    requires ValidRecord(r)
  {
    ToBytes16(r.rtype) + (r.rclass + (r.ttl + (ToBytes16(|r.rdata|) + r.rdata)))
  }

  ghost function EncodeRecord(r: Record): bytes
    requires ValidRecord(r)
  {
    EncodeName(r.name) + EncodeFields(r)
  }

  ghost function EncodeQuestions(qs: seq<Question>): bytes
    requires ValidQuestions(qs)
  {
    if qs == [] then [] else EncodeQuestion(qs[0]) + EncodeQuestions(qs[1..])
  }

  ghost function EncodeRecords(rs: seq<Record>): bytes
    requires ValidRecords(rs)
  {
    if rs == [] then [] else EncodeRecord(rs[0]) + EncodeRecords(rs[1..])
  }

  /** An address record: TYPE 1 with four data bytes. */
  ghost predicate IsAddress(r: Record) {
    r.rtype == 1 && |r.rdata| == 4
  }

  ghost function FirstAddress(rs: seq<Record>): Option<bytes> {
    if rs == [] then None
    else if IsAddress(rs[0]) then Some(rs[0].rdata)
    else FirstAddress(rs[1..])
  }

  // ----- The reader -----

  function SkipQuestionAt(message: bytes, offset: nat): Option<nat> {
    var after :- SkipNameAt(message, offset);
    if after + 4 <= |message| then Some(after + 4) else None
  }

  method SkipQuestion(message: bytes, offset: nat) returns (end: Option<nat>)
    ensures end == SkipQuestionAt(message, offset)
    ensures end.Some? ==> exists q :: QuestionAt(message, offset, q) && end.value == offset + QuestionSize(q)
    ensures end.None? ==> forall q :: !QuestionAt(message, offset, q)
  {
    SkipIsExact(message, offset);
    var after := SkipName(message, offset);
    if after.None? {
      return None;
    }
    end := if after.value + 4 <= |message| then Some(after.value + 4) else None;
  }

  function SkipQuestionsAt(message: bytes, offset: nat, count: nat): Option<nat>
    decreases count
  {
    if count == 0 then Some(offset)
    else
      var next :- SkipQuestionAt(message, offset);
      SkipQuestionsAt(message, next, count - 1)
  }

  datatype Scan = Stop | Found(address: bytes) | Next(offset: nat)

  /** What one turn of the answer loop makes of the fields after a record's name. */
  function ScanFields(message: bytes, head: nat): Scan {
    if head + 10 > |message| then Stop
    else
      var rtype := U16(message[head], message[head + 1]);
      var rdlength := U16(message[head + 8], message[head + 9]);
      if rtype == 1 && rdlength == 4 && head + 14 <= |message| then Found(message[head + 10..head + 14])
      else Next(head + 10 + rdlength)
  }

  function ScanRecord(message: bytes, offset: nat): Scan {
    var name := SkipNameAt(message, offset);
    if name.None? then Stop else ScanFields(message, name.value)
  }

  function FirstAAt(message: bytes, offset: nat, count: nat): Option<bytes>
    decreases count
  {
    if count == 0 then None
    else
      match ScanRecord(message, offset)
      case Stop => None
      case Found(address) => Some(address)
      case Next(next) => FirstAAt(message, next, count - 1)
  }

  function ParsedFirstA(message: bytes): Option<bytes>
    requires |message| >= 12
  {
    var ancount := U16(message[6], message[7]);
    if ancount == 0 then None
    else
      var offset :- SkipQuestionsAt(message, 12, U16(message[4], message[5]));
      FirstAAt(message, offset, ancount)
  }

  method SkipQuestions(message: bytes, start: nat, count: nat) returns (end: Option<nat>)
    ensures end == SkipQuestionsAt(message, start, count)
  {
    var offset: nat := start;
    var i := 0;
    while i < count
      invariant 0 <= i <= count
      invariant SkipQuestionsAt(message, offset, count - i) == SkipQuestionsAt(message, start, count)
    {
      var next := SkipQuestion(message, offset);
      if next.None? {
        return None;
      }
      offset := next.value;
      i := i + 1;
    }
    end := Some(offset);
  }

  method ReadRecord(message: bytes, start: nat) returns (scan: Scan)
    ensures scan == ScanRecord(message, start)
    ensures scan.Found? ==> exists r :: RecordAt(message, start, r) && IsAddress(r) && scan.address == r.rdata
  {
    FoundIsThere(message, start);
    var name := SkipName(message, start);
    if name.None? || name.value + 10 > |message| {
      return Stop;
    }
    var offset := name.value;
    var rtype := U16(message[offset], message[offset + 1]);
    var rdlength := U16(message[offset + 8], message[offset + 9]);
    var rdata := offset + 10;
    if rtype == 1 && rdlength == 4 && rdata + 4 <= |message| {
      return Found(message[rdata..rdata + 4]);
    }
    scan := Next(rdata + rdlength);
  }

  method ScanAnswers(message: bytes, start: nat, count: nat) returns (address: Option<bytes>)
    ensures address == FirstAAt(message, start, count)
  {
    var offset: nat := start;
    var i := 0;
    while i < count
      invariant 0 <= i <= count
      invariant FirstAAt(message, offset, count - i) == FirstAAt(message, start, count)
    {
      var scan := ReadRecord(message, offset);
      match scan {
        case Stop => return None;
        case Found(found) => return Some(found);
        case Next(next) => offset := next;
      }
      i := i + 1;
    }
    address := None;
  }

  // ----- Records and questions where they stand -----

  ghost function NameSize(name: Name): nat
    decreases |name.labels|
  {
    if name.labels == [] then if name.ending.Root? then 1 else 2
    else 1 + |name.labels[0]| + NameSize(Name(name.labels[1..], name.ending))
  }

  lemma {:induction false} NameSizeIsEncoded(name: Name)
    requires ValidName(name, 191)
    ensures |EncodeName(name)| == NameSize(name)
    decreases |name.labels|
  {
    if name.labels != [] {
      NameSizeIsEncoded(Name(name.labels[1..], name.ending));
    }
  }

  lemma {:induction false} NameAtSize(message: bytes, offset: nat, name: Name, end: nat)
    requires NameAt(message, offset, name, end)
    ensures end == offset + NameSize(name) <= |message|
    decreases |name.labels|
  {
    if name.labels != [] {
      NameAtSize(message, offset + 1 + |name.labels[0]|, Name(name.labels[1..], name.ending), end);
    }
  }

  ghost predicate QuestionAt(message: bytes, offset: nat, q: Question) {
    && ValidQuestion(q) && NameAt(message, offset, q.name, offset + NameSize(q.name))
    && At(message, offset + NameSize(q.name), q.qtype + q.qclass)
  }

  ghost predicate FieldsAt(message: bytes, head: nat, r: Record) {
    && head + 10 + |r.rdata| <= |message|
    && U16(message[head], message[head + 1]) == r.rtype
    && At(message, head + 2, r.rclass) && At(message, head + 4, r.ttl)
    && U16(message[head + 8], message[head + 9]) == |r.rdata|
    && At(message, head + 10, r.rdata)
  }

  ghost predicate RecordAt(message: bytes, offset: nat, r: Record) {
    && ValidRecord(r) && NameAt(message, offset, r.name, offset + NameSize(r.name))
    && FieldsAt(message, offset + NameSize(r.name), r)
  }

  ghost function QuestionSize(q: Question): nat {
    NameSize(q.name) + 4
  }

  ghost function RecordSize(r: Record): nat {
    NameSize(r.name) + 10 + |r.rdata|
  }

  ghost predicate QuestionsAt(message: bytes, offset: nat, qs: seq<Question>)
    decreases |qs|
  {
    qs != [] ==> QuestionAt(message, offset, qs[0]) && QuestionsAt(message, offset + QuestionSize(qs[0]), qs[1..])
  }

  ghost predicate RecordsAt(message: bytes, offset: nat, rs: seq<Record>)
    decreases |rs|
  {
    rs != [] ==> RecordAt(message, offset, rs[0]) && RecordsAt(message, offset + RecordSize(rs[0]), rs[1..])
  }

  ghost function QuestionsSize(qs: seq<Question>): nat {
    if qs == [] then 0 else QuestionSize(qs[0]) + QuestionsSize(qs[1..])
  }

  // ----- Encoded messages -----

  lemma U16At(message: bytes, offset: nat, n: nat)
    requires n < 65536
    ensures At(message, offset, ToBytes16(n)) <==>
      offset + 2 <= |message| && U16(message[offset], message[offset + 1]) == n
  {
    var b := ToBytes16(n);
    assert b == [b[0]] + [b[1]];
    AtConcat(message, offset, [b[0]], [b[1]]);
    AtByte(message, offset, b[0]);
    AtByte(message, offset + 1, b[1]);
  }

  lemma LengthAndData(message: bytes, offset: nat, rdata: bytes)
    requires |rdata| < 65536 && At(message, offset, ToBytes16(|rdata|) + rdata)
    ensures offset + 2 + |rdata| <= |message|
    ensures U16(message[offset], message[offset + 1]) == |rdata| && At(message, offset + 2, rdata)
  {
    AtConcat(message, offset, ToBytes16(|rdata|), rdata);
    AtFits(message, offset + 2, rdata);
    U16At(message, offset, |rdata|);
  }

  lemma FieldsStand(message: bytes, head: nat, r: Record)
    requires ValidRecord(r) && At(message, head, EncodeFields(r))
    ensures FieldsAt(message, head, r)
  {
    var last := ToBytes16(|r.rdata|) + r.rdata;
    AtConcat(message, head, ToBytes16(r.rtype), r.rclass + (r.ttl + last));
    AtConcat(message, head + 2, r.rclass, r.ttl + last);
    AtConcat(message, head + 4, r.ttl, last);
    LengthAndData(message, head + 8, r.rdata);
    U16At(message, head, r.rtype);
  }

  lemma RecordStands(message: bytes, offset: nat, r: Record)
    requires ValidRecord(r) && At(message, offset, EncodeRecord(r))
    ensures RecordAt(message, offset, r) && |EncodeRecord(r)| == RecordSize(r)
  {
    NameSizeIsEncoded(r.name);
    AtConcat(message, offset, EncodeName(r.name), EncodeFields(r));
    NameAtIsEncoded(message, offset, r.name);
    FieldsStand(message, offset + NameSize(r.name), r);
  }

  lemma {:induction false} RecordsStand(message: bytes, offset: nat, rs: seq<Record>)
    requires ValidRecords(rs) && At(message, offset, EncodeRecords(rs))
    ensures RecordsAt(message, offset, rs)
    decreases |rs|
  {
    if rs != [] {
      AtConcat(message, offset, EncodeRecord(rs[0]), EncodeRecords(rs[1..]));
      RecordStands(message, offset, rs[0]);
      RecordsStand(message, offset + RecordSize(rs[0]), rs[1..]);
    }
  }

  lemma QuestionStands(message: bytes, offset: nat, q: Question)
    requires ValidQuestion(q) && At(message, offset, EncodeQuestion(q))
    ensures QuestionAt(message, offset, q) && |EncodeQuestion(q)| == QuestionSize(q)
  {
    NameSizeIsEncoded(q.name);
    AtConcat(message, offset, EncodeName(q.name), q.qtype + q.qclass);
    NameAtIsEncoded(message, offset, q.name);
  }

  lemma {:induction false} QuestionsStand(message: bytes, offset: nat, qs: seq<Question>)
    requires ValidQuestions(qs) && At(message, offset, EncodeQuestions(qs))
    ensures QuestionsAt(message, offset, qs) && |EncodeQuestions(qs)| == QuestionsSize(qs)
    decreases |qs|
  {
    if qs != [] {
      AtConcat(message, offset, EncodeQuestion(qs[0]), EncodeQuestions(qs[1..]));
      QuestionStands(message, offset, qs[0]);
      QuestionsStand(message, offset + QuestionSize(qs[0]), qs[1..]);
    }
  }

  // ----- Completeness: what stands in a message is read correctly -----

  lemma SkipsQuestion(message: bytes, offset: nat, q: Question)
    requires QuestionAt(message, offset, q)
    ensures SkipQuestionAt(message, offset) == Some(offset + QuestionSize(q))
  {
    SkipsNameAt(message, offset, q.name, offset + NameSize(q.name));
    AtFits(message, offset + NameSize(q.name), q.qtype + q.qclass);
  }

  lemma {:induction false} SkipsQuestions(message: bytes, offset: nat, qs: seq<Question>)
    requires QuestionsAt(message, offset, qs)
    ensures SkipQuestionsAt(message, offset, |qs|) == Some(offset + QuestionsSize(qs))
    decreases |qs|
  {
    if qs != [] {
      SkipsQuestion(message, offset, qs[0]);
      SkipsQuestions(message, offset + QuestionSize(qs[0]), qs[1..]);
    }
  }

  lemma ScansFields(message: bytes, head: nat, r: Record)
    requires FieldsAt(message, head, r)
    ensures ScanFields(message, head) == if IsAddress(r) then Found(r.rdata) else Next(head + 10 + |r.rdata|)
  {
    AtIsSlice(message, head + 10, r.rdata);
  }

  /** The reader takes an address record and passes over any other. */
  lemma ScansRecord(message: bytes, offset: nat, r: Record)
    requires RecordAt(message, offset, r)
    ensures ScanRecord(message, offset) == if IsAddress(r) then Found(r.rdata) else Next(offset + RecordSize(r))
  {
    SkipsNameAt(message, offset, r.name, offset + NameSize(r.name));
    ScansFields(message, offset + NameSize(r.name), r);
  }

  /** Turn by turn, the reader finds or passes over the records. */
  ghost predicate Passes(message: bytes, offset: nat, rs: seq<Record>)
    decreases |rs|
  {
    rs != [] ==>
      && ScanRecord(message, offset) ==
         (if IsAddress(rs[0]) then Found(rs[0].rdata) else Next(offset + RecordSize(rs[0])))
      && Passes(message, offset + RecordSize(rs[0]), rs[1..])
  }

  lemma {:induction false} PassesRecords(message: bytes, offset: nat, rs: seq<Record>)
    requires RecordsAt(message, offset, rs)
    ensures Passes(message, offset, rs)
    decreases |rs|
  {
    if rs != [] {
      ScansRecord(message, offset, rs[0]);
      PassesRecords(message, offset + RecordSize(rs[0]), rs[1..]);
    }
  }

  lemma {:induction false} PassingFindsFirst(message: bytes, offset: nat, rs: seq<Record>)
    requires Passes(message, offset, rs)
    ensures FirstAAt(message, offset, |rs|) == FirstAddress(rs)
    decreases |rs|
  {
    if rs != [] && !IsAddress(rs[0]) {
      PassingFindsFirst(message, offset + RecordSize(rs[0]), rs[1..]);
    }
  }

  /** Scanning the records that stand in a message finds their first address. */
  lemma ScansRecords(message: bytes, offset: nat, rs: seq<Record>)
    requires RecordsAt(message, offset, rs)
    ensures FirstAAt(message, offset, |rs|) == FirstAddress(rs)
  {
    PassesRecords(message, offset, rs);
    PassingFindsFirst(message, offset, rs);
  }

  /** An encoded question section is skipped to its last byte. */
  lemma SkipsEncodedQuestions(message: bytes, offset: nat, qs: seq<Question>)
    requires ValidQuestions(qs) && At(message, offset, EncodeQuestions(qs))
    ensures SkipQuestionsAt(message, offset, |qs|) == Some(offset + |EncodeQuestions(qs)|)
  {
    QuestionsStand(message, offset, qs);
    SkipsQuestions(message, offset, qs);
  }

  /** An encoded answer section yields its first address. */
  lemma ScansEncodedRecords(message: bytes, offset: nat, rs: seq<Record>)
    requires ValidRecords(rs) && At(message, offset, EncodeRecords(rs))
    ensures FirstAAt(message, offset, |rs|) == FirstAddress(rs)
  {
    RecordsStand(message, offset, rs);
    ScansRecords(message, offset, rs);
  }

  /** A response: twelve header bytes whose counts agree with the sections, then anything after them. */
  ghost predicate IsResponse(message: bytes, qs: seq<Question>, rs: seq<Record>) {
    && |message| >= 12
    && U16(message[4], message[5]) == |qs| && U16(message[6], message[7]) == |rs|
    && QuestionsAt(message, 12, qs) && RecordsAt(message, 12 + QuestionsSize(qs), rs)
  }

  /** A question is skipped exactly when there is one. */
  lemma SkipIsExact(message: bytes, offset: nat)
    ensures var end := SkipQuestionAt(message, offset);
      && (end.Some? ==> exists q :: QuestionAt(message, offset, q) && end.value == offset + QuestionSize(q))
      && (end.None? ==> forall q :: !QuestionAt(message, offset, q))
  {
    if SkipQuestionAt(message, offset).Some? {
      var q := SkippedQuestionStands(message, offset);
      SkipsQuestion(message, offset, q);
    } else {
      forall q
        ensures !QuestionAt(message, offset, q)
      {
        if QuestionAt(message, offset, q) {
          SkipsQuestion(message, offset, q);
        }
      }
    }
  }

  /** Once the questions are skipped, the answer is what the scan finds. */
  lemma ReadsOn(message: bytes, offset: nat)
    requires |message| >= 12 && SkipQuestionsAt(message, 12, U16(message[4], message[5])) == Some(offset)
    ensures ParsedFirstA(message) == FirstAAt(message, offset, U16(message[6], message[7]))
  {
  }

  /** On every well-formed response the answer is the first record of TYPE 1 with four data bytes. */
  lemma ReadsFirstAddress(message: bytes, qs: seq<Question>, rs: seq<Record>)
    requires IsResponse(message, qs, rs)
    ensures ParsedFirstA(message) == FirstAddress(rs)
  {
    SkipsQuestions(message, 12, qs);
    ReadsOn(message, 12 + QuestionsSize(qs));
    ScansRecords(message, 12 + QuestionsSize(qs), rs);
  }

  // ----- Soundness: an address is only ever read from a record that is there -----

  lemma SkippedQuestionStands(message: bytes, offset: nat) returns (q: Question)
    requires SkipQuestionAt(message, offset).Some?
    ensures QuestionAt(message, offset, q)
  {
    var after := SkipNameAt(message, offset).value;
    var name := SkippedIsNameAt(message, offset);
    NameAtSize(message, offset, name, after);
    q := Question(name, message[after..after + 2], message[after + 2..after + 4]);
    assert q.qtype + q.qclass == message[after..after + 4];
    SliceIsAt(message, after, after + 4);
  }

  lemma PrependQuestion(message: bytes, offset: nat, q: Question, rest: seq<Question>)
    requires QuestionAt(message, offset, q) && QuestionsAt(message, offset + QuestionSize(q), rest)
    ensures QuestionsAt(message, offset, [q] + rest)
    ensures QuestionsSize([q] + rest) == QuestionSize(q) + QuestionsSize(rest)
  {
    assert ([q] + rest)[1..] == rest;
  }

  lemma {:induction false} SkippedQuestionsStand(message: bytes, offset: nat, count: nat) returns (qs: seq<Question>)
    requires SkipQuestionsAt(message, offset, count).Some?
    ensures |qs| == count && QuestionsAt(message, offset, qs)
    ensures SkipQuestionsAt(message, offset, count) == Some(offset + QuestionsSize(qs))
    decreases count
  {
    if count == 0 {
      qs := [];
    } else {
      var q := SkippedQuestionStands(message, offset);
      SkipsQuestion(message, offset, q);
      var rest := SkippedQuestionsStand(message, offset + QuestionSize(q), count - 1);
      PrependQuestion(message, offset, q, rest);
      qs := [q] + rest;
    }
  }

  lemma FieldsThere(message: bytes, head: nat, name: Name) returns (r: Record)
    requires ValidName(name, 191) && head + 10 <= |message|
    requires head + 10 + U16(message[head + 8], message[head + 9]) <= |message|
    ensures r.name == name && ValidRecord(r) && FieldsAt(message, head, r)
  {
    var size := U16(message[head + 8], message[head + 9]);
    r := Record(name, U16(message[head], message[head + 1]), message[head + 2..head + 4], message[head + 4..head + 8],
                message[head + 10..head + 10 + size]);
    SliceIsAt(message, head + 2, head + 4);
    SliceIsAt(message, head + 4, head + 8);
    SliceIsAt(message, head + 10, head + 10 + size);
  }

  /** An address found is the data of an address record that stands there. */
  lemma FoundIsThere(message: bytes, offset: nat)
    ensures var scan := ScanRecord(message, offset);
      scan.Found? ==> exists r :: RecordAt(message, offset, r) && IsAddress(r) && scan.address == r.rdata
  {
    if ScanRecord(message, offset).Found? {
      var r := ScannedRecordStands(message, offset, 1);
      ScansRecord(message, offset, r);
    }
  }

  /** A scan that finds an address has met a whole record at each turn. */
  lemma ScannedRecordStands(message: bytes, offset: nat, count: nat) returns (r: Record)
    requires FirstAAt(message, offset, count).Some?
    ensures RecordAt(message, offset, r)
  {
    var head := SkipNameAt(message, offset).value;
    RestFits(message, head, count);
    var name := SkippedIsNameAt(message, offset);
    NameAtSize(message, offset, name, head);
    r := FieldsThere(message, head, name);
  }

  lemma RestFits(message: bytes, head: nat, count: nat)
    requires count > 0 && head + 10 <= |message|
    requires var scan := ScanFields(message, head);
      scan.Found? || (scan.Next? && FirstAAt(message, scan.offset, count - 1).Some?)
    ensures head + 10 + U16(message[head + 8], message[head + 9]) <= |message|
  {
    var scan := ScanFields(message, head);
    if scan.Next? {
      PastTheEnd(message, scan.offset, count - 1);
    }
  }

  lemma PastTheEnd(message: bytes, offset: nat, count: nat)
    ensures offset > |message| ==> FirstAAt(message, offset, count).None?
  {
  }

  /** Records up to and including the first address record. */
  ghost predicate EndsInAddress(rs: seq<Record>) {
    rs != [] && (if |rs| == 1 then IsAddress(rs[0]) else !IsAddress(rs[0]) && EndsInAddress(rs[1..]))
  }

  /** The last record is an address and none before it is. */
  ghost predicate LastIsFirst(rs: seq<Record>) {
    rs != [] && IsAddress(rs[|rs| - 1]) && forall k :: 0 <= k < |rs| - 1 ==> !IsAddress(rs[k])
  }

  lemma {:induction false} EndsInAddressAt(rs: seq<Record>)
    ensures EndsInAddress(rs) <==> LastIsFirst(rs)
  {
    if |rs| > 1 {
      EndsInAddressAt(rs[1..]);
      assert forall k :: 1 <= k < |rs| ==> rs[k] == rs[1..][k - 1];
    }
  }

  lemma ScanGoesOn(message: bytes, offset: nat, count: nat, next: nat)
    requires FirstAAt(message, offset, count).Some? && ScanRecord(message, offset) == Next(next)
    ensures count > 0 && FirstAAt(message, next, count - 1).Some?
  {
  }

  lemma PrependRecord(message: bytes, offset: nat, r: Record, rest: seq<Record>)
    requires RecordAt(message, offset, r) && RecordsAt(message, offset + RecordSize(r), rest)
    ensures RecordsAt(message, offset, [r] + rest)
  {
    assert ([r] + rest)[1..] == rest;
  }

  lemma PrependUnanswering(r: Record, rest: seq<Record>)
    requires !IsAddress(r) && EndsInAddress(rest)
    ensures EndsInAddress([r] + rest)
  {
    assert ([r] + rest)[1..] == rest;
  }

  /** A scan that finds an address stands before a record, and finds it there or goes on behind it. */
  lemma FirstTurn(message: bytes, offset: nat, count: nat) returns (r: Record)
    requires FirstAAt(message, offset, count).Some?
    ensures count > 0 && Leads(message, offset, r)
    ensures !IsAddress(r) ==> FirstAAt(message, offset + RecordSize(r), count - 1).Some?
  {
    r := ScannedRecordStands(message, offset, count);
    ScansRecord(message, offset, r);
    if !IsAddress(r) {
      ScanGoesOn(message, offset, count, offset + RecordSize(r));
    }
    forall rest | RecordsAt(message, offset + RecordSize(r), rest)
      ensures RecordsAt(message, offset, [r] + rest)
    {
      PrependRecord(message, offset, r, rest);
    }
  }

  /** Whatever records stand behind it, this one stands before them. */
  ghost predicate Leads(message: bytes, offset: nat, r: Record) {
    forall rest :: RecordsAt(message, offset + RecordSize(r), rest) ==> RecordsAt(message, offset, [r] + rest)
  }

  lemma {:induction false} ScannedRecordsStand(message: bytes, offset: nat, count: nat) returns (rs: seq<Record>)
    requires FirstAAt(message, offset, count).Some?
    ensures |rs| <= count && EndsInAddress(rs) && RecordsAt(message, offset, rs)
    decreases count
  {
    var r := FirstTurn(message, offset, count);
    if IsAddress(r) {
      assert RecordsAt(message, offset + RecordSize(r), []);
      rs := [r] + [];
    } else {
      var rest := ScannedRecordsStand(message, offset + RecordSize(r), count - 1);
      PrependUnanswering(r, rest);
      rs := [r] + rest;
    }
  }

  /** The message holds its questions and then records, the last of them the first address record. */
  ghost predicate HoldsAddress(message: bytes, qs: seq<Question>, rs: seq<Record>)
    requires |message| >= 12
  {
    && |qs| == U16(message[4], message[5]) && |rs| <= U16(message[6], message[7])
    && QuestionsAt(message, 12, qs) && RecordsAt(message, 12 + QuestionsSize(qs), rs)
    && LastIsFirst(rs)
  }

  lemma {:induction false} MoreTurnsChangeNothing(message: bytes, offset: nat, few: nat, many: nat)
    requires few <= many && FirstAAt(message, offset, few).Some?
    ensures FirstAAt(message, offset, many) == FirstAAt(message, offset, few)
    decreases few
  {
    var turn := ScanRecord(message, offset);
    if turn.Next? {
      MoreTurnsChangeNothing(message, turn.offset, few - 1, many - 1);
    }
  }

  lemma {:induction false} LastIsFirstAddress(rs: seq<Record>)
    requires EndsInAddress(rs)
    ensures FirstAddress(rs) == Some(rs[|rs| - 1].rdata)
  {
    if |rs| > 1 {
      LastIsFirstAddress(rs[1..]);
    }
  }

  lemma HeldIsRead(message: bytes, qs: seq<Question>, rs: seq<Record>)
    requires |message| >= 12 && HoldsAddress(message, qs, rs)
    ensures ParsedFirstA(message) == Some(rs[|rs| - 1].rdata)
  {
    var answers := 12 + QuestionsSize(qs);
    SkipsQuestions(message, 12, qs);
    ScansRecords(message, answers, rs);
    EndsInAddressAt(rs);
    LastIsFirstAddress(rs);
    MoreTurnsChangeNothing(message, answers, |rs|, U16(message[6], message[7]));
    ReadsOn(message, answers);
  }

  lemma ReadIsHeld(message: bytes) returns (qs: seq<Question>, rs: seq<Record>)
    requires |message| >= 12 && ParsedFirstA(message).Some?
    ensures HoldsAddress(message, qs, rs)
  {
    qs := SkippedQuestionsStand(message, 12, U16(message[4], message[5]));
    ReadsOn(message, 12 + QuestionsSize(qs));
    rs := ScannedRecordsStand(message, 12 + QuestionsSize(qs), U16(message[6], message[7]));
    EndsInAddressAt(rs);
  }

  ghost predicate Held(message: bytes, address: bytes)
    requires |message| >= 12
  {
    exists qs: seq<Question>, rs: seq<Record> :: HoldsAddress(message, qs, rs) && rs[|rs| - 1].rdata == address
  }

  /** On arbitrary bytes: an address comes back exactly when the message holds it as its first address record. */
  lemma AddressIffHeld(message: bytes, address: bytes)
    requires |message| >= 12
    ensures ParsedFirstA(message) == Some(address) <==>
      Held(message, address)
  {
    if ParsedFirstA(message) == Some(address) {
      var qs, rs := ReadIsHeld(message);
      HeldIsRead(message, qs, rs);
    }
    if qs: seq<Question>, rs: seq<Record> :| HoldsAddress(message, qs, rs) && rs[|rs| - 1].rdata == address {
      HeldIsRead(message, qs, rs);
    }
  }

  lemma ParseIsExact(message: bytes)
    requires |message| >= 12
    ensures var r := ParsedFirstA(message);
      && (r.Some? ==> Held(message, r.value) && |r.value| == 4)
      && (r.None? ==> forall a :: !Held(message, a))
  {
    var r := ParsedFirstA(message);
    if r.Some? {
      AddressIffHeld(message, r.value);
      var qs, rs := ReadIsHeld(message);
      HeldIsRead(message, qs, rs);
    } else {
      forall a
        ensures !Held(message, a)
      {
        AddressIffHeld(message, a);
      }
    }
  }

  /**
   Reads the first A record; no index leaves the message, whatever the bytes are. An address comes back
   exactly when the message holds it as its first address record.
   */
  method ParseFirstA(message: bytes) returns (address: Option<bytes>)
    requires |message| >= 12
    ensures address == ParsedFirstA(message)
    ensures address.Some? ==> Held(message, address.value) && |address.value| == 4
    ensures address.None? ==> forall a :: !Held(message, a)
  {
    var qdcount := U16(message[4], message[5]);
    var ancount := U16(message[6], message[7]);
    if ancount == 0 {
      ParseIsExact(message);
      return None;
    }
    var offset := SkipQuestions(message, 12, qdcount);
    if offset.None? {
      ParseIsExact(message);
      return None;
    }
    address := ScanAnswers(message, offset.value, ancount);
    ParseIsExact(message);
  }
}
