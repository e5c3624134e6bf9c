/** The resolver's DNS wire format: the query it builds and the reply it parses (section 4.1 of
    RFC 1035). */
module DnsMessage {
  import opened Common

  type Byte = x: int | 0 <= x < 256

  const TYPE_A := 1
  const RCODE_NXDOMAIN := 3

  datatype Outcome = Resolved(address: seq<Byte>) | NoRecord | ParseError

  function U16(data: seq<Byte>, at: nat): nat
    requires at + 2 <= |data|
  {
    var high: int, low: int := data[at], data[at + 1];
    high * 256 + low
  }

  function U16Bytes(n: int): seq<Byte>
    requires 0 <= n < 65536
  {
    [n / 256, n % 256]
  }

  // ---------------------------------------------------------------- parsing

  /** Past a possibly compressed name: a zero octet or a two-octet pointer ends it; None when truncated. */
  function SkipNameSpec(data: seq<Byte>, offset: nat): Option<nat>
    decreases |data| - offset
  {
    if offset >= |data| then None
    else if data[offset] == 0 then Some(offset + 1)
    else if data[offset] >= 192 then Some(offset + 2)
    else SkipNameSpec(data, offset + 1 + data[offset])
  }

  function SkipQuestionsSpec(data: seq<Byte>, offset: nat, n: nat): Option<nat>
    decreases n
  {
    if n == 0 then Some(offset)
    else
      var name := SkipNameSpec(data, offset);
      if name.None? then None else SkipQuestionsSpec(data, name.value + 4, n - 1)
  }

  function ScanAnswersSpec(data: seq<Byte>, offset: nat, n: nat): Outcome
    decreases n
  {
    if n == 0 then NoRecord
    else
      var name := SkipNameSpec(data, offset);
      if name.None? || name.value + 10 > |data| then ParseError
      else
        var rdata, rdlength := name.value + 10, U16(data, name.value + 8);
        if rdata + rdlength > |data| then ParseError
        else if U16(data, name.value) == TYPE_A && rdlength == 4 then Resolved(data[rdata..rdata + 4])
        else ScanAnswersSpec(data, rdata + rdlength, n - 1)
  }

  function ParseSpec(data: seq<Byte>, id: int): Outcome {
    if |data| < 12 || U16(data, 0) != id then ParseError
    else if U16(data, 2) % 16 == RCODE_NXDOMAIN then NoRecord
    else
      var answers := SkipQuestionsSpec(data, 12, U16(data, 4));
      if answers.None? then ParseError else ScanAnswersSpec(data, answers.value, U16(data, 6))
  }

  /** The offsets a walk over a name visits: each label's length octet is below 192 and leads to the next,
      and the last offset is past the end, at the root, or at a pointer. */
  ghost predicate IsWalk(data: seq<Byte>, hops: seq<nat>, start: nat, end: Option<nat>) {
    && hops != [] && hops[0] == start
    && (forall i :: 0 <= i < |hops| - 1 ==>
          hops[i] < |data| && 0 < data[hops[i]] < 192 && hops[i + 1] == hops[i] + 1 + data[hops[i]])
    && var last := hops[|hops| - 1];
       if last >= |data| then end.None?
       else (data[last] == 0 && end == Some(last + 1)) || (data[last] >= 192 && end == Some(last + 2))
  }

  lemma {:induction false} WalkOf(data: seq<Byte>, start: nat) returns (hops: seq<nat>)
    ensures IsWalk(data, hops, start, SkipNameSpec(data, start))
    decreases |data| - start
  {
    hops := [start];
    if start < |data| && 0 < data[start] < 192 {
      var rest := WalkOf(data, start + 1 + data[start]);
      var end := SkipNameSpec(data, start);
      assert end == SkipNameSpec(data, start + 1 + data[start]);
      hide *;
      WalkOn(data, start, rest, end);
      hops := [start] + rest;
    }
  }

  lemma WalkOn(data: seq<Byte>, start: nat, rest: seq<nat>, end: Option<nat>)
    requires start < |data| && 0 < data[start] < 192 && IsWalk(data, rest, start + 1 + data[start], end)
    ensures IsWalk(data, [start] + rest, start, end)
  {
    var hops := [start] + rest;
    assert hops[|hops| - 1] == rest[|rest| - 1];
    forall i | 0 <= i < |hops| - 1
      ensures hops[i] < |data| && 0 < data[hops[i]] < 192 && hops[i + 1] == hops[i] + 1 + data[hops[i]]
    {
      if i > 0 { assert hops[i] == rest[i - 1] && hops[i + 1] == rest[i]; }
    }
  }

  method SkipName(data: seq<Byte>, start: nat) returns (end: Option<nat>)
    ensures end == SkipNameSpec(data, start)
    ensures exists hops :: IsWalk(data, hops, start, end)
  {
    ghost var hops := WalkOf(data, start);
    var offset: nat := start;
    while true
      invariant SkipNameSpec(data, offset) == SkipNameSpec(data, start)
      decreases |data| - offset
    {
      if offset >= |data| { return None; }
      var length := data[offset];
      if length == 0 { return Some(offset + 1); }
      if length >= 192 { return Some(offset + 2); }
      offset := offset + 1 + length;
    }
  }

  /** From `at` on there is a record's fixed part, of type A with four octets of rdata, and the address. */
  ghost predicate AddressSits(data: seq<Byte>, at: nat, address: seq<Byte>) {
    && at + 14 <= |data| && data[at] == 0 && data[at + 1] == 1 && data[at + 8] == 0 && data[at + 9] == 4
    && address == data[at + 10..at + 14]
  }

  lemma TypeASits(data: seq<Byte>, at: nat)
    requires at + 14 <= |data| && U16(data, at) == TYPE_A && U16(data, at + 8) == 4
    ensures AddressSits(data, at, data[at + 10..at + 14])
  {
  }

  /** An address found is the rdata of a type-A record of four octets. */
  lemma {:induction false} ScanFinds(data: seq<Byte>, offset: nat, n: nat)
    ensures ScanAnswersSpec(data, offset, n).Resolved? ==>
              exists at :: offset < at && AddressSits(data, at, ScanAnswersSpec(data, offset, n).address)
    decreases n
  {
    var name := SkipNameSpec(data, offset);
    if n > 0 && name.Some? && name.value + 10 <= |data| {
      SkipsForward(data, offset);
      var at, rdlength := name.value, U16(data, name.value + 8);
      ScanFinds(data, at + 10 + rdlength, n - 1);
      hide AddressSits, SkipNameSpec;
      if at + 10 + rdlength <= |data| && U16(data, at) == TYPE_A && rdlength == 4 { TypeASits(data, at); }
    }
  }

  lemma {:induction false} SkipsForward(data: seq<Byte>, offset: nat)
    ensures SkipNameSpec(data, offset).Some? ==> offset < SkipNameSpec(data, offset).value
    decreases |data| - offset
  {
    if offset < |data| && 0 < data[offset] < 192 { SkipsForward(data, offset + 1 + data[offset]); }
  }

  /** Octet by octet: short of a header, or with another transaction id, a reply is an error; with rcode 3
      there is no record; and an address is the rdata of a type-A record after the header. */
  ghost predicate OutcomeOf(data: seq<Byte>, id: int, r: Outcome) {
    && (|data| < 12 ==> r.ParseError?)
    && (|data| >= 12 ==>
          var high: int, low: int, flags: int := data[0], data[1], data[3];
          && (256 * high + low != id ==> r.ParseError?)
          && (256 * high + low == id && flags % 16 == 3 ==> r.NoRecord?))
    && (r.Resolved? ==> exists at :: 12 < at && AddressSits(data, at, r.address))
  }

  lemma LowNibble(high: int, low: int)
    ensures (high * 256 + low) % 16 == low % 16
  {
    assert high * 256 + low == 16 * (16 * high + low / 16) + low % 16;
  }

  lemma ParseMeans(data: seq<Byte>, id: int)
    ensures OutcomeOf(data, id, ParseSpec(data, id))
  {
    hide AddressSits, SkipQuestionsSpec, ScanAnswersSpec;
    if |data| >= 12 {
      LowNibble(data[2], data[3]);
      QuestionsForward(data, 12, U16(data, 4));
      var answers := SkipQuestionsSpec(data, 12, U16(data, 4));
      if answers.Some? { ScanFinds(data, answers.value, U16(data, 6)); }
    }
  }

  lemma {:induction false} QuestionsForward(data: seq<Byte>, offset: nat, n: nat)
    ensures SkipQuestionsSpec(data, offset, n).Some? ==> offset <= SkipQuestionsSpec(data, offset, n).value
    decreases n
  {
    var name := SkipNameSpec(data, offset);
    if n > 0 && name.Some? {
      SkipsForward(data, offset);
      QuestionsForward(data, name.value + 4, n - 1);
    }
  }

  /** Any byte string parses to an outcome, reading only inside it. */
  method ParseResponse(data: seq<Byte>, id: int) returns (r: Outcome)
    ensures r == ParseSpec(data, id)
    ensures OutcomeOf(data, id, r)
  {
    ParseMeans(data, id);
    hide OutcomeOf, SkipNameSpec;
    if |data| < 12 { return ParseError; }
    if U16(data, 0) != id { return ParseError; }
    if U16(data, 2) % 16 == RCODE_NXDOMAIN { return NoRecord; }
    var offset: nat := 12;
    var qd, an := U16(data, 4), U16(data, 6);
    for i := 0 to qd
      invariant SkipQuestionsSpec(data, 12, qd) == SkipQuestionsSpec(data, offset, qd - i)
    {
      var name := SkipName(data, offset);
      if name.None? { return ParseError; }
      offset := name.value + 4;
    }
    ghost var first: nat := offset;
    for i := 0 to an
      invariant ScanAnswersSpec(data, first, an) == ScanAnswersSpec(data, offset, an - i)
    {
      var name := SkipName(data, offset);
      if name.None? { return ParseError; }
      offset := name.value;
      if offset + 10 > |data| { return ParseError; }
      var rtype, rdlength := U16(data, offset), U16(data, offset + 8);
      offset := offset + 10;
      if offset + rdlength > |data| { return ParseError; }
      if rtype == TYPE_A && rdlength == 4 { return Resolved(data[offset..offset + 4]); }
      offset := offset + rdlength;
    }
    r := NoRecord;
  }

  // ---------------------------------------------------------------- messages and their encoding

  type Label = s: seq<Byte> | 1 <= |s| <= 63 witness [1]

  /** An owner name: labels, then the root or a compression pointer (section 4.1.4). */
  datatype Name = Name(labels: seq<Label>, pointer: Option<int>)

  predicate GoodName(n: Name) { n.pointer.Some? ==> 0 <= n.pointer.value < 16384 }

  function EncodeName(n: Name): seq<Byte>
    requires GoodName(n)
    decreases |n.labels|
  {
    if n.labels != [] then [|n.labels[0]|] + n.labels[0] + EncodeName(n.(labels := n.labels[1..]))
    else if n.pointer.Some? then [192 + n.pointer.value / 256, n.pointer.value % 256]
    else [0]
  }

  datatype Question = Question(name: Name, qtype: int, qclass: int)
  datatype Record = Record(name: Name, rtype: int, rclass: int, ttl: seq<Byte>, rdata: seq<Byte>)

  datatype Message = Message(id: int, flags: int, questions: seq<Question>, answers: seq<Record>,
                             ns: int, ar: int, rest: seq<Byte>)

  predicate IsU16(n: int) { 0 <= n < 65536 }

  predicate GoodQuestion(q: Question) { GoodName(q.name) && IsU16(q.qtype) && IsU16(q.qclass) }

  predicate GoodRecord(r: Record) {
    GoodName(r.name) && IsU16(r.rtype) && IsU16(r.rclass) && |r.ttl| == 4 && |r.rdata| < 65536
  }

  predicate Good(m: Message) {
    && IsU16(m.id) && IsU16(m.flags) && IsU16(m.ns) && IsU16(m.ar)
    && |m.questions| < 65536 && |m.answers| < 65536
    && (forall i :: 0 <= i < |m.questions| ==> GoodQuestion(m.questions[i]))
    && (forall i :: 0 <= i < |m.answers| ==> GoodRecord(m.answers[i]))
  }

  function EncodeQuestion(q: Question): seq<Byte>
    requires GoodQuestion(q)
  {
    EncodeName(q.name) + (U16Bytes(q.qtype) + U16Bytes(q.qclass))
  }

  function RecordHead(r: Record): seq<Byte>
    requires GoodRecord(r)
  {
    U16Bytes(r.rtype) + U16Bytes(r.rclass) + r.ttl + U16Bytes(|r.rdata|)
  }

  function EncodeRecord(r: Record): seq<Byte>
    requires GoodRecord(r)
  {
    EncodeName(r.name) + (RecordHead(r) + r.rdata)
  }

  function EncodeQuestions(qs: seq<Question>): seq<Byte>
    requires forall i :: 0 <= i < |qs| ==> GoodQuestion(qs[i])
  {
    if qs == [] then [] else EncodeQuestion(qs[0]) + EncodeQuestions(qs[1..])
  }

  function EncodeRecords(rs: seq<Record>): seq<Byte>
    requires forall i :: 0 <= i < |rs| ==> GoodRecord(rs[i])
  {
    if rs == [] then [] else EncodeRecord(rs[0]) + EncodeRecords(rs[1..])
  }

  function Header(m: Message): seq<Byte>
    requires Good(m)
  {
    U16Bytes(m.id) + U16Bytes(m.flags) + U16Bytes(|m.questions|) + U16Bytes(|m.answers|) + U16Bytes(m.ns)
        + U16Bytes(m.ar)
  }

  function Encode(m: Message): seq<Byte>
    requires Good(m)
  {
    Header(m) + (EncodeQuestions(m.questions) + (EncodeRecords(m.answers) + m.rest))
  }

  /** The first type-A record with a four-octet rdata, whatever else is there. */
  function FirstAddress(rs: seq<Record>): Outcome {
    if rs == [] then NoRecord
    else if rs[0].rtype == TYPE_A && |rs[0].rdata| == 4 then Resolved(rs[0].rdata)
    else FirstAddress(rs[1..])
  }

  // ---------------------------------------------------------------- the round trip

  /** `part` sits in `data` at an offset. */
  ghost predicate Sits(data: seq<Byte>, at: nat, part: seq<Byte>) {
    at + |part| <= |data| && data[at..at + |part|] == part
  }

  lemma SitsSplit(data: seq<Byte>, at: nat, a: seq<Byte>, b: seq<Byte>)
    requires Sits(data, at, a + b)
    ensures Sits(data, at, a) && Sits(data, at + |a|, b)
  {
    var s := data[at..at + |a + b|];
    assert s[..|a|] == a && s[|a|..] == b;
    assert s[..|a|] == data[at..at + |a|] && s[|a|..] == data[at + |a|..at + |a| + |b|];
  }

  lemma SitsU16(data: seq<Byte>, at: nat, n: int)
    requires IsU16(n) && Sits(data, at, U16Bytes(n))
    ensures U16(data, at) == n
  {
    assert data[at] == data[at..at + 2][0] && data[at + 1] == data[at..at + 2][1];
  }

  lemma {:induction false} SkipsName(data: seq<Byte>, at: nat, n: Name)
    requires GoodName(n) && Sits(data, at, EncodeName(n))
    ensures SkipNameSpec(data, at) == Some(at + |EncodeName(n)|)
    decreases |n.labels|
  {
    assert data[at] == data[at..at + |EncodeName(n)|][0];
    if n.labels != [] {
      var head, rest := [|n.labels[0]|] + n.labels[0], EncodeName(n.(labels := n.labels[1..]));
      SitsSplit(data, at, head, rest);
      SkipsName(data, at + |head|, n.(labels := n.labels[1..]));
    }
  }

  lemma {:induction false} SkipsQuestions(data: seq<Byte>, at: nat, qs: seq<Question>)
    requires forall i :: 0 <= i < |qs| ==> GoodQuestion(qs[i])
    requires Sits(data, at, EncodeQuestions(qs))
    ensures SkipQuestionsSpec(data, at, |qs|) == Some(at + |EncodeQuestions(qs)|)
    decreases |qs|
  {
    hide *;
    SkipQuestionsIs(data, at, |qs|);
    QuestionsAre(qs);
    if qs != [] {
      SitsSplit(data, at, EncodeQuestion(qs[0]), EncodeQuestions(qs[1..]));
      SkipsQuestion(data, at, qs[0]);
      SkipsQuestions(data, at + |EncodeQuestion(qs[0])|, qs[1..]);
    }
  }

  lemma SkipQuestionsIs(data: seq<Byte>, at: nat, n: nat)
    ensures var name := SkipNameSpec(data, at);
            SkipQuestionsSpec(data, at, n) ==
              if n == 0 then Some(at) else if name.None? then None
              else SkipQuestionsSpec(data, name.value + 4, n - 1)
  {
  }

  lemma QuestionsAre(qs: seq<Question>)
    requires forall i :: 0 <= i < |qs| ==> GoodQuestion(qs[i])
    ensures EncodeQuestions(qs) == if qs == [] then [] else EncodeQuestion(qs[0]) + EncodeQuestions(qs[1..])
  {
  }

  lemma SkipsQuestion(data: seq<Byte>, at: nat, q: Question)
    requires GoodQuestion(q) && Sits(data, at, EncodeQuestion(q))
    ensures SkipNameSpec(data, at) == Some(at + |EncodeQuestion(q)| - 4)
  {
    SitsSplit(data, at, EncodeName(q.name), U16Bytes(q.qtype) + U16Bytes(q.qclass));
    SkipsName(data, at, q.name);
    hide Sits, EncodeName, SkipNameSpec;
  }

  lemma RecordSits(data: seq<Byte>, at: nat, r: Record)
    requires GoodRecord(r) && Sits(data, at, EncodeRecord(r))
    ensures var body := at + |EncodeName(r.name)|;
            && SkipNameSpec(data, at) == Some(body) && body + 10 + |r.rdata| == at + |EncodeRecord(r)| <= |data|
            && U16(data, body) == r.rtype && U16(data, body + 8) == |r.rdata|
            && data[body + 10..body + 10 + |r.rdata|] == r.rdata
  {
    var body := at + |EncodeName(r.name)|;
    SitsSplit(data, at, EncodeName(r.name), RecordHead(r) + r.rdata);
    SkipsName(data, at, r.name);
    hide EncodeName, SkipNameSpec, RecordHead, U16;
    SitsSplit(data, body, RecordHead(r), r.rdata);
    HeadSits(data, body, r);
  }

  lemma HeadSits(data: seq<Byte>, body: nat, r: Record)
    requires GoodRecord(r) && Sits(data, body, RecordHead(r))
    ensures |RecordHead(r)| == 10 && body + 10 <= |data|
    ensures U16(data, body) == r.rtype && U16(data, body + 8) == |r.rdata|
  {
    SitsSplit(data, body, U16Bytes(r.rtype) + U16Bytes(r.rclass) + r.ttl, U16Bytes(|r.rdata|));
    SitsSplit(data, body, U16Bytes(r.rtype) + U16Bytes(r.rclass), r.ttl);
    SitsSplit(data, body, U16Bytes(r.rtype), U16Bytes(r.rclass));
    SitsU16(data, body, r.rtype);
    SitsU16(data, body + 8, |r.rdata|);
  }

  lemma {:induction false} ScansAnswers(data: seq<Byte>, at: nat, rs: seq<Record>)
    requires forall i :: 0 <= i < |rs| ==> GoodRecord(rs[i])
    requires Sits(data, at, EncodeRecords(rs))
    ensures ScanAnswersSpec(data, at, |rs|) == FirstAddress(rs)
    decreases |rs|
  {
    hide Sits, EncodeRecord, EncodeName, SkipNameSpec, U16, GoodRecord;
    if rs != [] {
      SitsSplit(data, at, EncodeRecord(rs[0]), EncodeRecords(rs[1..]));
      RecordSits(data, at, rs[0]);
      ScansAnswers(data, at + |EncodeRecord(rs[0])|, rs[1..]);
    }
  }

  lemma HeaderFields(data: seq<Byte>, m: Message)
    requires Good(m) && Sits(data, 0, Header(m))
    ensures |data| >= 12 && U16(data, 0) == m.id && U16(data, 2) == m.flags
    ensures U16(data, 4) == |m.questions| && U16(data, 6) == |m.answers|
  {
    var h2 := U16Bytes(m.id) + U16Bytes(m.flags);
    var h3 := h2 + U16Bytes(|m.questions|);
    var h4 := h3 + U16Bytes(|m.answers|);
    SitsSplit(data, 0, h4 + U16Bytes(m.ns), U16Bytes(m.ar));
    SitsSplit(data, 0, h4, U16Bytes(m.ns));
    SitsSplit(data, 0, h3, U16Bytes(|m.answers|));
    SitsSplit(data, 0, h2, U16Bytes(|m.questions|));
    SitsSplit(data, 0, U16Bytes(m.id), U16Bytes(m.flags));
    SitsU16(data, 0, m.id);
    SitsU16(data, 2, m.flags);
    SitsU16(data, 4, |m.questions|);
    SitsU16(data, 6, |m.answers|);
  }

  /** A reply serialised from any header, questions and records, with anything after them, parses to
      its first address; to no record exactly when there is none or the rcode says the name does not
      exist, whatever any other rcode says. */
  lemma ReplyRoundTrip(m: Message)
    requires Good(m)
    ensures ParseSpec(Encode(m), m.id) == if m.flags % 16 == 3 then NoRecord else FirstAddress(m.answers)
  {
    var data := Encode(m);
    GoodParts(m);
    MessageSits(m);
    hide *;
    HeaderFields(data, m);
    PartsParse(data, m.id, m.flags, m.questions, m.answers);
  }

  /** A reply with these header fields, questions and records. */
  ghost predicate HasParts(data: seq<Byte>, id: int, flags: int, qs: seq<Question>, rs: seq<Record>)
    requires forall i :: 0 <= i < |qs| ==> GoodQuestion(qs[i])
    requires forall i :: 0 <= i < |rs| ==> GoodRecord(rs[i])
  {
    && |data| >= 12 && U16(data, 0) == id && U16(data, 2) == flags
    && U16(data, 4) == |qs| && U16(data, 6) == |rs|
    && Sits(data, 12, EncodeQuestions(qs)) && Sits(data, 12 + |EncodeQuestions(qs)|, EncodeRecords(rs))
  }

  lemma PartsParse(data: seq<Byte>, id: int, flags: int, qs: seq<Question>, rs: seq<Record>)
    requires forall i :: 0 <= i < |qs| ==> GoodQuestion(qs[i])
    requires forall i :: 0 <= i < |rs| ==> GoodRecord(rs[i])
    requires HasParts(data, id, flags, qs, rs)
    ensures ParseSpec(data, id) == if flags % 16 == 3 then NoRecord else FirstAddress(rs)
  {
    hide U16, Sits, EncodeQuestions, EncodeRecords, GoodQuestion, GoodRecord, FirstAddress;
    SkipsQuestions(data, 12, qs);
    ScansAnswers(data, 12 + |EncodeQuestions(qs)|, rs);
    ParseOf(data, id, flags, |qs|, |rs|, 12 + |EncodeQuestions(qs)|);
    hide *;
  }

  lemma GoodParts(m: Message)
    requires Good(m)
    ensures forall i :: 0 <= i < |m.questions| ==> GoodQuestion(m.questions[i])
    ensures forall i :: 0 <= i < |m.answers| ==> GoodRecord(m.answers[i])
  {
  }

  /** The parse in terms of a reply's header fields. */
  lemma ParseOf(data: seq<Byte>, id: int, flags: int, qd: nat, an: nat, answers: nat)
    requires |data| >= 12 && U16(data, 0) == id && U16(data, 2) == flags && U16(data, 4) == qd && U16(data, 6) == an
    ensures flags % 16 == 3 ==> ParseSpec(data, id) == NoRecord
    ensures flags % 16 != 3 && SkipQuestionsSpec(data, 12, qd) == Some(answers) ==>
              ParseSpec(data, id) == ScanAnswersSpec(data, answers, an)
    ensures flags % 16 != 3 && SkipQuestionsSpec(data, 12, qd) == None ==> ParseSpec(data, id) == ParseError
  {
    hide U16, SkipQuestionsSpec, ScanAnswersSpec;
  }

  /** Where a message's parts sit in its encoding. */
  lemma MessageSits(m: Message)
    requires Good(m)
    ensures var data, qs := Encode(m), EncodeQuestions(m.questions);
            Sits(data, 0, Header(m)) && Sits(data, 12, qs) && Sits(data, 12 + |qs|, EncodeRecords(m.answers))
  {
    var data := Encode(m);
    assert |Header(m)| == 12;
    hide Header, EncodeQuestions, EncodeRecords, U16Bytes;
    var qs, rs := EncodeQuestions(m.questions), EncodeRecords(m.answers);
    assert Sits(data, 0, Header(m) + (qs + (rs + m.rest)));
    hide Sits, Encode;
    SitsSplit(data, 0, Header(m), qs + (rs + m.rest));
    SitsSplit(data, 12, qs, rs + m.rest);
    SitsSplit(data, 12 + |qs|, rs, m.rest);
  }

  // ---------------------------------------------------------------- truncated replies

  /** A name cut short ends past the cut or nowhere. */
  lemma {:induction false} CutName(data: seq<Byte>, at: nat, n: Name, cut: nat)
    requires GoodName(n) && Sits(data, at, EncodeName(n)) && cut <= |data|
    ensures var end, skipped := at + |EncodeName(n)|, SkipNameSpec(data[..cut], at);
            if end <= cut then skipped == Some(end) else skipped.None? || skipped.value > cut
    decreases |n.labels|
  {
    if at < cut {
      assert data[..cut][at] == data[at] == data[at..at + |EncodeName(n)|][0];
      if n.labels != [] {
        var head, rest := [|n.labels[0]|] + n.labels[0], EncodeName(n.(labels := n.labels[1..]));
        SitsSplit(data, at, head, rest);
        CutName(data, at + |head|, n.(labels := n.labels[1..]), cut);
      }
    }
  }

  lemma {:induction false} CutQuestions(data: seq<Byte>, at: nat, qs: seq<Question>, cut: nat)
    requires forall i :: 0 <= i < |qs| ==> GoodQuestion(qs[i])
    requires Sits(data, at, EncodeQuestions(qs)) && cut <= |data|
    ensures var end, skipped := at + |EncodeQuestions(qs)|, SkipQuestionsSpec(data[..cut], at, |qs|);
            if end <= cut then skipped == Some(end) else skipped.None? || skipped.value > cut
    decreases |qs|
  {
    hide *;
    SkipQuestionsIs(data[..cut], at, |qs|);
    QuestionsAre(qs);
    if qs != [] {
      SitsSplit(data, at, EncodeQuestion(qs[0]), EncodeQuestions(qs[1..]));
      CutQuestion(data, at, qs[0], cut);
      var next, name := at + |EncodeQuestion(qs[0])|, SkipNameSpec(data[..cut], at);
      if name.Some? && name.value + 4 == next {
        CutQuestions(data, next, qs[1..], cut);
      } else if name.Some? {
        PastTheEnd(data[..cut], name.value + 4, |qs| - 1);
      }
    }
  }

  lemma CutQuestion(data: seq<Byte>, at: nat, q: Question, cut: nat)
    requires GoodQuestion(q) && Sits(data, at, EncodeQuestion(q)) && cut <= |data|
    ensures var end, name := at + |EncodeQuestion(q)|, SkipNameSpec(data[..cut], at);
            if end <= cut then name == Some(end - 4)
            else name.None? || name.value + 4 == end || name.value + 4 > cut
  {
    SitsSplit(data, at, EncodeName(q.name), U16Bytes(q.qtype) + U16Bytes(q.qclass));
    CutName(data, at, q.name, cut);
    hide Sits, EncodeName, SkipNameSpec;
  }

  lemma {:induction false} PastTheEnd(data: seq<Byte>, offset: nat, n: nat)
    requires offset > |data|
    ensures SkipQuestionsSpec(data, offset, n).None? || SkipQuestionsSpec(data, offset, n).value > |data|
  {
  }

  /** Cut before the end of the last record of `rs`, with no address before that. */
  lemma {:induction false} CutAnswers(data: seq<Byte>, at: nat, rs: seq<Record>, more: nat, cut: nat)
    requires rs != [] && forall i :: 0 <= i < |rs| ==> GoodRecord(rs[i])
    requires forall i :: 0 <= i < |rs| - 1 ==> !(rs[i].rtype == 1 && |rs[i].rdata| == 4)
    requires Sits(data, at, EncodeRecords(rs)) && cut < at + |EncodeRecords(rs)|
    ensures ScanAnswersSpec(data[..cut], at, |rs| + more) == ParseError
    decreases |rs|
  {
    hide Sits, EncodeRecord, EncodeName, SkipNameSpec, U16, GoodRecord;
    SitsSplit(data, at, EncodeRecord(rs[0]), EncodeRecords(rs[1..]));
    SitsEnds(data, at, EncodeRecord(rs[0]));
    CutRecord(data, at, rs[0], cut);
    var next := at + |EncodeRecord(rs[0])|;
    assert rs[1..] == [] ==> EncodeRecords(rs[1..]) == [];
    if next <= cut {
      CutAnswers(data, next, rs[1..], more, cut);
    }
  }

  lemma CutU16(data: seq<Byte>, at: nat, cut: nat)
    requires at + 2 <= cut <= |data|
    ensures U16(data[..cut], at) == U16(data, at)
  {
  }

  /** What the scan sees of a record in a reply cut short. */
  lemma CutRecord(data: seq<Byte>, at: nat, r: Record, cut: nat)
    requires GoodRecord(r) && Sits(data, at, EncodeRecord(r)) && cut <= |data|
    ensures var short, name, end := data[..cut], SkipNameSpec(data[..cut], at), at + |EncodeRecord(r)|;
            if end <= cut then
              && name.Some? && name.value + 10 + |r.rdata| == end
              && U16(short, name.value) == r.rtype && U16(short, name.value + 8) == |r.rdata|
            else
              || name.None? || name.value + 10 > cut
              || (name.value + 10 + |r.rdata| > cut && U16(short, name.value + 8) == |r.rdata|)
  {
    hide U16;
    RecordSits(data, at, r);
    assert |EncodeRecord(r)| == |EncodeName(r.name)| + 10 + |r.rdata|;
    SitsSplit(data, at, EncodeName(r.name), RecordHead(r) + r.rdata);
    CutName(data, at, r.name, cut);
    hide *;
    var body := at + |EncodeName(r.name)|;
    if body + 10 <= cut {
      CutU16(data, body, cut);
      CutU16(data, body + 8, cut);
    }
  }

  lemma PrefixSits(data: seq<Byte>, at: nat, rs: seq<Record>, k: nat)
    requires k <= |rs| && (forall i :: 0 <= i < |rs| ==> GoodRecord(rs[i])) && Sits(data, at, EncodeRecords(rs))
    ensures Sits(data, at, EncodeRecords(rs[..k]))
  {
    hide *;
    RecordsSplit(rs, k);
    FirstSits(data, at, EncodeRecords(rs), EncodeRecords(rs[..k]), EncodeRecords(rs[k..]));
  }

  lemma FirstSits(data: seq<Byte>, at: nat, all: seq<Byte>, a: seq<Byte>, b: seq<Byte>)
    requires all == a + b && Sits(data, at, all)
    ensures Sits(data, at, a)
  {
    SitsSplit(data, at, a, b);
  }

  lemma {:induction false} RecordsSplit(rs: seq<Record>, k: nat)
    requires k <= |rs| && forall i :: 0 <= i < |rs| ==> GoodRecord(rs[i])
    ensures EncodeRecords(rs) == EncodeRecords(rs[..k]) + EncodeRecords(rs[k..])
    decreases k
  {
    if k > 0 {
      RecordsSplit(rs[1..], k - 1);
      assert rs[1..][..k - 1] == rs[..k][1..] && rs[1..][k - 1..] == rs[k..];
      Associates(EncodeRecord(rs[0]), EncodeRecords(rs[..k][1..]), EncodeRecords(rs[k..]));
    } else {
      assert rs[..0] == [] && rs[0..] == rs;
    }
  }

  lemma Associates(a: seq<Byte>, b: seq<Byte>, c: seq<Byte>)
    ensures a + (b + c) == (a + b) + c
  {
  }

  /** A reply cut anywhere before the end of a record with no address in front of it is an error, unless
      the rcode already says that the name does not exist. */
  lemma CutReplyIsAnError(m: Message, k: nat, cut: nat)
    requires Good(m) && m.flags % 16 != 3 && 0 < k <= |m.answers|
    requires forall i :: 0 <= i < k - 1 ==> !(m.answers[i].rtype == 1 && |m.answers[i].rdata| == 4)
    requires cut < 12 + |EncodeQuestions(m.questions)| + |EncodeRecords(m.answers[..k])|
    ensures cut <= |Encode(m)| && ParseSpec(Encode(m)[..cut], m.id) == ParseError
  {
    var data := Encode(m);
    MessageSits(m);
    GoodParts(m);
    hide *;
    HeaderFields(data, m);
    CutParts(data, m.id, m.flags, m.questions, m.answers, k, cut);
  }

  lemma CutParts(data: seq<Byte>, id: int, flags: int, qs: seq<Question>, rs: seq<Record>, k: nat, cut: nat)
    requires forall i :: 0 <= i < |qs| ==> GoodQuestion(qs[i])
    requires forall i :: 0 <= i < |rs| ==> GoodRecord(rs[i])
    requires HasParts(data, id, flags, qs, rs) && flags % 16 != 3 && 0 < k <= |rs|
    requires forall i :: 0 <= i < k - 1 ==> !(rs[i].rtype == 1 && |rs[i].rdata| == 4)
    requires cut < 12 + |EncodeQuestions(qs)| + |EncodeRecords(rs[..k])|
    ensures cut <= |data| && ParseSpec(data[..cut], id) == ParseError
  {
    hide U16, Sits, EncodeQuestions, EncodeRecords, GoodQuestion, GoodRecord, ScanAnswersSpec, SkipQuestionsSpec;
    var answers := 12 + |EncodeQuestions(qs)|;
    PrefixSits(data, answers, rs, k);
    SitsEnds(data, answers, EncodeRecords(rs[..k]));
    if cut >= 12 {
      var short := data[..cut];
      CutHeader(data, cut);
      CutQuestions(data, 12, qs, cut);
      NothingToScan(short, rs);
      var skipped := SkipQuestionsSpec(short, 12, |qs|);
      hide *;
      if answers <= cut { CutAnswers(data, answers, rs[..k], |rs| - k, cut); }
      ParseOf(short, id, flags, |qs|, |rs|, if skipped.Some? then skipped.value else 0);
    }
  }

  lemma CutHeader(data: seq<Byte>, cut: nat)
    requires 12 <= cut <= |data|
    ensures var short := data[..cut];
            && U16(short, 0) == U16(data, 0) && U16(short, 2) == U16(data, 2)
            && U16(short, 4) == U16(data, 4) && U16(short, 6) == U16(data, 6)
  {
  }

  lemma SitsEnds(data: seq<Byte>, at: nat, part: seq<Byte>)
    requires Sits(data, at, part)
    ensures at + |part| <= |data|
  {
  }

  lemma NothingToScan(data: seq<Byte>, rs: seq<Record>)
    requires rs != []
    ensures forall at: nat :: at > |data| ==> ScanAnswersSpec(data, at, |rs|) == ParseError
  {
  }

  /** What the first address is, without the scan. */
  lemma {:induction false} FirstAddressIs(rs: seq<Record>)
    ensures FirstAddress(rs).NoRecord? <==> forall i :: 0 <= i < |rs| ==> !(rs[i].rtype == 1 && |rs[i].rdata| == 4)
    ensures FirstAddress(rs).Resolved? ==>
              exists i :: 0 <= i < |rs| && rs[i].rtype == 1 && |rs[i].rdata| == 4
                  && rs[i].rdata == FirstAddress(rs).address
                && forall j :: 0 <= j < i ==> !(rs[j].rtype == 1 && |rs[j].rdata| == 4)
    ensures !FirstAddress(rs).ParseError?
    decreases |rs|
  {
    if rs != [] && !(rs[0].rtype == 1 && |rs[0].rdata| == 4) {
      FirstAddressIs(rs[1..]);
      assert forall i :: 0 <= i < |rs| - 1 ==> rs[1..][i] == rs[i + 1];
      if FirstAddress(rs[1..]).Resolved? {
        var i :| 0 <= i < |rs[1..]| && rs[1..][i].rtype == 1 && |rs[1..][i].rdata| == 4
                 && rs[1..][i].rdata == FirstAddress(rs[1..]).address
                 && forall j :: 0 <= j < i ==> !(rs[1..][j].rtype == 1 && |rs[1..][j].rdata| == 4);
        forall j | 0 <= j < i + 1 ensures !(rs[j].rtype == 1 && |rs[j].rdata| == 4) {
          if j > 0 { assert rs[j] == rs[1..][j - 1]; }
        }
        assert rs[i + 1] == rs[1..][i];
      }
    }
  }
}
