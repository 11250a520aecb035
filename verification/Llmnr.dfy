/** The name responder's packets: parsing a question and building the reply
    that echoes it with one address record per host address. */
module Llmnr {
  import opened Wrappers
  import opened DnsName
  import opened DnsEncode

  const LLMNR_TTL := 30
  const MDNS_TTL := 120

  function U16(msg: Bytes, at: nat): int
    requires at + 1 < |msg|
  {
    msg[at] as int * 256 + msg[at + 1] as int
  }

  function HighByte(v: int): byte
    requires 0 <= v < 0x1_0000
  {
    (v / 256) as byte
  }

  function LowByte(v: int): byte
    requires 0 <= v < 0x1_0000
  {
    (v % 256) as byte
  }

  function Put16(v: int): (r: Bytes)
    requires 0 <= v < 0x1_0000
    ensures |r| == 2 && U16(r, 0) == v
  {
    [HighByte(v), LowByte(v)]
  }

  function Put32(v: int): (r: Bytes)
    requires 0 <= v < 0x1_0000_0000
    ensures |r| == 4
  {
    Put16(v / 0x1_0000) + Put16(v % 0x1_0000)
  }

  // ------------------------------------------------------------------ questions

  datatype Question = Question(id: int, name: Bytes, qtype: int)

  function ParseQuestion(msg: Bytes, lower: Lowering, steps: nat): Option<Question> {
    if |msg| < 12 || msg[2] >= 128 || U16(msg, 4) < 1 then None
    else
      var name := Read(msg, 12, lower, steps);
      if name.None? || name.value.end + 4 > |msg| then None
      else Some(Question(U16(msg, 0), name.value.text, U16(msg, name.value.end)))
  }

  /** The raw question section: name, type and class. */
  function ExtractQuestion(msg: Bytes, lower: Lowering, steps: nat): Option<Bytes> {
    if |msg| < 12 then None
    else
      var name := Read(msg, 12, lower, steps);
      if name.None? || name.value.end + 4 > |msg| || name.value.end + 4 < 12 then None
      else Some(msg[12..name.value.end + 4])
  }

  // -------------------------------------------------------------------- replies

  function Class(mdns: bool): int { if mdns then 0x8001 else 1 }

  function Ttl(mdns: bool): int { if mdns then MDNS_TTL else LLMNR_TTL }

  /** The fixed part of an address record. */
  function RecordHead(mdns: bool): (r: Bytes)
    ensures |r| == 10
  {
    Put16(1) + Put16(Class(mdns)) + Put32(Ttl(mdns)) + Put16(4)
  }

  function Record(name: Bytes, ip: Bytes, mdns: bool): Bytes {
    Encoded(name) + RecordHead(mdns) + ip
  }

  function Records(name: Bytes, ips: seq<Bytes>, mdns: bool): Bytes {
    if ips == [] then []
    else Records(name, ips[..|ips| - 1], mdns) + Record(name, ips[|ips| - 1], mdns)
  }

  function Echo(question: Option<Bytes>, mdns: bool): Bytes {
    if !mdns && question.Some? then question.value else []
  }

  function Header(id: int, questions: int, answers: int): (r: Bytes)
    requires 0 <= id < 0x1_0000 && 0 <= questions < 0x1_0000 && 0 <= answers < 0x1_0000
    ensures |r| == 12 && U16(r, 0) == id && r[2] == 0x84 && U16(r, 4) == questions && U16(r, 6) == answers
  {
    [HighByte(id), LowByte(id), 0x84, 0, HighByte(questions), LowByte(questions),
     HighByte(answers), LowByte(answers), 0, 0, 0, 0]
  }

  function AnswerPacket(name: Bytes, ips: seq<Bytes>, id: int, question: Option<Bytes>, mdns: bool): Bytes
    requires 0 <= id < 0x1_0000
  {
    Header(if mdns then 0 else id, if !mdns && question.Some? then 1 else 0, |ips| % 0x1_0000)
    + Echo(question, mdns) + Records(name, ips, mdns)
  }

  lemma PatchCount(id: int, questions: int, count: int, rest: Bytes)
    requires 0 <= id < 0x1_0000 && 0 <= questions < 0x1_0000 && 0 <= count < 0x1_0000
    ensures (Header(id, questions, 0) + rest)[6 := HighByte(count)][7 := LowByte(count)] == Header(id, questions, count) + rest
  {}

  method AppendRecords(front: Bytes, name: Bytes, ips: seq<Bytes>, mdns: bool) returns (msg: Bytes)
    ensures msg == front + Records(name, ips, mdns)
  {
    msg := front;
    for n := 0 to |ips|
      invariant msg == front + Records(name, ips[..n], mdns)
    {
      assert ips[..n + 1][..n] == ips[..n];
      ghost var was := msg;
      var enc := EncodeName(name);
      msg := msg + enc;
      msg := msg + RecordHead(mdns);
      msg := msg + ips[n];
      AssociateRecord(front, Records(name, ips[..n], mdns), enc, RecordHead(mdns), ips[n]);
    }
    assert ips[..|ips|] == ips;
  }

  lemma AssociateRecord(front: Bytes, before: Bytes, enc: Bytes, head: Bytes, ip: Bytes)
    ensures front + before + enc + head + ip == front + (before + (enc + head + ip))
  {}

  lemma PacketFromRest(name: Bytes, ips: seq<Bytes>, id: int, question: Option<Bytes>, mdns: bool, id': int, questions: int)
    requires 0 <= id < 0x1_0000 && id' == (if mdns then 0 else id)
    requires questions == if !mdns && question.Some? then 1 else 0
    ensures AnswerPacket(name, ips, id, question, mdns)
         == Header(id', questions, |ips| % 0x1_0000) + (Echo(question, mdns) + Records(name, ips, mdns))
  {}

  /** answerPacket: the answer count is patched in once all records are out. */
  method BuildAnswer(name: Bytes, ips: seq<Bytes>, id: int, question: Option<Bytes>, mdns: bool) returns (msg: Bytes)
    requires 0 <= id < 0x1_0000
    ensures msg == AnswerPacket(name, ips, id, question, mdns)
  {
    var id' := if mdns then 0 else id;
    var questions := if !mdns && question.Some? then 1 else 0;
    ghost var head, echo, records := Header(id', questions, 0), Echo(question, mdns), Records(name, ips, mdns);
    msg := AppendRecords(Header(id', questions, 0) + Echo(question, mdns), name, ips, mdns);
    assert (head + echo) + records == head + (echo + records);
    var count := |ips| % 0x1_0000;
    PatchCount(id', questions, count, echo + records);
    PacketFromRest(name, ips, id, question, mdns, id', questions);
    msg := msg[6 := HighByte(count)][7 := LowByte(count)];
  }

  const BEAM: Bytes := [98, 101, 97, 109]
  const B: Bytes := [98]

  function LlmnrResponse(pkt: Bytes, ips: seq<Bytes>, lower: Lowering, steps: nat): Option<Bytes> {
    var q := ParseQuestion(pkt, lower, steps);
    if q.None? || (q.value.name != BEAM && q.value.name != B) then None
    else
      var question := ExtractQuestion(pkt, lower, steps);
      if question.None? then None
      else if q.value.qtype == 1 || q.value.qtype == 255 then
        if |ips| > 0 then Some(AnswerPacket(q.value.name, ips, q.value.id, question, false)) else None
      else if q.value.qtype == 28 then Some(AnswerPacket(q.value.name, [], q.value.id, question, false))
      else None
  }

  /** The packet asks, in its own words, for one of the two names: long enough
      for a header, not a response, at least one question, a readable name and
      four bytes behind it. */
  ghost predicate Asks(pkt: Bytes, lower: Lowering, steps: nat, end: nat) {
    && |pkt| >= 12 && pkt[2] < 0x80 && (pkt[4] != 0 || pkt[5] != 0)
    && (Read(pkt, 12, lower, steps) == Some(Name([98, 101, 97, 109], end))
        || Read(pkt, 12, lower, steps) == Some(Name([98], end)))
    && end + 4 <= |pkt|
  }

  /** The type asked for. */
  predicate AsksType(pkt: Bytes, end: nat, qtype: byte)
    requires end + 4 <= |pkt|
  {
    pkt[end] == 0 && pkt[end + 1] == qtype
  }

  /** A reply is given exactly to such questions for an address, or for
      anything, when there is an address, and for a v6 address in any case. */
  lemma RepliesIff(pkt: Bytes, ips: seq<Bytes>, lower: Lowering, steps: nat)
    ensures LlmnrResponse(pkt, ips, lower, steps).Some? <==>
              exists end :: Asks(pkt, lower, steps, end) &&
                (((AsksType(pkt, end, 1) || AsksType(pkt, end, 255)) && ips != []) || AsksType(pkt, end, 28))
  {
    if |pkt| >= 12 && Read(pkt, 12, lower, steps).Some? {
      var name := Read(pkt, 12, lower, steps).value;
      EndsBehind(pkt, 12, lower, steps);
      assert U16(pkt, 4) < 1 <==> pkt[4] == 0 && pkt[5] == 0;
      if name.end + 4 <= |pkt| {
        var t := U16(pkt, name.end);
        assert t == 1 <==> AsksType(pkt, name.end, 1);
        assert t == 255 <==> AsksType(pkt, name.end, 255);
        assert t == 28 <==> AsksType(pkt, name.end, 28);
      }
    }
  }

  lemma {:induction false} EndsBehind(msg: Bytes, off: nat, lower: Lowering, steps: nat)
    ensures End(msg, off, steps) >= off
    decreases steps
  {
    if steps > 0 {
      match MoveAt(msg, off)
      case Label(_, next) => EndsBehind(msg, next, lower, steps - 1);
      case _ =>
    }
  }

  // ------------------------------------------------------ reading the reply back

  /** The name is spelled out in place, without pointers. */
  predicate Straight(msg: Bytes, off: nat, fuel: nat)
    decreases fuel
  {
    fuel > 0 &&
    match MoveAt(msg, off)
    case Root => true
    case Label(_, next) => Straight(msg, next, fuel - 1)
    case _ => false
  }

  lemma {:induction false} StraightBounds(msg: Bytes, off: nat, fuel: nat)
    requires Straight(msg, off, fuel)
    ensures off < End(msg, off, fuel) <= |msg|
    decreases fuel
  {
    match MoveAt(msg, off)
    case Root =>
    case Label(_, next) => StraightBounds(msg, next, fuel - 1);
  }

  /** A name without pointers depends only on its own bytes. */
  lemma {:induction false} ReadsTheSame(msg: Bytes, copy: Bytes, off: nat, fuel: nat)
    requires Straight(msg, off, fuel) && End(msg, off, fuel) <= |copy|
    requires forall x :: off <= x < End(msg, off, fuel) && x < |msg| ==> copy[x] == msg[x]
    ensures Labels(copy, off, fuel) == Labels(msg, off, fuel)
    ensures End(copy, off, fuel) == End(msg, off, fuel)
    decreases fuel
  {
    StraightBounds(msg, off, fuel);
    match MoveAt(msg, off)
    case Root =>
    case Label(word, next) =>
      StraightBounds(msg, next, fuel - 1);
      assert msg[off + 1..next] == copy[off + 1..next];
      ReadsTheSame(msg, copy, next, fuel - 1);
  }

  function Advance(base: nat, size: nat, k: nat): nat {
    if k == 0 then base else Advance(base, size, k - 1) + size
  }

  /** A well-formed address record for `ip` sits at `off`. */
  ghost predicate RecordAt(msg: Bytes, off: nat, name: Bytes, ip: Bytes, mdns: bool, lower: Lowering, steps: nat) {
    && Read(msg, off, lower, steps) == Some(Name(name, off + |Encoded(name)|))
    && LiesAt(msg, off + |Encoded(name)|, Fixed(mdns) + ip)
  }

  /** Type A, class IN, seconds to live, four bytes of data: 30 seconds in a
      reply, two minutes and the cache-flush bit in an announcement. */
  function Fixed(mdns: bool): Bytes {
    if mdns then [0, 1, 0x80, 1, 0, 0, 0, 120, 0, 4] else [0, 1, 0, 1, 0, 0, 0, 30, 0, 4]
  }

  lemma RecordHeadIs(mdns: bool)
    ensures RecordHead(mdns) == Fixed(mdns)
  {}

  lemma {:induction false} RecordsLieAt(msg: Bytes, base: nat, name: Bytes, ips: seq<Bytes>, mdns: bool, k: nat)
    requires LiesAt(msg, base, Records(name, ips, mdns)) && k < |ips|
    requires forall i :: 0 <= i < |ips| ==> |ips[i]| == 4
    ensures LiesAt(msg, Advance(base, |Encoded(name)| + 14, k), Record(name, ips[k], mdns))
    ensures |Records(name, ips, mdns)| == Advance(base, |Encoded(name)| + 14, |ips|) - base
  {
    var n := |ips| - 1;
    LiesAtSplit(msg, base, Records(name, ips[..n], mdns), Record(name, ips[n], mdns));
    if n == 0 {
      assert Records(name, ips[..0], mdns) == [];
    } else {
      RecordsLieAt(msg, base, name, ips[..n], mdns, if k < n then k else 0);
    }
  }

  lemma RecordReads(msg: Bytes, off: nat, name: Bytes, ip: Bytes, mdns: bool, lower: Lowering, steps: nat)
    requires LiesAt(msg, off, Record(name, ip, mdns))
    requires WellFormed(name, steps) && Fixes(lower, CutAll(Split(Trim(name))))
    ensures RecordAt(msg, off, name, ip, mdns, lower, steps)
  {
    RecordHeadIs(mdns);
    assert Record(name, ip, mdns) == Encoded(name) + (RecordHead(mdns) + ip);
    LiesAtSplit(msg, off, Encoded(name), RecordHead(mdns) + ip);
    RoundTripIff(msg, off, name, lower, steps);
  }

  lemma OwnNames(name: Bytes, steps: nat)
    requires name == BEAM || name == B
    ensures Split(name) == [name] && Trim(name) == name && CutAll([name]) == [name]
    ensures WellFormed(name, steps) <==> steps >= 2
  {
    SplitPlain(name);
  }

  lemma {:induction false} SplitPlain(name: Bytes)
    requires forall i :: 0 <= i < |name| ==> name[i] != DOT
    ensures Split(name) == [name]
  {
    if name != [] {
      SplitPlain(name[1..]);
      assert name == [name[0]] + name[1..];
    }
  }

  /** The header of a reply to `pkt`: same identifier, response and
      authoritative bits, one question and `count` answers. */
  predicate ReplyHeader(r: Bytes, pkt: Bytes, count: int) {
    && |r| >= 12 && |pkt| >= 12 && 0 <= count < 0x1_0000
    && r[..12] == [pkt[0], pkt[1], 0x84, 0, 0, 1, (count / 256) as byte, (count % 256) as byte, 0, 0, 0, 0]
  }

  /** From `base` to its end, the reply is one address record per answer. */
  ghost predicate RecordsFrom(r: Bytes, base: nat, name: Bytes, answers: seq<Bytes>, mdns: bool, lower: Lowering, steps: nat) {
    var size := |Encoded(name)| + 14;
    && (forall k :: 0 <= k < |answers| ==> RecordAt(r, Advance(base, size, k), name, answers[k], mdns, lower, steps))
    && |r| == Advance(base, size, |answers|)
  }

  /** A reply that reads back as the question `asked`, an answer count that is
      right below 65536 addresses, and one address record per address, in
      order, ending with the packet. */
  ghost predicate Answers(r: Bytes, pkt: Bytes, asked: Name, answers: seq<Bytes>, lower: Lowering, steps: nat) {
    var base := asked.end + 4;
    && 12 <= base <= |pkt|
    && ReplyHeader(r, pkt, |answers| % 0x1_0000)
    && Read(r, 12, lower, steps) == Some(asked)
    && LiesAt(r, 12, pkt[12..base])
    && RecordsFrom(r, base, asked.text, answers, false, lower, steps)
  }

  /** Every reply to a question spelled without compression is of that form. */
  lemma ReplyReadsBack(pkt: Bytes, ips: seq<Bytes>, lower: Lowering, steps: nat)
    requires steps >= 2 && lower(BEAM) == BEAM && lower(B) == B
    requires forall i :: 0 <= i < |ips| ==> |ips[i]| == 4
    requires LlmnrResponse(pkt, ips, lower, steps).Some? && Straight(pkt, 12, steps)
    ensures ParseQuestion(pkt, lower, steps).Some? && Read(pkt, 12, lower, steps).Some?
    ensures Answers(LlmnrResponse(pkt, ips, lower, steps).value, pkt, Read(pkt, 12, lower, steps).value,
                    if ParseQuestion(pkt, lower, steps).value.qtype == 28 then [] else ips, lower, steps)
  {
    var r := LlmnrResponse(pkt, ips, lower, steps).value;
    var q := ParseQuestion(pkt, lower, steps).value;
    var asked := Read(pkt, 12, lower, steps).value;
    var answers := if q.qtype == 28 then [] else ips;
    StraightBounds(pkt, 12, steps);
    PacketReadsBack(pkt, answers, q, asked, lower, steps, r);
  }

  lemma PacketReadsBack(pkt: Bytes, answers: seq<Bytes>, q: Question, asked: Name, lower: Lowering, steps: nat, r: Bytes)
    requires steps >= 2 && lower(BEAM) == BEAM && lower(B) == B
    requires forall i :: 0 <= i < |answers| ==> |answers[i]| == 4
    requires |pkt| >= 12 && Straight(pkt, 12, steps) && Read(pkt, 12, lower, steps) == Some(asked)
    requires 12 <= asked.end + 4 <= |pkt|
    requires q.id == U16(pkt, 0) && q.name == asked.text && (q.name == BEAM || q.name == B)
    requires r == AnswerPacket(q.name, answers, q.id, Some(pkt[12..asked.end + 4]), false)
    ensures Answers(r, pkt, asked, answers, lower, steps)
  {
    var base := asked.end + 4;
    var head, question, records := Header(q.id, 1, |answers| % 0x1_0000), pkt[12..base], Records(q.name, answers, false);
    assert r == head + question + records by { OnlyOneQuestion(q, answers, question); }
    ReplyShape(head, question, records, base, r);
    HeaderReads(head, r, pkt, q.id, |answers| % 0x1_0000);
    assert Read(r, 12, lower, steps) == Some(asked) by { ReplyQuestion(pkt, r, lower, steps); }
    NamesFixed(q.name, lower, steps);
    ReplyRecords(r, base, q.name, answers, false, lower, steps);
  }

  lemma OnlyOneQuestion(q: Question, answers: seq<Bytes>, question: Bytes)
    requires 0 <= q.id < 0x1_0000
    ensures AnswerPacket(q.name, answers, q.id, Some(question), false)
         == Header(q.id, 1, |answers| % 0x1_0000) + question + Records(q.name, answers, false)
  {}

  lemma HeaderReads(head: Bytes, r: Bytes, pkt: Bytes, id: int, count: int)
    requires 0 <= id < 0x1_0000 && 0 <= count < 0x1_0000 && head == Header(id, 1, count)
    requires |r| >= 12 && r[..12] == head && |pkt| >= 12 && id == U16(pkt, 0)
    ensures ReplyHeader(r, pkt, count)
  {
    forall i | 0 <= i < 12 ensures r[i] == head[i] {
      assert r[..12][i] == r[i];
    }
  }

  lemma NamesFixed(name: Bytes, lower: Lowering, steps: nat)
    requires steps >= 2 && (name == BEAM || name == B) && lower(name) == name
    ensures WellFormed(name, steps) && Fixes(lower, CutAll(Split(Trim(name))))
  {
    OwnNames(name, steps);
  }

  lemma ReplyShape(head: Bytes, question: Bytes, records: Bytes, base: nat, r: Bytes)
    requires |head| == 12 && |question| == base - 12 && r == head + question + records
    ensures |r| == base + |records| && r[..12] == head
    ensures LiesAt(r, 12, question) && LiesAt(r, base, records)
  {}

  lemma ReplyQuestion(pkt: Bytes, r: Bytes, lower: Lowering, steps: nat)
    requires Straight(pkt, 12, steps) && 12 <= End(pkt, 12, steps) + 4 <= |pkt|
    requires LiesAt(r, 12, pkt[12..End(pkt, 12, steps) + 4])
    ensures Read(r, 12, lower, steps) == Read(pkt, 12, lower, steps)
  {
    var end := End(pkt, 12, steps);
    StraightBounds(pkt, 12, steps);
    forall x | 12 <= x < end ensures r[x] == pkt[x] {
      assert r[12..12 + (end + 4 - 12)][x - 12] == pkt[12..end + 4][x - 12];
    }
    ReadsTheSame(pkt, r, 12, steps);
  }

  lemma ReplyRecords(r: Bytes, base: nat, name: Bytes, answers: seq<Bytes>, mdns: bool, lower: Lowering, steps: nat)
    requires LiesAt(r, base, Records(name, answers, mdns)) && |r| == base + |Records(name, answers, mdns)|
    requires forall i :: 0 <= i < |answers| ==> |answers[i]| == 4
    requires WellFormed(name, steps) && Fixes(lower, CutAll(Split(Trim(name))))
    ensures RecordsFrom(r, base, name, answers, mdns, lower, steps)
  {
    forall k | 0 <= k < |answers|
      ensures RecordAt(r, Advance(base, |Encoded(name)| + 14, k), name, answers[k], mdns, lower, steps)
    {
      RecordsLieAt(r, base, name, answers, mdns, k);
      RecordReads(r, Advance(base, |Encoded(name)| + 14, k), name, answers[k], mdns, lower, steps);
    }
    if answers != [] {
      RecordsLieAt(r, base, name, answers, mdns, 0);
    }
  }

  /** An announcement has no identifier and no question, and reads as one
      address record per address. */
  lemma AnnouncementReads(name: Bytes, ips: seq<Bytes>, id: int, question: Option<Bytes>, lower: Lowering, steps: nat)
    requires 0 <= id < 0x1_0000 && forall i :: 0 <= i < |ips| ==> |ips[i]| == 4
    requires WellFormed(name, steps) && Fixes(lower, CutAll(Split(Trim(name))))
    ensures var r, count := AnswerPacket(name, ips, id, question, true), |ips| % 0x1_0000;
            && |r| >= 12
            && r[..12] == [0, 0, 0x84, 0, 0, 0, (count / 256) as byte, (count % 256) as byte, 0, 0, 0, 0]
            && RecordsFrom(r, 12, name, ips, true, lower, steps)
  {
    var r, head, records := AnswerPacket(name, ips, id, question, true), Header(0, 0, |ips| % 0x1_0000), Records(name, ips, true);
    assert r == head + records;
    assert r[..12] == head;
    ReplyRecords(r, 12, name, ips, true, lower, steps);
  }
}
