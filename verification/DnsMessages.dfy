/** Questions and responses (internal/dns/message.go; sections 4.1.1 to 4.1.3 of RFC 1035). */
module DnsMessages {
  import opened Common
  import opened DnsNames

  const HEADER_LEN := 12
  const MAX_UDP_RESPONSE := 512

  datatype Question = Question(name: Text, qtype: nat, qclass: nat, end: nat)

  function Be16(hi: Byte, lo: Byte): nat { hi * 256 + lo }

  function ParseQuestion(msg: Text): Option<Question> {
    if |msg| < HEADER_LEN || Be16(msg[4], msg[5]) < 1 then None
    else
      var d := Decode(msg, HEADER_LEN, None, 0, 0, []);
      if d.None? then None else ParseTail(msg, d.value)
  }

  function ParseTail(msg: Text, n: Name): Option<Question> {
    var off := n.next;
    if off + 4 > |msg| then None
    else Some(Question(n.text, Be16(msg[off], msg[off + 1]), Be16(msg[off + 2], msg[off + 3]), off + 4))
  }

  method ParseQuestionOf(msg: Text) returns (r: Option<Question>)
    ensures r == ParseQuestion(msg)
  {
    if |msg| < HEADER_LEN {
      return None;
    }
    if Be16(msg[4], msg[5]) < 1 {
      return None;
    }
    var d := DecodeName(msg, HEADER_LEN);
    if d.None? || d.value.next + 4 > |msg| {
      return None;
    }
    var off := d.value.next;
    r := Some(Question(d.value.text, Be16(msg[off], msg[off + 1]), Be16(msg[off + 2], msg[off + 3]), off + 4));
  }

  function Concat(parts: seq<Text>): Text {
    if parts == [] then [] else parts[0] + Concat(parts[1..])
  }

  /** The third header octet: QR, the query's opcode and RD echoed, AA if authoritative. */
  function Flags(b: Byte, aa: bool): Byte { 128 + b / 8 % 16 * 8 + (if aa then 4 else 0) + b % 2 }

  function Header(req: Text, rcode: Byte, aa: bool, ancount: Byte): (r: Text)
    requires |req| >= HEADER_LEN
    ensures |r| == HEADER_LEN
  {
    [req[0], req[1], Flags(req[2], aa), 128 + rcode % 16, 0, 1, 0, ancount, 0, 0, 0, 0]
  }

  /** A response is the whole answer when it fits, and the bare truncated question when not. */
  function Respond(req: Text, q: Question, rcode: Byte, aa: bool, answers: seq<Text>): Text
    requires HEADER_LEN <= q.end <= |req|
  {
    var full := Header(req, rcode, aa, |answers| % 256) + req[HEADER_LEN..q.end] + Concat(answers);
    if |full| <= MAX_UDP_RESPONSE then full
    else full[..q.end][2 := full[2] + 2][6 := 0][7 := 0]
  }

  method RespondTo(req: Text, q: Question, rcode: Byte, aa: bool, answers: seq<Text>) returns (resp: Text)
    requires HEADER_LEN <= q.end <= |req|
    ensures resp == Respond(req, q, rcode, aa, answers)
  {
    resp := [req[0], req[1]];
    var flags1: int := 128 + req[2] / 8 % 16 * 8 + req[2] % 2;
    if aa {
      flags1 := flags1 + 4;
    }
    assert flags1 == Flags(req[2], aa);
    resp := resp + [flags1, 128 + rcode % 16];
    resp := resp + [0, 1];
    resp := resp + [0, |answers| % 256];
    resp := resp + [0, 0, 0, 0];
    assert resp == Header(req, rcode, aa, |answers| % 256);
    resp := resp + req[HEADER_LEN..q.end];
    ghost var full := resp + Concat(answers);
    for i := 0 to |answers|
      invariant resp + Concat(answers[i..]) == full
      invariant |resp| >= q.end && resp[2] == full[2] < 254
    {
      assert answers[i..][0] == answers[i] && answers[i..][1..] == answers[i + 1..];
      resp := resp + answers[i];
      assert resp + Concat(answers[i + 1..]) == full;
    }
    assert answers[|answers|..] == [];
    assert resp == full;
    if |resp| > MAX_UDP_RESPONSE {
      resp := resp[..HEADER_LEN + (q.end - HEADER_LEN)];
      resp := resp[2 := resp[2] + 2];
      resp := resp[6 := 0][7 := 0];
    }
  }

  function Ttl(ttl: nat): (r: Text)
    requires ttl < 0x1_0000_0000
    ensures |r| == 4
  {
    [ttl / 0x100_0000, ttl / 0x1_0000 % 256, ttl / 256 % 256, ttl % 256]
  }

  /** The owner of every record is a pointer to offset 12, where the question is echoed. */
  const OWNER: Text := [192, 12]

  function RrA(ip: Text, ttl: nat): Text
    requires |ip| == 4 && ttl < 0x1_0000_0000
  {
    OWNER + [0, 1, 0, 1] + Ttl(ttl) + [0, 4] + ip
  }

  function RrPtr(target: Text, ttl: nat): Text
    requires ttl < 0x1_0000_0000
  {
    var rdata := Encode(target);
    OWNER + [0, 12, 0, 1] + Ttl(ttl) + [|rdata| / 256 % 256, |rdata| % 256] + rdata
  }

  // ---- What a response is worth ----

  /** A parsed question ends inside the query, at most 273 octets in. */
  lemma ParsedBounds(msg: Text)
    ensures var r := ParseQuestion(msg);
            r.Some? ==> HEADER_LEN + 5 <= r.value.end <= |msg| && r.value.end <= HEADER_LEN + 261
                        && |r.value.name| <= NAME_MAX
  {
    hide Decode;
    if |msg| >= HEADER_LEN {
      DecodeBounds(msg, HEADER_LEN, None, 0, 0, []);
    }
  }

  /** Which messages parse. */
  lemma ParseExactly(msg: Text)
    ensures ParseQuestion(msg).Some? <==>
              && |msg| >= 12 && BigEndian(msg[4..6]) >= 1
              && Decode(msg, 12, None, 0, 0, []).Some? && Decode(msg, 12, None, 0, 0, []).value.next + 4 <= |msg|
  {
    hide Decode, BigEndian;
    if |msg| >= 12 {
      BigEndianOfTwo(msg[4], msg[5]);
      assert msg[4..6] == [msg[4], msg[5]];
    }
  }

  /** And to what: type and class are the two words after the name. */
  lemma ParsedWords(msg: Text)
    requires ParseQuestion(msg).Some?
    ensures Decode(msg, 12, None, 0, 0, []).Some?
    ensures var q, n := ParseQuestion(msg).value, Decode(msg, 12, None, 0, 0, []).value;
            && q.name == n.text && q.end == n.next + 4 <= |msg|
            && q.qtype == BigEndian(msg[n.next..n.next + 2]) && q.qclass == BigEndian(msg[n.next + 2..n.next + 4])
  {
    hide Decode, BigEndian;
    var o := Decode(msg, 12, None, 0, 0, []).value.next;
    BigEndianOfTwo(msg[o], msg[o + 1]);
    BigEndianOfTwo(msg[o + 2], msg[o + 3]);
    assert msg[o..o + 2] == [msg[o], msg[o + 1]] && msg[o + 2..o + 4] == [msg[o + 2], msg[o + 3]];
  }

  /** Every question for a well-formed name is read as it was asked. */
  lemma QuestionParses(msg: Text, name: Text, t: nat, c: nat)
    requires WellFormed(name) && t < 65536 && c < 65536
    requires |msg| >= 12 && BigEndian(msg[4..6]) >= 1
    requires At(msg, 12, Encode(name) + [t / 256, t % 256, c / 256, c % 256])
    ensures ParseQuestion(msg) == Some(Question(name, t, c, 12 + |Encode(name)| + 4))
  {
    hide Decode, Encode, WellFormed, BigEndian, ParseQuestion;
    var o := 12 + |Encode(name)|;
    AtParts(msg, 12, Encode(name), [t / 256, t % 256, c / 256, c % 256]);
    AtParts(msg, o, [t / 256, t % 256], [c / 256, c % 256]);
    assert [t / 256, t % 256] + [c / 256, c % 256] == [t / 256, t % 256, c / 256, c % 256];
    RoundTripExactly(msg, 12, name);
    ParseExactly(msg);
    ParsedWords(msg);
    BigEndianOfTwo(t / 256, t % 256);
    BigEndianOfTwo(c / 256, c % 256);
  }

  /** Every response to a parsed question fits in 512 octets; it carries all its answers
      and no TC bit, or no answer and the TC bit, and in both cases the question verbatim. */
  lemma ResponseFits(req: Text, q: Question, rcode: Byte, aa: bool, answers: seq<Text>)
    requires ParseQuestion(req) == Some(q)
    ensures HEADER_LEN <= q.end <= |req|
    ensures var resp := Respond(req, q, rcode, aa, answers);
            && q.end <= |resp| <= 512 && resp[HEADER_LEN..q.end] == req[HEADER_LEN..q.end]
            && resp[4] == 0 && resp[5] == 1
            && (resp[2] / 2 % 2 == 0 <==> q.end + |Concat(answers)| <= 512)
            && (resp[2] / 2 % 2 == 0 ==> resp[q.end..] == Concat(answers) && resp[7] == |answers| % 256)
            && (resp[2] / 2 % 2 == 1 ==> |resp| == q.end && resp[6] == 0 && resp[7] == 0)
  {
    hide ParseQuestion;
    ParsedBounds(req);
    FlagsTc(req[2], aa);
    hide Flags, Concat;
  }

  /** The header of a response, octet by octet: the query's id; QR set, the query's opcode, AA
      as asked, TC as the answers fit, the query's RD; RA set and the return code; one question,
      the answers that are kept, and nothing in the other sections. */
  lemma ResponseHeader(req: Text, q: Question, rcode: Byte, aa: bool, answers: seq<Text>)
    requires ParseQuestion(req) == Some(q)
    ensures HEADER_LEN <= q.end <= |req|
    ensures var resp, fits := Respond(req, q, rcode, aa, answers), q.end + |Concat(answers)| <= 512;
            && |resp| >= 12 && resp[0] == req[0] && resp[1] == req[1]
            && resp[2] / 128 == 1 && resp[2] / 8 % 16 == req[2] / 8 % 16 && resp[2] % 2 == req[2] % 2
            && (resp[2] / 4 % 2 == 1 <==> aa) && (resp[2] / 2 % 2 == 1 <==> !fits)
            && resp[3] / 128 == 1 && resp[3] / 16 % 8 == 0 && resp[3] % 16 == rcode % 16
            && resp[4] == 0 && resp[5] == 1 && resp[6] == 0 && resp[7] == (if fits then |answers| % 256 else 0)
            && resp[8] == 0 && resp[9] == 0 && resp[10] == 0 && resp[11] == 0
  {
    hide ParseQuestion, Concat, Flags, Respond;
    ParsedBounds(req);
    FlagBits(req[2], aa);
    ResponseShape(req, q, rcode, aa, answers);
    BareHeader(req, q, rcode, aa);
  }

  lemma BareHeader(req: Text, q: Question, rcode: Byte, aa: bool)
    requires HEADER_LEN <= q.end <= |req|
    ensures BareResponse(req, q, rcode, aa)[..12]
            == [req[0], req[1], Flags(req[2], aa), 128 + rcode % 16, 0, 1, 0, 0, 0, 0, 0, 0]
  {
    hide Flags;
  }

  lemma FlagBits(b: Byte, aa: bool)
    ensures var f := Flags(b, aa);
            && f / 128 == 1 && f / 8 % 16 == b / 8 % 16 && f % 2 == b % 2 && (f / 4 % 2 == 1 <==> aa) && f / 2 % 2 == 0
    ensures var f := Flags(b, aa) + 2;
            f / 128 == 1 && f / 8 % 16 == b / 8 % 16 && f % 2 == b % 2 && (f / 4 % 2 == 1 <==> aa) && f / 2 % 2 == 1
  {
    var x := b / 8 % 16;
    assert Flags(b, aa) == 8 * (16 + x) + (if aa then 4 else 0) + b % 2;
  }

  /** An A record, octet by octet: the owner pointer to offset 12, type 1, class 1, the TTL, the
      four octets of the address. */
  lemma ARecord(ip: Text, ttl: nat)
    requires |ip| == 4 && ttl < 0x1_0000_0000
    ensures var rr := RrA(ip, ttl);
            && |rr| == 16 && rr[..6] == [192, 12, 0, 1, 0, 1] && BigEndian(rr[6..10]) == ttl
            && rr[10..12] == [0, 4] && rr[12..] == ip
  {
    TtlValue(ttl);
    hide Ttl, BigEndian;
    assert RrA(ip, ttl)[6..10] == Ttl(ttl);
  }

  lemma TtlValue(ttl: nat)
    requires ttl < 0x1_0000_0000
    ensures BigEndian(Ttl(ttl)) == ttl
  {
    var a, b := ttl / 0x1_0000, ttl % 0x1_0000;
    var r := Ttl(ttl);
    assert r == [a / 256, a % 256, b / 256, b % 256] by { TtlOctets(ttl); }
    BigEndianOfTwo(a / 256, a % 256);
    hide Ttl;
    assert r[..3] == [a / 256, a % 256, b / 256] && r[..3][..2] == [a / 256, a % 256];
    assert BigEndian(r[..3]) == 256 * BigEndian(r[..3][..2]) + b / 256;
    assert BigEndian(r) == 256 * BigEndian(r[..3]) + b % 256;
  }

  lemma TtlOctets(ttl: nat)
    requires ttl < 0x1_0000_0000
    ensures ttl / 0x100_0000 == ttl / 0x1_0000 / 256 < 256
    ensures ttl / 256 % 256 == ttl % 0x1_0000 / 256 && ttl % 256 == ttl % 0x1_0000 % 256
  {
  }

  /** A PTR record: type 12, class 1, the TTL, the length of its data, and the encoded target. */
  lemma PtrRecord(target: Text, ttl: nat)
    requires ttl < 0x1_0000_0000 && |Encode(target)| < 65536
    ensures var rr := RrPtr(target, ttl);
            && |rr| == 12 + |Encode(target)| && rr[..6] == [192, 12, 0, 12, 0, 1] && BigEndian(rr[6..10]) == ttl
            && BigEndian(rr[10..12]) == |Encode(target)| && rr[12..] == Encode(target)
  {
    hide Ttl, Encode, BigEndian, RrPtr;
    TtlValue(ttl);
    var n := |Encode(target)|;
    PtrParts(target, ttl);
    BigEndianOfTwo(n / 256, n % 256);
    var head: Text, length: Text := [192, 12, 0, 12, 0, 1], [n / 256, n % 256];
    FourParts(head, Ttl(ttl), length, Encode(target));
  }

  lemma PtrParts(target: Text, ttl: nat)
    requires ttl < 0x1_0000_0000 && |Encode(target)| < 65536
    ensures var n := |Encode(target)|;
            RrPtr(target, ttl) == [192, 12, 0, 12, 0, 1] + Ttl(ttl) + [n / 256, n % 256] + Encode(target)
  {
    hide Ttl, Encode;
    var head: Text := [192, 12, 0, 12, 0, 1];
    assert OWNER + [0, 12, 0, 1] == head;
  }

  lemma FourParts(a: Text, b: Text, c: Text, d: Text)
    ensures var r, m, n := a + b + c + d, |a| + |b|, |a| + |b| + |c|;
            && |r| == n + |d| && r[..|a|] == a && r[|a|..m] == b && r[m..n] == c && r[n..] == d
  {
  }

  lemma FlagsTc(b: Byte, aa: bool)
    ensures Flags(b, aa) / 2 % 2 == 0 && Flags(b, aa) < 254 && (Flags(b, aa) + 2) / 2 % 2 == 1
  {
    var x := b / 8 % 16;
    assert Flags(b, aa) == 8 * (16 + x) + (if aa then 4 else 0) + b % 2;
  }

  /** The question's name is read within the echoed octets alone, even after `jumps` jumps.
      Compression is allowed as long as it points into the question itself. */
  predicate SelfContained(req: Text, q: Question, jumps: nat) {
    Confined(req, HEADER_LEN, HEADER_LEN, q.end, jumps, 0)
  }

  /** Every uncompressed question is self-contained, with all jumps to spare. */
  lemma PlainIsSelfContained(req: Text, q: Question, jumps: nat)
    requires ParseQuestion(req) == Some(q) && Plain(req, HEADER_LEN)
    ensures SelfContained(req, q, jumps)
  {
    ParsedBounds(req);
    hide Decode, Plain, Confined;
    PlainIsConfined(req, HEADER_LEN, HEADER_LEN, q.end, jumps, 0, []);
  }

  lemma EchoAgrees(req: Text, q: Question, rcode: Byte, aa: bool, answers: seq<Text>)
    requires ParseQuestion(req) == Some(q)
    ensures HEADER_LEN + 5 <= q.end <= |req|
    ensures Agree(req, Respond(req, q, rcode, aa, answers), HEADER_LEN, q.end)
  {
    hide ParseQuestion, Respond;
    ParsedBounds(req);
    ResponseFits(req, q, rcode, aa, answers);
    var resp := Respond(req, q, rcode, aa, answers);
    forall i | HEADER_LEN <= i < q.end ensures req[i] == resp[i] {
      assert resp[i] == resp[HEADER_LEN..q.end][i - HEADER_LEN];
      assert req[i] == req[HEADER_LEN..q.end][i - HEADER_LEN];
    }
  }

  /** x has the query's question in place, and announces at least one. */
  ghost predicate Echoes(req: Text, q: Question, x: Text) {
    HEADER_LEN <= q.end && Agree(req, x, HEADER_LEN, q.end) && Be16(x[4], x[5]) >= 1
  }

  /** A question is self-contained if and only if every message that echoes it asks it again,
      whatever the rest of its header and whatever follows. */
  lemma SelfContainedExactly(req: Text, q: Question)
    requires ParseQuestion(req) == Some(q)
    ensures SelfContained(req, q, 0) <==> forall x :: Echoes(req, q, x) ==> ParseQuestion(x) == Some(q)
  {
    hide Decode, Confined;
    ParsedBounds(req);
    if SelfContained(req, q, 0) {
      forall x | Echoes(req, q, x) ensures ParseQuestion(x) == Some(q) {
        ConfinedDecodes(req, x, HEADER_LEN, HEADER_LEN, q.end, None, 0, None, 0, 0, []);
        assert forall i :: q.end - 4 <= i < q.end ==> req[i] == x[i];
      }
    } else {
      var x, p := UnconfinedCanFail(req, HEADER_LEN, HEADER_LEN, q.end, None, 0, 0, []);
      assert Echoes(req, q, x) && ParseQuestion(x) == None;
    }
  }

  lemma ResponseEchoes(req: Text, q: Question, rcode: Byte, aa: bool, answers: seq<Text>)
    requires ParseQuestion(req) == Some(q)
    ensures HEADER_LEN + 5 <= q.end <= |req|
    ensures Echoes(req, q, Respond(req, q, rcode, aa, answers))
  {
    hide ParseQuestion, Respond, Agree;
    EchoAgrees(req, q, rcode, aa, answers);
    ResponseFits(req, q, rcode, aa, answers);
  }

  /** The response to a self-contained question asks that same question again. */
  lemma ResponseReparses(req: Text, q: Question, rcode: Byte, aa: bool, answers: seq<Text>)
    requires ParseQuestion(req) == Some(q) && SelfContained(req, q, 0)
    ensures HEADER_LEN <= q.end <= |req|
    ensures ParseQuestion(Respond(req, q, rcode, aa, answers)) == Some(q)
  {
    hide ParseQuestion, Respond, SelfContained, Echoes;
    ResponseEchoes(req, q, rcode, aa, answers);
    SelfContainedExactly(req, q);
  }

  // ---- Exactly when the responses to one query reparse ----

  const ANCOUNT_LOW := 7

  /** The response without answers. */
  function BareResponse(req: Text, q: Question, rcode: Byte, aa: bool): Text
    requires HEADER_LEN <= q.end <= |req|
  {
    Header(req, rcode, aa, 0) + req[HEADER_LEN..q.end]
  }

  /** The response whose answers did not fit. */
  function TruncatedResponse(req: Text, q: Question, rcode: Byte, aa: bool): Text
    requires HEADER_LEN <= q.end <= |req|
  {
    BareResponse(req, q, rcode, aa)[2 := Flags(req[2], aa) + 2]
  }

  lemma ResponseShape(req: Text, q: Question, rcode: Byte, aa: bool, answers: seq<Text>)
    requires HEADER_LEN <= q.end <= |req|
    ensures var resp, bare := Respond(req, q, rcode, aa, answers), BareResponse(req, q, rcode, aa);
            if q.end + |Concat(answers)| <= MAX_UDP_RESPONSE
            then resp == bare[ANCOUNT_LOW := |answers| % 256] + Concat(answers)
            else resp == TruncatedResponse(req, q, rcode, aa)
  {
    hide Flags, Concat;
    FlagsTc(req[2], aa);
    var n := |answers| % 256;
    assert BareResponse(req, q, rcode, aa)[ANCOUNT_LOW := n] == Header(req, rcode, aa, n) + req[HEADER_LEN..q.end];
  }

  function EmptyAnswers(n: nat): (r: seq<Text>)
    ensures |r| == n && Concat(r) == []
  {
    if n == 0 then [] else [[]] + EmptyAnswers(n - 1)
  }

  /** 64 empty answers set the low octet of the answer count to 64 and change nothing else. */
  lemma SixtyFourAnswers(req: Text, q: Question, rcode: Byte, aa: bool)
    requires HEADER_LEN <= q.end <= |req| && q.end <= MAX_UDP_RESPONSE
    ensures Respond(req, q, rcode, aa, EmptyAnswers(64)) == BareResponse(req, q, rcode, aa)[ANCOUNT_LOW := 64]
  {
    hide Respond, BareResponse, EmptyAnswers;
    ResponseShape(req, q, rcode, aa, EmptyAnswers(64));
  }

  /** A long answer truncates. */
  lemma LongAnswer(req: Text, q: Question, rcode: Byte, aa: bool)
    requires HEADER_LEN <= q.end <= |req|
    ensures Respond(req, q, rcode, aa, [seq(MAX_UDP_RESPONSE, _ => 0)]) == TruncatedResponse(req, q, rcode, aa)
  {
    hide Respond, TruncatedResponse;
    var long: Text := seq(MAX_UDP_RESPONSE, _ => 0);
    assert Concat([long]) == long + Concat([]);
    ResponseShape(req, q, rcode, aa, [long]);
  }

  /** The two responses that do not depend on the answers ask the question, and the first of
      them without looking at the answer count. */
  predicate AsksAgain(req: Text, q: Question, rcode: Byte, aa: bool)
    requires HEADER_LEN <= q.end <= |req|
  {
    && ParseQuestion(BareResponse(req, q, rcode, aa)) == Some(q)
    && ParseQuestion(TruncatedResponse(req, q, rcode, aa)) == Some(q)
    && !Reads(BareResponse(req, q, rcode, aa), HEADER_LEN, 0, 0, ANCOUNT_LOW)
  }

  lemma AnswersDoNotMatter(req: Text, q: Question, rcode: Byte, aa: bool, answers: seq<Text>)
    requires ParseQuestion(req) == Some(q) && HEADER_LEN + 5 <= q.end <= |req| && AsksAgain(req, q, rcode, aa)
    ensures ParseQuestion(Respond(req, q, rcode, aa, answers)) == Some(q)
  {
    hide Decode, Reads, Concat, Flags, Respond;
    ResponseShape(req, q, rcode, aa, answers);
    if q.end + |Concat(answers)| <= MAX_UDP_RESPONSE {
      var bare, resp := BareResponse(req, q, rcode, aa), Respond(req, q, rcode, aa, answers);
      assert AgreeBut(bare, resp, ANCOUNT_LOW);
      UnreadIsFree(bare, resp, HEADER_LEN, None, 0, 0, [], ANCOUNT_LOW);
    }
  }

  lemma CountMatters(req: Text, q: Question, rcode: Byte, aa: bool)
    requires HEADER_LEN <= q.end <= |req|
    requires Reads(BareResponse(req, q, rcode, aa), HEADER_LEN, 0, 0, ANCOUNT_LOW)
    requires ParseQuestion(BareResponse(req, q, rcode, aa)) == Some(q)
    ensures ParseQuestion(BareResponse(req, q, rcode, aa)[ANCOUNT_LOW := 64]) != Some(q)
  {
    hide Decode, Reads, Flags;
    ReadMatters(BareResponse(req, q, rcode, aa), HEADER_LEN, None, 0, 0, [], ANCOUNT_LOW);
  }

  /** Every response to a query, whatever its answers, asks the question again if and only if
      the two that do not depend on the answers do and the answer count is not read. */
  lemma ReparsesExactly(req: Text, q: Question, rcode: Byte, aa: bool)
    requires ParseQuestion(req) == Some(q)
    ensures HEADER_LEN <= q.end <= |req|
    ensures (forall answers :: ParseQuestion(Respond(req, q, rcode, aa, answers)) == Some(q))
            <==> AsksAgain(req, q, rcode, aa)
  {
    hide ParseQuestion, Respond, BareResponse, TruncatedResponse, Reads;
    ParsedBounds(req);
    if AsksAgain(req, q, rcode, aa) {
      forall answers ensures ParseQuestion(Respond(req, q, rcode, aa, answers)) == Some(q) {
        AnswersDoNotMatter(req, q, rcode, aa, answers);
      }
    } else {
      BareIsAResponse(req, q, rcode, aa);
      LongAnswer(req, q, rcode, aa);
      SixtyFourAnswers(req, q, rcode, aa);
      if ParseQuestion(BareResponse(req, q, rcode, aa)) == Some(q)
         && Reads(BareResponse(req, q, rcode, aa), HEADER_LEN, 0, 0, ANCOUNT_LOW) {
        CountMatters(req, q, rcode, aa);
      }
    }
  }

  lemma BareIsAResponse(req: Text, q: Question, rcode: Byte, aa: bool)
    requires HEADER_LEN <= q.end <= |req| && q.end <= MAX_UDP_RESPONSE
    ensures Respond(req, q, rcode, aa, []) == BareResponse(req, q, rcode, aa)
  {
    hide Flags;
  }

  /** Wherever in a response two octets are the owner pointer, the name read there is the
      question's, and reading resumes right after the pointer; the pointer itself takes one
      of the jumps. */
  lemma OwnerDecodes(req: Text, q: Question, rcode: Byte, aa: bool, answers: seq<Text>, off: nat)
    requires ParseQuestion(req) == Some(q) && SelfContained(req, q, 1)
    ensures HEADER_LEN <= q.end <= |req|
    ensures var resp := Respond(req, q, rcode, aa, answers);
            At(resp, off, OWNER) ==> Decode(resp, off, None, 0, 0, []) == Some(Name(q.name, off + 2))
  {
    hide Decode, Respond, Confined;
    EchoAgrees(req, q, rcode, aa, answers);
    var resp := Respond(req, q, rcode, aa, answers);
    if At(resp, off, OWNER) {
      assert resp[off] == resp[off..off + 2][0] && resp[off + 1] == resp[off..off + 2][1];
      DecodeUnfolds(resp, off, None, 0, 0, []);
      ConfinedDecodes(req, resp, HEADER_LEN, HEADER_LEN, q.end, Some(off + 2), 1, Some(off + 2), 1, 0, []);
      ConfinedDecodes(req, req, HEADER_LEN, HEADER_LEN, q.end, Some(off + 2), 1, None, 0, 0, []);
    }
  }

  /** Where the i-th answer starts. */
  function AnswerAt(q: Question, answers: seq<Text>, i: nat): nat
    requires i <= |answers|
  {
    q.end + |Concat(answers[..i])|
  }

  lemma {:induction false} ConcatAt(answers: seq<Text>, i: nat)
    requires i < |answers|
    ensures At(Concat(answers), |Concat(answers[..i])|, answers[i])
  {
    if i > 0 {
      ConcatAt(answers[1..], i - 1);
      assert answers[..i][1..] == answers[1..][..i - 1];
      var c, o := Concat(answers[1..]), |Concat(answers[1..][..i - 1])|;
      assert c[o..o + |answers[i]|] == Concat(answers)[|answers[0]| + o..|answers[0]| + o + |answers[i]|];
    } else {
      assert answers[..0] == [];
    }
  }

  /** A kept answer stands in the response as it was built. */
  lemma AnswerKept(req: Text, q: Question, rcode: Byte, aa: bool, answers: seq<Text>, i: nat)
    requires ParseQuestion(req) == Some(q) && i < |answers|
    requires q.end + |Concat(answers)| <= MAX_UDP_RESPONSE
    ensures HEADER_LEN <= q.end <= |req|
    ensures At(Respond(req, q, rcode, aa, answers), AnswerAt(q, answers, i), answers[i])
  {
    hide ParseQuestion, Respond, Concat;
    ResponseFits(req, q, rcode, aa, answers);
    ConcatAt(answers, i);
    SuffixAt(Respond(req, q, rcode, aa, answers), q.end, |Concat(answers[..i])|, answers[i]);
  }

  lemma SuffixAt(msg: Text, k: nat, o: nat, part: Text)
    requires k <= |msg| && At(msg[k..], o, part)
    ensures At(msg, k + o, part)
  {
    assert msg[k..][o..o + |part|] == msg[k + o..k + o + |part|];
  }

  /** Every kept A or PTR record belongs to the question's name, and a PTR record's data
      decodes to its target when that is a well-formed name. */
  lemma KeptRecords(req: Text, q: Question, rcode: Byte, aa: bool, answers: seq<Text>, i: nat, ip: Text, target: Text,
                    ttl: nat)
    requires ParseQuestion(req) == Some(q) && SelfContained(req, q, 1)
    requires i < |answers| && q.end + |Concat(answers)| <= MAX_UDP_RESPONSE
    requires |ip| == 4 && ttl < 0x1_0000_0000
    ensures HEADER_LEN <= q.end <= |req|
    ensures var resp, at := Respond(req, q, rcode, aa, answers), AnswerAt(q, answers, i);
            && (answers[i] == RrA(ip, ttl) || answers[i] == RrPtr(target, ttl)
                ==> Decode(resp, at, None, 0, 0, []) == Some(Name(q.name, at + 2)))
            && (answers[i] == RrA(ip, ttl) ==> At(resp, at + 12, ip))
            && (answers[i] == RrPtr(target, ttl) && WellFormed(target)
                ==> Decode(resp, at + 12, None, 0, 0, []) == Some(Name(target, at + 12 + |Encode(target)|)))
  {
    hide Decode, Respond, SelfContained, Encode, WellFormed, Concat, At;
    AnswerKept(req, q, rcode, aa, answers, i);
    hide ParseQuestion;
    var resp, at := Respond(req, q, rcode, aa, answers), AnswerAt(q, answers, i);
    var a := answers[i];
    if a == RrA(ip, ttl) || a == RrPtr(target, ttl) {
      assert a == OWNER + a[2..];
      assert At(resp, at, a);
      AtParts(resp, at, OWNER, a[2..]);
      OwnerDecodes(req, q, rcode, aa, answers, at);
    }
    RecordData(resp, at, ip, target, ttl);
  }

  lemma RecordData(resp: Text, at: nat, ip: Text, target: Text, ttl: nat)
    requires |ip| == 4 && ttl < 0x1_0000_0000
    ensures At(resp, at, RrA(ip, ttl)) ==> At(resp, at + 12, ip)
    ensures At(resp, at, RrPtr(target, ttl)) && WellFormed(target)
            ==> Decode(resp, at + 12, None, 0, 0, []) == Some(Name(target, at + 12 + |Encode(target)|))
  {
    hide Decode, Encode, WellFormed, Ttl, At;
    var a, p := RrA(ip, ttl), RrPtr(target, ttl);
    assert a == a[..12] + ip;
    AtParts(resp, at, a[..12], ip);
    assert p == p[..12] + Encode(target);
    AtParts(resp, at, p[..12], Encode(target));
    if At(resp, at, p) {
      RoundTripExactly(resp, at + 12, target);
    }
  }

  /** A query whose name is one pointer, to the octets 1, 97, 0 in its own header. */
  const COMPRESSED_QUERY: Text := [0, 0, 1, 97, 0, 1, 0, 0, 0, 0, 0, 0, 192, 2, 0, 1, 0, 1]

  lemma CompressedQueryParses()
    ensures ParseQuestion(COMPRESSED_QUERY) == Some(Question([97], 1, 1, 18))
  {
    var req := COMPRESSED_QUERY;
    hide Decode, Dotted;
    DecodeUnfolds(req, 12, None, 0, 0, []);
    DecodeUnfolds(req, 2, Some(14), 1, 0, []);
    assert req[3..4] == [97];
    DottedFirst([97]);
    DecodeUnfolds(req, 4, Some(14), 1, 2, [97]);
  }

  lemma DottedFirst(l: Text)
    requires LowerCase(l)
    ensures Dotted([], l) == l
  {
    LowerFixed(l);
  }

  lemma CompressedResponse()
    ensures Respond(COMPRESSED_QUERY, Question([97], 1, 1, 18), 0, false, [])
            == [0, 0, 129, 128, 0, 1, 0, 0, 0, 0, 0, 0, 192, 2, 0, 1, 0, 1]
  {
    assert Flags(1, false) == 129;
    hide Flags;
    var req := COMPRESSED_QUERY;
    assert Header(req, 0, false, 0) == [0, 0, 129, 128, 0, 1, 0, 0, 0, 0, 0, 0];
    assert req[12..18] == [192, 2, 0, 1, 0, 1];
    assert Concat([]) == [];
    var full := Header(req, 0, false, 0) + req[12..18] + Concat([]);
    assert full == [0, 0, 129, 128, 0, 1, 0, 0, 0, 0, 0, 0, 192, 2, 0, 1, 0, 1];
    assert Respond(req, Question([97], 1, 1, 18), 0, false, []) == full;
  }

  /** Compression is what the echo cannot keep: this query points into its own header,
      which the response rewrites, and the response does not parse. */
  lemma CompressedQuestionNotEchoed()
    ensures ParseQuestion(COMPRESSED_QUERY) == Some(Question([97], 1, 1, 18))
    ensures ParseQuestion(Respond(COMPRESSED_QUERY, Question([97], 1, 1, 18), 0, false, [])) == None
  {
    hide Decode, Dotted, Respond;
    CompressedQueryParses();
    CompressedResponse();
    var resp: Text := [0, 0, 129, 128, 0, 1, 0, 0, 0, 0, 0, 0, 192, 2, 0, 1, 0, 1];
    assert Respond(COMPRESSED_QUERY, Question([97], 1, 1, 18), 0, false, []) == resp;
    assert |resp| == 18 && resp[12] == 192 && resp[13] == 2 && resp[2] == 129;
    DecodeUnfolds(resp, 12, None, 0, 0, []);
    DecodeUnfolds(resp, 2, Some(14), 1, 0, []);
    assert Decode(resp, 2, Some(14), 1, 0, []) == None;
    assert Decode(resp, 12, None, 0, 0, []) == None;
  }

  /** A query whose name is a pointer to the last header octets, zero in every message. */
  const LUCKY_QUERY: Text := [0, 0, 1, 0, 0, 1, 0, 0, 0, 0, 0, 0, 192, 8, 0, 1, 0, 1]

  const LUCKY_QUESTION := Question([], 1, 1, 18)

  predicate PointsAtZero(msg: Text) {
    |msg| >= 18 && Be16(msg[4], msg[5]) >= 1 && msg[8] == 0 && msg[12] == 192 && msg[13] == 8
      && msg[14..18] == [0, 1, 0, 1]
  }

  lemma LuckyParses(msg: Text)
    requires PointsAtZero(msg)
    ensures ParseQuestion(msg) == Some(LUCKY_QUESTION)
  {
    hide Decode;
    DecodeUnfolds(msg, 12, None, 0, 0, []);
    DecodeUnfolds(msg, 8, Some(14), 1, 0, []);
    assert msg[14] == msg[14..18][0] && msg[15] == msg[14..18][1] && msg[16] == msg[14..18][2]
           && msg[17] == msg[14..18][3];
  }

  lemma LuckyResponse(rcode: Byte, aa: bool, answers: seq<Text>)
    requires ParseQuestion(LUCKY_QUERY) == Some(LUCKY_QUESTION)
    ensures PointsAtZero(Respond(LUCKY_QUERY, LUCKY_QUESTION, rcode, aa, answers))
  {
    hide ParseQuestion, Respond, Flags, Concat;
    var resp := Respond(LUCKY_QUERY, LUCKY_QUESTION, rcode, aa, answers);
    ResponseFits(LUCKY_QUERY, LUCKY_QUESTION, rcode, aa, answers);
    ResponseShape(LUCKY_QUERY, LUCKY_QUESTION, rcode, aa, answers);
    assert resp[12] == resp[12..18][0] && resp[13] == resp[12..18][1];
    assert resp[14..18] == resp[12..18][2..] == [0, 1, 0, 1];
  }

  /** A header can be lucky: the name of this query is read outside its question, and yet
      every response to it asks the same question. */
  lemma LuckyHeaderReparses(rcode: Byte, aa: bool, answers: seq<Text>)
    ensures ParseQuestion(LUCKY_QUERY) == Some(LUCKY_QUESTION) && !SelfContained(LUCKY_QUERY, LUCKY_QUESTION, 0)
    ensures ParseQuestion(Respond(LUCKY_QUERY, LUCKY_QUESTION, rcode, aa, answers)) == Some(LUCKY_QUESTION)
  {
    hide ParseQuestion, Respond;
    LuckyParses(LUCKY_QUERY);
    LuckyResponse(rcode, aa, answers);
    LuckyParses(Respond(LUCKY_QUERY, LUCKY_QUESTION, rcode, aa, answers));
  }
}
