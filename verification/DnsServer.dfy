/** The wildcard DNS responder of main/dns_server/dns_server.c (message format: section 4.1 of RFC 1035). */
module DnsServer {
  type Byte = b: int | 0 <= b < 256
  type Packet = seq<Byte>

  const HEADER_SIZE := 12
  const ANSWER_SIZE := 16
  const TTL_S := 30
  const MAX_LABEL := 63

  // Names as labels.

  ghost predicate IsLabel(text: Packet) { 1 <= |text| <= 63 }

  ghost predicate AreLabels(labels: seq<Packet>) {
    forall k :: 0 <= k < |labels| ==> IsLabel(labels[k])
  }

  /** Each label after its length, then the zero length of the root. */
  ghost function EncodeName(labels: seq<Packet>): (name: Packet)
    requires AreLabels(labels)
    ensures |name| >= 1
  {
    if labels == [] then [0] else [|labels[0]|] + labels[0] + EncodeName(labels[1..])
  }

  /** Position of the terminator of the name starting at `i`, if all its labels are short and end inside the packet. */
  function ScanName(q: Packet, i: nat): (end: int)
    requires i < |q|
    ensures end == -1 || (i <= end < |q| && q[end] == 0)
    decreases |q| - i
  {
    if q[i] == 0 then i
    else if q[i] > MAX_LABEL || i + q[i] + 1 >= |q| then -1
    else ScanName(q, i + q[i] + 1)
  }

  /** The scan accepts only encoded names. */
  lemma {:induction false} ScannedNameIsEncoded(q: Packet, i: nat) returns (labels: seq<Packet>)
    requires i < |q| && ScanName(q, i) != -1
    ensures AreLabels(labels) && q[i..ScanName(q, i) + 1] == EncodeName(labels)
    decreases |q| - i
  {
    var end := ScanName(q, i);
    if q[i] == 0 {
      labels := [];
    } else {
      var next := i + q[i] + 1;
      var rest := ScannedNameIsEncoded(q, next);
      labels := [q[i + 1..next]] + rest;
      assert labels[1..] == rest;
      assert q[i..end + 1] == [q[i]] + q[i + 1..next] + q[next..end + 1];
    }
  }

  /** The scan accepts every encoded name that lies inside the packet, and ends at its terminator. */
  lemma {:induction false} EncodedNameIsScanned(q: Packet, i: nat, labels: seq<Packet>)
    requires AreLabels(labels) && i + |EncodeName(labels)| <= |q|
        && q[i..i + |EncodeName(labels)|] == EncodeName(labels)
    ensures ScanName(q, i) == i + |EncodeName(labels)| - 1
    decreases |labels|
  {
    var name := EncodeName(labels);
    assert q[i] == q[i..i + |name|][0] == name[0];
    if labels != [] {
      var next := i + |labels[0]| + 1;
      var rest := EncodeName(labels[1..]);
      assert name == [|labels[0]|] + labels[0] + rest;
      assert q[next..next + |rest|] == q[i..i + |name|][|labels[0]| + 1..] == rest;
      EncodedNameIsScanned(q, next, labels[1..]);
    }
  }

  // Acceptance.

  predicate HasQueryHeader(q: Packet) {
    |q| >= HEADER_SIZE + 5 && q[2] < 128 && q[4] == 0 && q[5] == 1
  }

  /** End of the question if the query is answered in a buffer of `size` bytes, else 0. */
  function QuestionEnd(q: Packet, size: nat): nat {
    if !HasQueryHeader(q) || ScanName(q, HEADER_SIZE) == -1 then 0
    else
      var end := ScanName(q, HEADER_SIZE) + 5;
      if end > |q| || end + ANSWER_SIZE > size then 0 else end
  }

  /** A query with exactly one question: header, name, type and class; anything may follow. */
  ghost predicate IsQuestion(q: Packet, labels: seq<Packet>) {
    && HasQueryHeader(q) && AreLabels(labels)
    && HEADER_SIZE + |EncodeName(labels)| + 4 <= |q|
    && q[HEADER_SIZE..HEADER_SIZE + |EncodeName(labels)|] == EncodeName(labels)
  }

  /** Exactly the single-question queries with room for the reply are answered. */
  lemma AnsweredIff(q: Packet, size: nat)
    ensures QuestionEnd(q, size) > 0 <==>
              exists labels :: IsQuestion(q, labels) && HEADER_SIZE + |EncodeName(labels)| + 4 + ANSWER_SIZE <= size
  {
    if QuestionEnd(q, size) > 0 {
      var labels := ScannedNameIsEncoded(q, HEADER_SIZE);
      assert IsQuestion(q, labels);
    }
    if labels :| IsQuestion(q, labels) && HEADER_SIZE + |EncodeName(labels)| + 4 + ANSWER_SIZE <= size {
      EncodedNameIsScanned(q, HEADER_SIZE, labels);
    }
  }

  // The reply.

  /** Type A and class IN. */
  predicate IsAddressQuery(q: Packet, questionEnd: nat)
    requires 4 <= questionEnd <= |q|
  {
    q[questionEnd - 4] == 0 && q[questionEnd - 3] == 1 && q[questionEnd - 2] == 0 && q[questionEnd - 1] == 1
  }

  function ReplyHeader(q: Packet, answers: Byte): (h: Packet)
    requires |q| >= HEADER_SIZE
    ensures |h| == HEADER_SIZE
  {
    q[..2] + [128 + q[2] % 2, 128] + q[4..6] + [0, answers, 0, 0, 0, 0]
  }

  /** Pointer to offset 12, type A, class IN, time to live, length 4, address. */
  function AnswerRecord(ip: Packet): Packet {
    [0xC0, 0x0C, 0, 1, 0, 1, 0, 0, 0, TTL_S, 0, 4] + ip
  }

  /** Same ID, same question, and one address record exactly for an address query. */
  function Reply(q: Packet, questionEnd: nat, ip: Packet): Packet
    requires HEADER_SIZE + 4 <= questionEnd <= |q|
  {
    var isA := IsAddressQuery(q, questionEnd);
    ReplyHeader(q, if isA then 1 else 0) + q[HEADER_SIZE..questionEnd] + if isA then AnswerRecord(ip) else []
  }

  /**
   * What the reply says: the query's identifier and question, marked as a response with recursion desired kept, no
   * other record counts, and exactly for an address query one answer: an address record of class IN for the queried
   * name, which its pointer (offset 12) leads to, with the time to live and the address.
   */
  lemma ReplyAnswers(q: Packet, size: nat, ip: Packet)
    requires QuestionEnd(q, size) > 0 && |ip| == 4
    ensures var end := QuestionEnd(q, size);
      var r, isA := Reply(q, end, ip), IsAddressQuery(q, end);
      && |r| == (if isA then end + ANSWER_SIZE else end) <= size
      && IsReplyHeader(r, q, isA) && r[HEADER_SIZE..end] == q[HEADER_SIZE..end]
      && ScanName(r, HEADER_SIZE) == ScanName(q, HEADER_SIZE)
      && (isA ==> IsAddressAnswer(r[end..], ip))
  {
    var end := QuestionEnd(q, size);
    assert ScanName(q, HEADER_SIZE) != -1 && ScanName(q, HEADER_SIZE) + 5 == end;
    hide *;
    QuestionBounds(q, size);
    ReplyParts(q, end, ip);
    HeaderSays(q, Reply(q, end, ip), IsAddressQuery(q, end));
    SameName(q, Reply(q, end, ip), HEADER_SIZE, end);
    AnswerSays(ip);
  }

  /** Identifier kept; response, opcode 0, recursion desired kept; available, no error; one question and the answers. */
  predicate IsReplyHeader(r: Packet, q: Packet, isA: bool)
    requires |r| >= HEADER_SIZE && |q| >= HEADER_SIZE
  {
    && r[0] == q[0] && r[1] == q[1] && r[2] / 128 == 1 && r[2] % 128 == q[2] % 2 && r[3] == 128
    && r[4] == 0 && r[5] == 1 && r[6] == 0 && r[7] == (if isA then 1 else 0)
    && r[8] == r[9] == r[10] == r[11] == 0
  }

  /** Pointer to offset 12, type A, class IN, time to live of 30 s, length 4, address. */
  predicate IsAddressAnswer(a: Packet, ip: Packet) {
    && |a| == 16 && a[0] == 0xC0 && a[1] == 12
    && a[2] == 0 && a[3] == 1 && a[4] == 0 && a[5] == 1
    && a[6] == 0 && a[7] == 0 && a[8] == 0 && a[9] == 30
    && a[10] == 0 && a[11] == 4 && a[12..] == ip
  }

  lemma QuestionBounds(q: Packet, size: nat)
    requires QuestionEnd(q, size) > 0
    ensures var end := QuestionEnd(q, size);
      HasQueryHeader(q) && HEADER_SIZE + 5 <= end <= |q| && end + ANSWER_SIZE <= size
    ensures |q| >= HEADER_SIZE && q[4] == 0 && q[5] == 1
  {
  }

  lemma ReplyParts(q: Packet, end: nat, ip: Packet)
    requires HEADER_SIZE + 4 <= end <= |q| && |ip| == 4
    ensures var r, isA := Reply(q, end, ip), IsAddressQuery(q, end);
      && |r| == (if isA then end + ANSWER_SIZE else end)
      && r[..HEADER_SIZE] == ReplyHeader(q, if isA then 1 else 0) && r[HEADER_SIZE..end] == q[HEADER_SIZE..end]
      && (isA ==> r[end..] == AnswerRecord(ip))
  {
    hide ReplyHeader; hide IsAddressQuery;
  }

  lemma HeaderSays(q: Packet, r: Packet, isA: bool)
    requires |q| >= HEADER_SIZE && q[4] == 0 && q[5] == 1 && |r| >= HEADER_SIZE
    requires r[..HEADER_SIZE] == ReplyHeader(q, if isA then 1 else 0)
    ensures IsReplyHeader(r, q, isA)
  {
    var h := ReplyHeader(q, if isA then 1 else 0);
    assert forall k :: 0 <= k < HEADER_SIZE ==> r[k] == r[..HEADER_SIZE][k] == h[k];
    assert h[0] == q[0] && h[1] == q[1] && h[2] == 128 + q[2] % 2 && h[3] == 128;
    assert h[4] == q[4..6][0] && h[5] == q[4..6][1];
  }

  lemma AnswerSays(ip: Packet)
    requires |ip| == 4
    ensures IsAddressAnswer(AnswerRecord(ip), ip)
  {
  }

  lemma {:induction false} SameName(q: Packet, r: Packet, i: nat, end: nat)
    requires HEADER_SIZE <= i < |q| && ScanName(q, i) != -1 && ScanName(q, i) + 5 == end <= |q| && end <= |r|
    requires r[HEADER_SIZE..end] == q[HEADER_SIZE..end]
    ensures ScanName(r, i) == ScanName(q, i)
    decreases end - i
  {
    assert r[i] == r[HEADER_SIZE..end][i - HEADER_SIZE] == q[HEADER_SIZE..end][i - HEADER_SIZE] == q[i];
    if q[i] != 0 {
      SameName(q, r, i + q[i] + 1, end);
    }
  }

  /** The responder writes the reply into `response`, which may be the query's own buffer. */
  method BuildDnsResponse(query: array<Byte>, queryLength: nat, ip: Packet, response: array<Byte>, responseSize: nat)
    returns (length: nat)
    requires queryLength <= query.Length && responseSize <= response.Length && |ip| == 4
    modifies response
    ensures var q := old(query[..queryLength]);
      var end := QuestionEnd(q, responseSize);
      if end == 0 then length == 0 && response[..] == old(response[..])
      else length <= responseSize && response[..length] == Reply(q, end, ip)
  {
    ghost var q := query[..queryLength];
    if queryLength < HEADER_SIZE + 5 || query[2] >= 128 || query[4] != 0 || query[5] != 1 {
      return 0;
    }
    var nameEnd := FindNameEnd(query, queryLength);
    if nameEnd == -1 {
      return 0;
    }
    var questionEnd := nameEnd + 1 + 4;
    if questionEnd > queryLength || questionEnd + ANSWER_SIZE > responseSize {
      return 0;
    }
    var recordType: int := 256 * (query[nameEnd + 1] as int) + query[nameEnd + 2] as int;
    var recordClass: int := 256 * (query[nameEnd + 3] as int) + query[nameEnd + 4] as int;
    var isA := recordType == 1 && recordClass == 1;
    assert isA == IsAddressQuery(q, questionEnd) by {
      assert query[nameEnd + 1] == q[questionEnd - 4] && query[nameEnd + 2] == q[questionEnd - 3];
      assert query[nameEnd + 3] == q[questionEnd - 2] && query[nameEnd + 4] == q[questionEnd - 1];
    }
    length := WriteReply(query, queryLength, questionEnd, isA, ip, response);
  }

  /** Copies the question, rewrites the header around it and appends the answer. */
  method WriteReply(query: array<Byte>, ghost queryLength: nat, questionEnd: nat, isA: bool, ip: Packet,
      response: array<Byte>)
    returns (length: nat)
    requires HEADER_SIZE + 4 <= questionEnd <= queryLength <= query.Length && |ip| == 4
    requires questionEnd + ANSWER_SIZE <= response.Length
    requires isA == IsAddressQuery(query[..queryLength], questionEnd)
    modifies response
    ensures length == questionEnd + if isA then ANSWER_SIZE else 0
    ensures response[..length] == Reply(old(query[..queryLength]), questionEnd, ip)
  {
    hide ReplyHeader; hide AnswerRecord; hide IsAddressQuery;
    ghost var q := query[..queryLength];
    CopyQuestion(query, questionEnd, response);
    assert response[..questionEnd] == q[..questionEnd];
    assert response[HEADER_SIZE..questionEnd] == response[..questionEnd][HEADER_SIZE..] == q[HEADER_SIZE..questionEnd];
    assert response[..HEADER_SIZE] == response[..questionEnd][..HEADER_SIZE] == q[..HEADER_SIZE];
    ghost var tail := response[HEADER_SIZE..];
    assert tail[..questionEnd - HEADER_SIZE] == q[HEADER_SIZE..questionEnd];
    WriteHeader(response, q, isA);
    assert response[HEADER_SIZE..questionEnd] == response[HEADER_SIZE..][..questionEnd - HEADER_SIZE];
    Joined(response, HEADER_SIZE, questionEnd);
    ghost var front := ReplyHeader(q, if isA then 1 else 0) + q[HEADER_SIZE..questionEnd];
    assert response[..questionEnd] == front;
    length := questionEnd;
    if isA {
      WriteAnswer(response, questionEnd, ip);
      Joined(response, questionEnd, questionEnd + ANSWER_SIZE);
      length := questionEnd + ANSWER_SIZE;
    } else {
      assert front + [] == front;
    }
  }

  lemma Joined(a: array<Byte>, i: nat, j: nat)
    requires i <= j <= a.Length
    ensures a[..j] == a[..i] + a[i..j]
  {
  }

  method FindNameEnd(query: array<Byte>, queryLength: nat) returns (nameEnd: int)
    requires HEADER_SIZE < queryLength <= query.Length
    ensures nameEnd == ScanName(query[..queryLength], HEADER_SIZE)
  {
    var q := query[..queryLength];
    nameEnd := HEADER_SIZE;
    while nameEnd < queryLength && query[nameEnd] != 0
      invariant HEADER_SIZE <= nameEnd < queryLength
      invariant ScanName(q, nameEnd) == ScanName(q, HEADER_SIZE)
      decreases queryLength - nameEnd
    {
      var labelLength := query[nameEnd];
      if labelLength > MAX_LABEL || nameEnd + labelLength + 1 >= queryLength {
        return -1;
      }
      nameEnd := nameEnd + labelLength + 1;
    }
  }

  /** memcpy() of the question, skipped when both buffers are the same. */
  method CopyQuestion(query: array<Byte>, questionEnd: nat, response: array<Byte>)
    requires questionEnd <= query.Length && questionEnd <= response.Length
    modifies response
    ensures response[..questionEnd] == old(query[..questionEnd])
  {
    if response != query {
      forall k | 0 <= k < questionEnd {
        response[k] := query[k];
      }
    }
  }

  method WriteHeader(response: array<Byte>, ghost q: Packet, isA: bool)
    requires response.Length >= HEADER_SIZE && |q| >= HEADER_SIZE && response[..HEADER_SIZE] == q[..HEADER_SIZE]
    modifies response
    ensures response[..HEADER_SIZE] == ReplyHeader(q, if isA then 1 else 0)
    ensures response[HEADER_SIZE..] == old(response[HEADER_SIZE..])
  {
    assert forall k :: 0 <= k < HEADER_SIZE ==> response[k] == response[..HEADER_SIZE][k] == q[k];
    response[2] := 128 + response[2] % 2;
    response[3] := 128;
    response[6] := 0;
    response[7] := if isA then 1 else 0;
    response[8], response[9], response[10], response[11] := 0, 0, 0, 0;
  }

  method WriteAnswer(response: array<Byte>, at: nat, ip: Packet)
    requires at + ANSWER_SIZE <= response.Length && |ip| == 4
    modifies response
    ensures response[at..at + ANSWER_SIZE] == AnswerRecord(ip)
    ensures response[..at] == old(response[..at])
  {
    var record := AnswerRecord(ip);
    forall k | at <= k < at + ANSWER_SIZE {
      response[k] := record[k - at];
    }
  }
}
