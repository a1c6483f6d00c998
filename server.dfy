/** reply_to: decode the header and the first question from the query, then
    build the fixed-shape response. The socket loop around it is not part of
    this model. */
module Server {
  import opened Wire
  import opened Names
  import opened Reader
  import opened Decoder
  import opened Encoder

  /** The response reply_to gives for a query; None when decoding runs out of
      input (in the source, an exception). */
  function Reply(query: seq<byte>): Option<seq<byte>>
  {
    match DecodeQuery(query)
    case None => None
    case Some(m) => Some(BuildResponse(m.header.id, m.question))
  }

  /** reply_to: a StringIO over the query, DNSHeader.new, DNSQuestion.new on
      the same cursor, then DNSResponse#build_response with the query's id. */
  method ReplyTo(query: seq<byte>) returns (response: Option<seq<byte>>)
    ensures response == Reply(query)
  {
    var buf := new ByteReader(query);
    var header := ReadHeader(buf);
    if header.None? {
      return None;
    }
    var question := ReadQuestion(buf);
    if question.None? {
      return None;
    }
    response := Some(BuildResponse(header.value.id, question.value));
  }

  /** Queries shorter than 17 octets get no response. */
  lemma ShortQueryNoReply(query: seq<byte>)
    requires |query| < HeaderSize + 5
    ensures Reply(query) == None
  {
    ShortQueryFails(query);
  }

  /** A well-formed query with one question gets the response built from its
      id and its question, whatever its flags and counts and whatever follows
      the question. */
  lemma ReplyToWire(h: Header, labels: seq<seq<byte>>, qtype: nat, qclass: nat, rest: seq<byte>)
    requires WordFields(h) && ValidLabels(labels)
    requires qtype < 0x1_0000 && qclass < 0x1_0000
    ensures Reply(QueryWire(h, labels, qtype, qclass) + rest)
         == Some(BuildResponse(h.id, Question(Join(labels), qtype, qclass)))
  {
    DecodeWire(h, labels, qtype, qclass, rest);
  }

  /** Every response carries the query's two id octets first and decodes to
      the header (id, 0x8180, 1, 1, 0, 0). */
  lemma ReplyEchoesId(query: seq<byte>)
    requires Reply(query).Some?
    ensures var r := Reply(query).value;
      r[..2] == query[..2]
      && HeaderAt(r, 0) == Some(Header(UnpackN(query, 0), ResponseFlags, 1, 1, 0, 0))
  {
    var m := DecodeQuery(query).value;
    ResponseHeader(m.header.id, m.question);
    PackUnpackN(query, 0);
  }

  /** When no label of the query's name holds a dot, the response's question
      section is the query's question, octet for octet, and the response is
      the query's header and question with 0x8180, 1, 1, 0, 0 in the header
      and the 16-octet answer in place of whatever followed. */
  lemma ReplyEchoesQuestion(query: seq<byte>)
    requires DecodeQuery(query).Some?
    requires Splittable(ParseLabels(query, HeaderSize).value.labels)
    ensures var p := ParseLabels(query, HeaderSize).value;
      var r := Reply(query).value;
      |r| == p.end + 4 + AnswerSize
      && r[..2] == query[..2]
      && r[HeaderSize..p.end + 4] == query[HeaderSize..p.end + 4]
      && r[p.end + 4..] == BuildAnswerSection()
  {
    var m := DecodeQuery(query).value;
    var p := ParseLabels(query, HeaderSize).value;
    var r := Reply(query).value;
    var q := m.question;
    var name, t, c := NameWire(p.labels), PackN(q.qtype), PackN(q.qclass);
    assert r[..2] == query[..2] by {
      ReplyEchoesId(query);
    }
    assert p.end == HeaderSize + |name| && query[HeaderSize..p.end + 4] == name + t + c
        && EncodeName(q.qname) == name by {
      QuestionOctets(query);
      SplitJoin(p.labels);
    }
    assert |r| == p.end + 4 + AnswerSize && r[p.end + 4..] == BuildAnswerSection()
        && r[HeaderSize..p.end] == name && r[p.end..p.end + 4] == t + c by {
      ResponseLayout(m.header.id, q);
    }
    SliceJoin3(r, HeaderSize, p.end, p.end + 4, p.end + 4);
    assert name + (t + c) == name + t + c;
  }

  /** The labels "example" and "com". */
  const ExampleLabels: seq<seq<byte>> :=
    [[0x65, 0x78, 0x61, 0x6D, 0x70, 0x6C, 0x65], [0x63, 0x6F, 0x6D]]

  /** The question for example.com, type A, class IN, as sent and as echoed. */
  const ExampleQuestion: seq<byte> :=
    [0x07, 0x65, 0x78, 0x61, 0x6D, 0x70, 0x6C, 0x65, 0x03, 0x63, 0x6F, 0x6D, 0x00, 0x00, 0x01, 0x00, 0x01]

  lemma ExampleQuestionWire()
    ensures NameWire(ExampleLabels) + PackN(1) + PackN(1) == ExampleQuestion
  {
    var labels := ExampleLabels;
    assert labels[1..] == [labels[1]] && [labels[1]][1..] == [];
    assert NameWire([labels[1]]) == [3] + labels[1] + [0];
    assert PackN(1) == [0x00, 0x01];
  }

  lemma ExampleLabelsSplittable()
    ensures Splittable(ExampleLabels) && ValidLabels(ExampleLabels)
  {
    var labels := ExampleLabels;
    assert Dot !in labels[0] && Dot !in labels[1];
    forall l | l in labels
      ensures |l| > 0 && Dot !in l
    {
      assert l == labels[0] || l == labels[1];
    }
  }

  /** A query for example.com (id 0x1234, flags 0x0100, type A, class IN)
      gets this exact response: the id echoed, flags 0x8180, counts 1, 1, 0, 0,
      the question as it was sent, and the A record 127.0.0.1 with ttl 3600. */
  lemma ExampleComReply(query: seq<byte>, response: seq<byte>)
    requires query == [0x12, 0x34, 0x01, 0x00, 0x00, 0x01, 0x00, 0x00, 0x00, 0x00, 0x00, 0x00] + ExampleQuestion
    requires response == [0x12, 0x34, 0x81, 0x80, 0x00, 0x01, 0x00, 0x01, 0x00, 0x00, 0x00, 0x00] + ExampleQuestion
              + [0xC0, 0x0C, 0x00, 0x01, 0x00, 0x01, 0x00, 0x00, 0x0E, 0x10, 0x00, 0x04, 0x7F, 0x00, 0x00, 0x01]
    ensures Reply(query) == Some(response)
  {
    var h := Header(0x1234, 0x0100, 1, 0, 0, 0);
    ExampleQueryWire();
    ExampleLabelsSplittable();
    ReplyToWire(h, ExampleLabels, 1, 1, []);
    ExampleResponse();
  }

  lemma ExampleQueryWire()
    ensures QueryWire(Header(0x1234, 0x0100, 1, 0, 0, 0), ExampleLabels, 1, 1) + []
         == [0x12, 0x34, 0x01, 0x00, 0x00, 0x01, 0x00, 0x00, 0x00, 0x00, 0x00, 0x00] + ExampleQuestion
  {
    ExampleQueryHeader();
    ExampleQuestionWire();
  }

  lemma ExampleQuestionSection()
    ensures BuildQuestionSection(Question(Join(ExampleLabels), 1, 1)) == ExampleQuestion
  {
    ExampleLabelsSplittable();
    SplitJoin(ExampleLabels);
    ExampleQuestionWire();
  }

  lemma ExampleResponse()
    ensures BuildResponse(0x1234, Question(Join(ExampleLabels), 1, 1))
         == [0x12, 0x34, 0x81, 0x80, 0x00, 0x01, 0x00, 0x01, 0x00, 0x00, 0x00, 0x00] + ExampleQuestion
            + [0xC0, 0x0C, 0x00, 0x01, 0x00, 0x01, 0x00, 0x00, 0x0E, 0x10, 0x00, 0x04, 0x7F, 0x00, 0x00, 0x01]
  {
    ExampleQuestionSection();
    assert PackN(0x1234) == [0x12, 0x34];
    HeaderOctets(0x1234);
    AnswerSectionLayout();
  }

  lemma ExampleQueryHeader()
    ensures HeaderWire(Header(0x1234, 0x0100, 1, 0, 0, 0))
         == [0x12, 0x34, 0x01, 0x00, 0x00, 0x01, 0x00, 0x00, 0x00, 0x00, 0x00, 0x00]
  {
    var vs: seq<nat> := [0x1234, 0x0100, 1, 0, 0, 0];
    assert PackNs(vs[5..]) == [0x00, 0x00];
    assert PackNs(vs[4..]) == PackN(0) + PackNs(vs[5..]);
    assert PackNs(vs[3..]) == PackN(0) + PackNs(vs[4..]);
    assert PackNs(vs[2..]) == PackN(1) + PackNs(vs[3..]);
    assert PackNs(vs[1..]) == PackN(0x0100) + PackNs(vs[2..]);
    assert PackNs(vs) == PackN(0x1234) + PackNs(vs[1..]);
    assert PackN(0x0100) == [0x01, 0x00] && PackN(0x1234) == [0x12, 0x34];
    assert PackN(1) == [0x00, 0x01] && PackN(0) == [0x00, 0x00];
  }

  /** A label length the input cannot satisfy gets no response: here the
      length octet claims 200 octets and only 5 follow. */
  lemma OverlongLabelNoReply(header: seq<byte>, tail: seq<byte>)
    requires |header| == HeaderSize && |tail| == 5
    ensures Reply(header + [200] + tail) == None
  {
    var query := header + [200] + tail;
    assert query[HeaderSize] == 200;
    assert ParseLabels(query, HeaderSize) == None;
  }

  /** Compression pointers are not followed: the octet 0xC0 of a pointer
      C0 0C at the start of the question name is read as a label length of
      192, so a query that ends before 192 more octets gets no response. */
  lemma PointerIsReadAsLength(header: seq<byte>, tail: seq<byte>)
    requires |header| == HeaderSize && |tail| < 192
    ensures Reply(header + [0xC0] + tail) == None
  {
    var query := header + [0xC0] + tail;
    assert query[HeaderSize] == 0xC0;
    assert ParseLabels(query, HeaderSize) == None;
  }
}
