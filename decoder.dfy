/** The query decoder: DNSHeader and DNSQuestion, which read the message
    header (section 4.1.1 of RFC 1035) and one question (section 4.1.2 of RFC 1035)
    through a shared StringIO cursor.

    The functions HeaderAt, QuestionAt and DecodeQuery say what a decode
    yields; the methods are the source's step-by-step reads, proved to agree
    with them. */
module Decoder {
  import opened Wire
  import opened Names
  import opened Reader

  /** DNSHeader: the six 16-bit fields, in wire order. */
  datatype Header = Header(
    id: nat, flags: nat, numQuestions: nat, numAnswers: nat, numAuth: nat, numAdditional: nat)

  /** DNSQuestion: the dotted name and the two 16-bit fields after it. */
  datatype Question = Question(qname: seq<byte>, qtype: nat, qclass: nat)

  /** A decoded value and the offset just past the octets it came from. */
  datatype Decoded<T> = Decoded(value: T, end: nat)

  /** What reply_to takes from a query: its header and its first question. */
  datatype Query = Query(header: Header, question: Question)

  const HeaderSize: nat := 12

  /** The header that unpack('nnnnnn') reads from the 12 octets at pos; None
      when fewer remain. */
  function HeaderAt(data: seq<byte>, pos: nat): Option<Header>
  {
    if pos + HeaderSize <= |data| then
      Some(Header(UnpackN(data, pos), UnpackN(data, pos + 2), UnpackN(data, pos + 4),
                  UnpackN(data, pos + 6), UnpackN(data, pos + 8), UnpackN(data, pos + 10)))
    else None
  }

  /** The question at pos: a name, then qtype and qclass as the two big-endian
      words right after the name's zero octet. */
  function QuestionAt(data: seq<byte>, pos: nat): Option<Decoded<Question>>
  {
    match ParseLabels(data, pos)
    case None => None
    case Some(p) =>
      if p.end + 4 <= |data| then
        Some(Decoded(Question(Join(p.labels), UnpackN(data, p.end), UnpackN(data, p.end + 2)), p.end + 4))
      else None
  }

  /** A query: the header at offset 0 and the single question right after it,
      whatever the header's question count says. */
  function DecodeQuery(query: seq<byte>): Option<Query>
  {
    match HeaderAt(query, 0)
    case None => None
    case Some(h) =>
      match QuestionAt(query, HeaderSize)
      case None => None
      case Some(q) => Some(Query(h, q.value))
  }

  /** The header's wire form: its six fields as pack('n*') writes them. */
  function HeaderWire(h: Header): seq<byte>
  {
    PackNs([h.id, h.flags, h.numQuestions, h.numAnswers, h.numAuth, h.numAdditional])
  }

  predicate WordFields(h: Header)
  {
    h.id < 0x1_0000 && h.flags < 0x1_0000 && h.numQuestions < 0x1_0000
    && h.numAnswers < 0x1_0000 && h.numAuth < 0x1_0000 && h.numAdditional < 0x1_0000
  }

  /** Labels read so far put in front of what is still to be read. */
  function Extend(labels: seq<seq<byte>>, r: Option<ParsedName>): Option<ParsedName>
  {
    match r
    case None => None
    case Some(p) => Some(ParsedName(labels + p.labels, p.end))
  }

  lemma ExtendNothing(r: Option<ParsedName>)
    ensures Extend([], r) == r
  {
    match r
    case None =>
    case Some(p) => assert [] + p.labels == p.labels;
  }

  lemma ExtendAppend(labels: seq<seq<byte>>, part: seq<byte>, r: Option<ParsedName>)
    ensures Extend(labels, Extend([part], r)) == Extend(labels + [part], r)
  {
    match r
    case None =>
    case Some(p) => assert labels + ([part] + p.labels) == labels + [part] + p.labels;
  }

  /** DNSHeader#initialize: read(12), then unpack('nnnnnn'). A header that
      decodes moves the cursor on by exactly 12; one that does not leaves it
      at the end of the input. */
  method ReadHeader(buf: ByteReader) returns (h: Option<Header>)
    requires buf.Valid()
    modifies buf
    ensures buf.Valid()
    ensures h == HeaderAt(buf.data, old(buf.pos))
    ensures h.Some? ==> buf.pos == old(buf.pos) + HeaderSize
    ensures h.None? ==> buf.pos == |buf.data|
  {
    var hdr := buf.Read(HeaderSize);
    if hdr.None? {
      // nil.unpack raises
      return None;
    }
    var s := hdr.value;
    if |s| < HeaderSize {
      // unpack leaves the missing fields nil, and with the input used up the
      // question's first read(1) returns nil and raises
      return None;
    }
    h := Some(Header(UnpackN(s, 0), UnpackN(s, 2), UnpackN(s, 4),
                     UnpackN(s, 6), UnpackN(s, 8), UnpackN(s, 10)));
  }

  /** DNSQuestion#parse_name: read a length octet; stop at zero; otherwise read
      that many octets as a label. The labels are joined with ".", and the
      cursor ends just past the zero octet; a failed read leaves it at the
      end of the input. */
  method ParseName(buf: ByteReader) returns (name: Option<seq<byte>>)
    requires buf.Valid()
    modifies buf
    ensures buf.Valid()
    ensures match ParseLabels(buf.data, old(buf.pos))
      case None => name == None
      case Some(p) => name == Some(Join(p.labels)) && buf.pos == p.end
    ensures name.None? ==> buf.pos == |buf.data|
  {
    ghost var start := buf.pos;
    var labels: seq<seq<byte>> := [];
    ExtendNothing(ParseLabels(buf.data, start));
    while true
      invariant buf.Valid() && start <= buf.pos
      invariant ParseLabels(buf.data, start) == Extend(labels, ParseLabels(buf.data, buf.pos))
      decreases |buf.data| - buf.pos
    {
      ghost var at := buf.pos;
      var octet := buf.Read(1);
      if octet.None? {
        // nil.unpack('C') raises
        return None;
      }
      var len := octet.value[0];
      if len == 0 {
        assert labels + [] == labels;
        break;
      }
      var part := buf.Read(len as nat);
      // At the end of the input Ruby appends nil (a short read appends the
      // short label); either way the next read(1) returns nil and raises.
      ghost var next := at + 1 + len as nat;
      if next <= |buf.data| {
        ExtendAppend(labels, buf.data[at + 1..next], ParseLabels(buf.data, next));
      }
      labels := labels + [if part.Some? then part.value else []];
    }
    name := Some(Join(labels));
  }

  /** DNSQuestion#initialize: the name, then read(2) for qtype and read(2)
      for qclass, each unpacked with 'n'. */
  method ReadQuestion(buf: ByteReader) returns (q: Option<Question>)
    requires buf.Valid()
    modifies buf
    ensures buf.Valid()
    ensures match QuestionAt(buf.data, old(buf.pos))
      case None => q == None
      case Some(d) => q == Some(d.value) && buf.pos == d.end
    ensures q.None? ==> buf.pos == |buf.data|
  {
    var qname := ParseName(buf);
    if qname.None? {
      return None;
    }
    var qtype := buf.Read(2);
    if qtype.None? {
      // nil.unpack raises
      return None;
    }
    var qclass := buf.Read(2);
    if qclass.None? {
      // nil.unpack raises (a one-octet qtype used up the input)
      return None;
    }
    if |qclass.value| < 2 {
      // qclass is nil, and pack('n') in build_question_section raises on it
      return None;
    }
    q := Some(Question(qname.value, UnpackN(qtype.value, 0), UnpackN(qclass.value, 0)));
  }

  /** Decoding the header's wire form gives the header back. */
  lemma HeaderRoundTrip(h: Header, rest: seq<byte>)
    requires WordFields(h)
    ensures HeaderAt(HeaderWire(h) + rest, 0) == Some(h)
  {
    var data := HeaderWire(h) + rest;
    PackNsSix([h.id, h.flags, h.numQuestions, h.numAnswers, h.numAuth, h.numAdditional]);
    WordAt(data, 0, h.id);
    WordAt(data, 2, h.flags);
    WordAt(data, 4, h.numQuestions);
    WordAt(data, 6, h.numAnswers);
    WordAt(data, 8, h.numAuth);
    WordAt(data, 10, h.numAdditional);
  }

  /** Decoding and re-encoding a header gives back the 12 octets it was read from. */
  lemma HeaderWireOfDecoded(data: seq<byte>)
    requires HeaderAt(data, 0).Some?
    ensures HeaderWire(HeaderAt(data, 0).value) == data[..HeaderSize]
  {
    var h := HeaderAt(data, 0).value;
    PackNsSix([h.id, h.flags, h.numQuestions, h.numAnswers, h.numAuth, h.numAdditional]);
    PackUnpackN(data, 0);
    PackUnpackN(data, 2);
    PackUnpackN(data, 4);
    PackUnpackN(data, 6);
    PackUnpackN(data, 8);
    PackUnpackN(data, 10);
    assert data[..HeaderSize] == data[0..2] + data[2..4] + data[4..6] + data[6..8] + data[8..10] + data[10..12];
  }

  /** A query with fewer than 17 octets (12 of header, at least the zero
      octet of a name, 4 of qtype and qclass) never decodes. */
  lemma ShortQueryFails(query: seq<byte>)
    requires |query| < HeaderSize + 5
    ensures DecodeQuery(query) == None
  {
    match ParseLabels(query, HeaderSize)
    case None =>
    case Some(p) => assert p.end > HeaderSize;
  }

  /** Decoding fails exactly when the input ends before the header's 12
      octets, when the name does not decode, or when fewer than 4 octets of
      qtype and qclass follow the name. By Names.ParseLabelsIff, the name
      fails to decode exactly when no label wire form ending in a zero octet
      fits in the input: the input ends before the zero octet or inside a
      label. */
  lemma DecodeFailsIff(query: seq<byte>)
    ensures DecodeQuery(query) == None <==>
      |query| < HeaderSize
      || ParseLabels(query, HeaderSize) == None
      || ParseLabels(query, HeaderSize).value.end + 4 > |query|
  {
  }

  /** The octets of a query with one question: the header, the name's wire
      form, qtype and qclass. */
  function QueryWire(h: Header, labels: seq<seq<byte>>, qtype: nat, qclass: nat): seq<byte>
  {
    HeaderWire(h) + NameWire(labels) + PackN(qtype) + PackN(qclass)
  }

  /** The wire form of a question at pos decodes to that question. */
  lemma QuestionWireAt(data: seq<byte>, pos: nat, labels: seq<seq<byte>>, qtype: nat, qclass: nat)
    requires ValidLabels(labels)
    requires qtype < 0x1_0000 && qclass < 0x1_0000
    requires var w := NameWire(labels) + PackN(qtype) + PackN(qclass);
      pos + |w| <= |data| && data[pos..pos + |w|] == w
    ensures QuestionAt(data, pos)
         == Some(Decoded(Question(Join(labels), qtype, qclass), pos + |NameWire(labels)| + 4))
  {
    var end := pos + |NameWire(labels)|;
    QuestionParts(data, pos, labels, qtype, qclass);
    QuestionFromParts(data, pos, labels, end, qtype, qclass);
  }

  /** The wire form of a question at pos: the name decodes, and the two words
      after it are qtype and qclass. */
  lemma QuestionParts(data: seq<byte>, pos: nat, labels: seq<seq<byte>>, qtype: nat, qclass: nat)
    requires ValidLabels(labels)
    requires qtype < 0x1_0000 && qclass < 0x1_0000
    requires var w := NameWire(labels) + PackN(qtype) + PackN(qclass);
      pos + |w| <= |data| && data[pos..pos + |w|] == w
    ensures var end := pos + |NameWire(labels)|;
      end + 4 <= |data| && ParseLabels(data, pos) == Some(ParsedName(labels, end))
      && UnpackN(data, end) == qtype && UnpackN(data, end + 2) == qclass
  {
    var name := NameWire(labels);
    var end := pos + |name|;
    SliceSplit(data, pos, name + PackN(qtype), PackN(qclass));
    SliceSplit(data, pos, name, PackN(qtype));
    WireIsParsed(data, pos, labels);
    WordSlice(data, end, qtype);
    WordSlice(data, end + 2, qclass);
  }

  /** A decoded name with 4 more octets after it is a question. */
  lemma QuestionFromParts(data: seq<byte>, pos: nat, labels: seq<seq<byte>>, end: nat, qtype: nat, qclass: nat)
    requires ParseLabels(data, pos) == Some(ParsedName(labels, end)) && end + 4 <= |data|
    requires UnpackN(data, end) == qtype && UnpackN(data, end + 2) == qclass
    ensures QuestionAt(data, pos) == Some(Decoded(Question(Join(labels), qtype, qclass), end + 4))
  {
  }

  lemma WordAt(data: seq<byte>, at: nat, v: nat)
    requires at + 2 <= |data| && v < 0x1_0000
    requires data[at] == PackN(v)[0] && data[at + 1] == PackN(v)[1]
    ensures UnpackN(data, at) == v
  {
    assert UnpackN(data, at) == UnpackN(PackN(v), 0);
  }

  lemma WordSlice(data: seq<byte>, at: nat, v: nat)
    requires at + 2 <= |data| && v < 0x1_0000 && data[at..at + 2] == PackN(v)
    ensures UnpackN(data, at) == v
  {
    assert data[at] == data[at..at + 2][0] && data[at + 1] == data[at..at + 2][1];
    WordAt(data, at, v);
  }

  /** A query built from a header, the wire form of valid labels, and qtype
      and qclass decodes to exactly those fields, with the labels joined by
      dots, whatever octets follow the first question. */
  lemma DecodeWire(h: Header, labels: seq<seq<byte>>, qtype: nat, qclass: nat, rest: seq<byte>)
    requires WordFields(h) && ValidLabels(labels)
    requires qtype < 0x1_0000 && qclass < 0x1_0000
    ensures DecodeQuery(QueryWire(h, labels, qtype, qclass) + rest)
         == Some(Query(h, Question(Join(labels), qtype, qclass)))
  {
    var w := NameWire(labels) + PackN(qtype) + PackN(qclass);
    var query := QueryWire(h, labels, qtype, qclass) + rest;
    assert query == HeaderWire(h) + (w + rest);
    HeaderRoundTrip(h, w + rest);
    assert query[HeaderSize..HeaderSize + |w|] == w;
    QuestionWireAt(query, HeaderSize, labels, qtype, qclass);
  }

  /** Conversely, every query that decodes has that shape: the header's wire
      form, the wire form of the labels whose join is qname, then qtype and
      qclass. */
  lemma DecodedShape(query: seq<byte>)
    requires DecodeQuery(query).Some?
    ensures var m := DecodeQuery(query).value;
      var p := ParseLabels(query, HeaderSize).value;
      m.question.qname == Join(p.labels)
      && query == QueryWire(m.header, p.labels, m.question.qtype, m.question.qclass) + query[p.end + 4..]
  {
    var p := ParseLabels(query, HeaderSize).value;
    HeaderWireOfDecoded(query);
    QuestionOctets(query);
    SliceJoin3(query, 0, HeaderSize, p.end + 4, |query|);
  }

  /** The question of a query that decodes: the name's wire form, then qtype
      and qclass as packed words. */
  lemma QuestionOctets(query: seq<byte>)
    requires DecodeQuery(query).Some?
    ensures var q := DecodeQuery(query).value.question;
      var p := ParseLabels(query, HeaderSize).value;
      q.qname == Join(p.labels)
      && p.end == HeaderSize + |NameWire(p.labels)|
      && query[HeaderSize..p.end + 4] == NameWire(p.labels) + PackN(q.qtype) + PackN(q.qclass)
  {
    var q := DecodeQuery(query).value.question;
    var p := ParseLabels(query, HeaderSize).value;
    assert p.end == HeaderSize + |NameWire(p.labels)| && query[HeaderSize..p.end] == NameWire(p.labels) by {
      ParsedIsWire(query, HeaderSize);
    }
    assert query[p.end..p.end + 2] == PackN(q.qtype) && query[p.end + 2..p.end + 4] == PackN(q.qclass) by {
      PackUnpackN(query, p.end);
      PackUnpackN(query, p.end + 2);
    }
    SliceJoin3(query, HeaderSize, p.end, p.end + 2, p.end + 4);
  }

  /** Only the first question is read: octets after it (further questions,
      other sections) change nothing, and neither do the header's counts. */
  lemma OnlyFirstQuestionRead(query: seq<byte>, counts: seq<byte>, extra: seq<byte>)
    requires DecodeQuery(query).Some? && |counts| == 8
    ensures var other := query[..4] + counts + query[HeaderSize..] + extra;
      DecodeQuery(other).Some?
      && DecodeQuery(other).value.header.id == DecodeQuery(query).value.header.id
      && DecodeQuery(other).value.question == DecodeQuery(query).value.question
  {
    var p := ParseLabels(query, HeaderSize).value;
    var other := query[..4] + counts + query[HeaderSize..] + extra;
    var qtype, qclass := UnpackN(query, p.end), UnpackN(query, p.end + 2);
    assert |other| >= |query| && other[HeaderSize..p.end + 4] == query[HeaderSize..p.end + 4]
        && other[0] == query[0] && other[1] == query[1] by {
      forall k | HeaderSize <= k < |query| ensures other[k] == query[k] {
        assert other[k] == query[HeaderSize..][k - HeaderSize];
      }
    }
    SameQuestionOctets(query, other, HeaderSize, p);
    QuestionFromParts(query, HeaderSize, p.labels, p.end, qtype, qclass);
    QuestionFromParts(other, HeaderSize, p.labels, p.end, qtype, qclass);
  }

  /** Two inputs that agree on the octets of a decoded question hold the same
      name, qtype and qclass there. */
  lemma SameQuestionOctets(a: seq<byte>, b: seq<byte>, pos: nat, p: ParsedName)
    requires ParseLabels(a, pos) == Some(p) && p.end + 4 <= |a| && p.end + 4 <= |b|
    requires b[pos..p.end + 4] == a[pos..p.end + 4]
    ensures ParseLabels(b, pos) == Some(p)
    ensures UnpackN(b, p.end) == UnpackN(a, p.end) && UnpackN(b, p.end + 2) == UnpackN(a, p.end + 2)
  {
    assert ValidLabels(p.labels) && p.end == pos + |NameWire(p.labels)|
        && b[pos..p.end] == NameWire(p.labels) by {
      ParsedIsWire(a, pos);
      ParsedLabelsValid(a, pos);
      SlicePrefix(a, b, pos, p.end, p.end + 4);
    }
    assert ParseLabels(b, pos) == Some(ParsedName(p.labels, p.end)) by {
      WireIsParsed(b, pos, p.labels);
    }
    SameWords(a, b, pos, p.end + 4, p.end);
  }

  /** Inputs that agree on a slice agree on each slice inside it. */
  lemma SlicePrefix(a: seq<byte>, b: seq<byte>, i: nat, m: nat, j: nat)
    requires i <= m <= j <= |a| && j <= |b| && a[i..j] == b[i..j]
    ensures a[i..m] == b[i..m]
  {
    assert a[i..m] == a[i..j][..m - i];
    assert b[i..m] == b[i..j][..m - i];
  }

  /** Inputs that agree on a slice read the same two words inside it. */
  lemma SameWords(a: seq<byte>, b: seq<byte>, i: nat, j: nat, at: nat)
    requires i <= at && at + 4 <= j <= |a| && j <= |b| && a[i..j] == b[i..j]
    ensures UnpackN(a, at) == UnpackN(b, at) && UnpackN(a, at + 2) == UnpackN(b, at + 2)
  {
    forall k | at <= k < at + 4 ensures a[k] == b[k] {
      assert a[k] == a[i..j][k - i] && b[k] == b[i..j][k - i];
    }
  }
}
