/** The response encoder: DNSResponse#build_response and the two section
    builders. The response always has the same shape: a header with fixed
    counts, the question written back from its dotted name, and one A record
    for 127.0.0.1 whose owner name is the compression pointer C0 0C
    (section 4.1.4 of RFC 1035). */
module Encoder {
  import opened Wire
  import opened Names
  import opened Decoder

  /** QR (response), RD and RA set; opcode and RCODE zero. */
  const ResponseFlags: nat := 0x8180
  /** The answer's time to live, in seconds. */
  const AnswerTtl: nat := 3600
  /** Resource record type A and class IN. */
  const TypeA: nat := 1
  const ClassIn: nat := 1
  /** rname: a pointer (top two bits set) to offset 0x0C of the message. */
  const QuestionNamePointer: seq<byte> := [0xC0, 0x0C]
  /** The size of the answer record that build_answer_section writes. */
  const AnswerSize: nat := 16

  /** [@id, 0x8180, 1, 1, 0, 0].pack('n*'): one question, one answer, no
      authority or additional records, whatever the query's counts were. */
  function BuildHeader(id: nat): seq<byte>
  {
    PackNs([id, ResponseFlags, 1, 1, 0, 0])
  }

  /** build_question_section: the dotted name split at "." with each part
      length-prefixed, a zero octet, then qtype and qclass. */
  function BuildQuestionSection(q: Question): seq<byte>
  {
    EncodeName(q.qname) + PackN(q.qtype) + PackN(q.qclass)
  }

  /** [127, 0, 0, 1].pack('C4'): the loopback address the answer always gives. */
  function Rdata(): seq<byte>
  {
    PackC(127) + PackC(0) + PackC(0) + PackC(1)
  }

  /** build_answer_section: rname, type, class, ttl, rdlength (the length of
      rdata) and rdata. */
  function BuildAnswerSection(): seq<byte>
  {
    var rdata := Rdata();
    QuestionNamePointer + PackN(TypeA) + PackN(ClassIn) + PackBigN(AnswerTtl)
      + PackN(|rdata|) + rdata
  }

  /** build_response: header, question and answer, in that order. */
  function BuildResponse(id: nat, q: Question): seq<byte>
  {
    BuildHeader(id) + BuildQuestionSection(q) + BuildAnswerSection()
  }

  /** The message offset a two-octet compression pointer refers to: its low
      14 bits. */
  function PointerTarget(p: seq<byte>): (r: nat)
    requires |p| == 2
    ensures r < 0x4000
  {
    (p[0] as nat % 64) * 256 + p[1] as nat
  }

  /** The answer record, octet by octet: a pointer, type A, class IN, ttl 3600,
      rdlength 4 and 127.0.0.1; rdlength equals the number of rdata octets
      that follow it. */
  lemma AnswerSectionLayout()
    ensures var a := BuildAnswerSection();
      a == [0xC0, 0x0C, 0x00, 0x01, 0x00, 0x01, 0x00, 0x00, 0x0E, 0x10, 0x00, 0x04, 0x7F, 0x00, 0x00, 0x01]
      && UnpackN(a, 10) == |a| - 12 == |Rdata()| == 4
      && UnpackN(a, 2) == TypeA && UnpackN(a, 4) == ClassIn
      && UnpackN(a, 6) * 0x1_0000 + UnpackN(a, 8) == AnswerTtl
  {
    var ttl := PackBigN(AnswerTtl);
    assert ttl == PackN(0) + PackN(3600);
    assert PackN(3600) == [0x0E, 0x10];
    assert PackN(1) == [0x00, 0x01];
    assert PackN(4) == [0x00, 0x04];
    assert Rdata() == [0x7F, 0x00, 0x00, 0x01];
  }

  /** The response header octet by octet: the id as a big-endian word, then
      81 80 00 01 00 01 00 00 00 00. */
  lemma HeaderOctets(id: nat)
    ensures BuildHeader(id) == PackN(id) + [0x81, 0x80, 0x00, 0x01, 0x00, 0x01, 0x00, 0x00, 0x00, 0x00]
  {
    PackNsSix([id, ResponseFlags, 1, 1, 0, 0]);
    assert PackN(ResponseFlags) == [0x81, 0x80];
    assert PackN(1) == [0x00, 0x01] && PackN(0) == [0x00, 0x00];
  }

  /** The response header decodes to the query's id, flags 0x8180 and the
      counts 1, 1, 0, 0: the id is echoed verbatim. */
  lemma ResponseHeader(id: nat, q: Question)
    requires id < 0x1_0000
    ensures var r := BuildResponse(id, q);
      HeaderAt(r, 0) == Some(Header(id, ResponseFlags, 1, 1, 0, 0))
      && r[..2] == PackN(id)
  {
    var h := Header(id, ResponseFlags, 1, 1, 0, 0);
    var rest := BuildQuestionSection(q) + BuildAnswerSection();
    assert BuildHeader(id) == HeaderWire(h);
    assert BuildResponse(id, q) == HeaderWire(h) + rest;
    HeaderRoundTrip(h, rest);
    assert UnpackN(HeaderWire(h), 0) == id;
    PackUnpackN(HeaderWire(h), 0);
  }

  /** Sizes and offsets: the question name starts at offset 12, right after
      the header, and the answer is the last 16 octets; in all,
      12 + |encoded name| + 4 + 16 octets. The answer's pointer refers to
      offset 12, the start of the question name. */
  lemma ResponseLayout(id: nat, q: Question)
    ensures var r := BuildResponse(id, q);
      var n := |EncodeName(q.qname)|;
      |r| == HeaderSize + n + 4 + AnswerSize
      && r[HeaderSize..HeaderSize + n] == EncodeName(q.qname)
      && r[HeaderSize + n..HeaderSize + n + 4] == PackN(q.qtype) + PackN(q.qclass)
      && r[HeaderSize + n + 4..] == BuildAnswerSection()
      && PointerTarget(r[HeaderSize + n + 4..HeaderSize + n + 6]) == HeaderSize
  {
    var r := BuildResponse(id, q);
    var name := EncodeName(q.qname);
    var n := |name|;
    var hdr, t, c, ans := BuildHeader(id), PackN(q.qtype), PackN(q.qclass), BuildAnswerSection();
    assert |ans| == AnswerSize && ans[..2] == QuestionNamePointer by {
      AnswerSectionLayout();
    }
    assert r == hdr + name + (t + c) + ans;
    SliceParts(hdr, name, t + c, ans);
    assert r[HeaderSize + n + 4..HeaderSize + n + 6] == ans[..2];
  }

  /** The parts of a concatenation, recovered by slicing. */
  lemma SliceParts(a: seq<byte>, b: seq<byte>, c: seq<byte>, d: seq<byte>)
    ensures var s := a + b + c + d;
      s[|a|..|a| + |b|] == b && s[|a| + |b|..|a| + |b| + |c|] == c && s[|a| + |b| + |c|..] == d
  {
  }

  /** Encode then decode: the question section written for a question whose
      name is made of valid, dot-free labels decodes to that same question. */
  lemma QuestionRoundTrip(q: Question, labels: seq<seq<byte>>, rest: seq<byte>)
    requires q.qname == Join(labels) && Splittable(labels) && ValidLabels(labels)
    requires q.qtype < 0x1_0000 && q.qclass < 0x1_0000
    ensures var s := BuildQuestionSection(q);
      QuestionAt(s + rest, 0) == Some(Decoded(q, |s|))
  {
    SplitJoin(labels);
    var s := BuildQuestionSection(q);
    assert (s + rest)[0..|s|] == s;
    QuestionWireAt(s + rest, 0, labels, q.qtype, q.qclass);
  }

  /** A client following the answer's pointer reads the question name: the
      name decoded at the pointer's target is the dotted qname, for names made
      of valid, dot-free labels. */
  lemma PointerReachesQuestionName(id: nat, q: Question, labels: seq<seq<byte>>)
    requires q.qname == Join(labels) && Splittable(labels) && ValidLabels(labels)
    ensures var r := BuildResponse(id, q);
      var n := |EncodeName(q.qname)|;
      var target := PointerTarget(r[HeaderSize + n + 4..HeaderSize + n + 6]);
      match ParseLabels(r, target)
      case None => false
      case Some(p) => Join(p.labels) == q.qname && p.end == HeaderSize + n
  {
    SplitJoin(labels);
    ResponseLayout(id, q);
    NameAtTarget(BuildResponse(id, q), labels);
  }

  /** A name read at the target of the pointer that follows the name and the
      4 octets of qtype and qclass. */
  lemma NameAtTarget(r: seq<byte>, labels: seq<seq<byte>>)
    requires ValidLabels(labels)
    requires var n := |NameWire(labels)|;
      HeaderSize + n + 6 <= |r|
      && r[HeaderSize..HeaderSize + n] == NameWire(labels)
      && PointerTarget(r[HeaderSize + n + 4..HeaderSize + n + 6]) == HeaderSize
    ensures var n := |NameWire(labels)|;
      ParseLabels(r, PointerTarget(r[HeaderSize + n + 4..HeaderSize + n + 6]))
        == Some(ParsedName(labels, HeaderSize + n))
  {
    WireIsParsed(r, HeaderSize, labels);
  }
}
