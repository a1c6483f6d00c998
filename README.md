# DNS responder codec, modelled in Dafny

This project models the wire-format codec of a minimal Ruby DNS responder
(`domain_name_server.rb`). For every UDP query, the responder does three things:

1. It reads the 12-octet header (section 4.1.1 of RFC 1035) through a StringIO cursor.
2. It reads one question (section 4.1.2 of RFC 1035) from the same cursor. The name is a
   sequence of length-prefixed labels that ends in a zero octet (section 3.1 of RFC 1035).
3. It builds a fixed-shape response: a header with the query's id, flags `0x8180` and counts
   1, 1, 0, 0; the question, encoded again from its dotted name; and one A record for
   127.0.0.1 with ttl 3600. The record's owner name is the compression pointer `C0 0C`
   (section 4.1.4 of RFC 1035).

Modules, one per part of the source:

- `Wire` (wire.dfy): octets, Ruby's `pack`/`unpack` directives `C`, `n`, `n*` and `N`, and an
  `Option` type.
- `Names` (names.dfy): the two forms of a name. The wire form is read by `parse_name`, modelled
  by the function `ParseLabels`, and written by `NameWire`. The dotted text form is built by
  `Join` (`name.join(".")`) and taken apart by `Split` (Ruby's `String#split(".")`). This module
  also holds the name round trips.
- `Reader` (reader.dfy): the class `ByteReader`. It models `StringIO#read`, which returns nil
  at end of input when n > 0 and otherwise returns at most n octets.
- `Decoder` (decoder.dfy): `DNSHeader#initialize`, `DNSQuestion#initialize` and `parse_name`.
  Each is an imperative method that moves a shared `ByteReader`, as the source does. Each is
  proved equal to a specification function: `HeaderAt`, `ParseLabels` or `QuestionAt`. On top
  of these, `DecodeQuery` states what a whole query decodes to.
- `Encoder` (encoder.dfy): `build_response`, `build_question_section` and
  `build_answer_section`, written as pure functions.
- `Server` (server.dfy): `reply_to` as a method. It is proved equal to the function `Reply`,
  and the end-to-end properties are stated about `Reply`.

Behaviour of the source that the model keeps as it is:

- The response flags `0x8180` set QR, RD and RA, whatever the query asked for.
- Compression pointers are not followed. A `0xC0` octet in a query's name is read as a label
  length of 192.
- Only the first question is read, whatever the header's question count says. Octets after
  the question are ignored.
- A query that ends too early gets no response. This covers a query that ends before 12
  header octets, before the name's zero octet, inside a label, or before the 4 octets of qtype
  and qclass. In Ruby, each such case ends in an exception:
  - `read` returns nil, and calling `unpack` on nil raises.
  - Or a short read leaves a field nil. Then either the next `read` returns nil, or
    `pack('n')` raises on the nil field.

  The model returns `None` for every such case. `parse_name`'s loop is modelled step by step:
  a short label is appended, and the next length read fails. The header read fails as soon as
  it comes back short: the cursor is then at the end of the input, so the name's first length
  read returns nil. The qtype and qclass reads are modelled as the source does them:
  - an empty qtype read is nil, and the model fails there;
  - a one-octet qtype read is not checked, and the model fails at the next `read(2)`, which
    returns nil;
  - a one-octet qclass read fails the model, because `pack('n')` later raises on the nil
    qclass.

  The comments in decoder.dfy show why the outcome is the same.
- The question is not copied from the query; it is encoded again from the dotted name.
  `split(".")` makes each dot-separated part one label, with its length kept modulo 256 by
  `pack('C')`. Trailing empty parts are dropped. An empty part anywhere else writes a
  zero-length label, which is a zero octet and ends the name early for any reader. So a label
  that contains the octet `0x2E` is not echoed as it was read:
  - "a.b" becomes the two labels "a" and "b" (`Names.DottedLabelIsResplit`);
  - "a." loses its dot (`Names.TrailingDotDropped`);
  - ".a" starts with a zero octet, so the written name ends at once (`Names.LeadingDotEndsName`).

  When no label contains a dot, the question is echoed octet for octet
  (`Server.ReplyEchoesQuestion`).

What the code does not do:

- It does not follow compression pointers, and it has no cycle guard and no 63/255 length
  limits.
- It has no resolver: the answer is always 127.0.0.1.

## Model

| member | source | states |
|---|---|---|
| Wire.UnpackN | domain_name_server.rb:29 | unpack('n') reads a big-endian word below 65536 whose high octet is s[i] and low octet is s[i+1] |
| Wire.PackC | domain_name_server.rb:66 | pack('C') writes one octet equal to the value modulo 256 |
| Wire.PackN | domain_name_server.rb:67-68 | pack('n') writes two octets that unpack('n') reads back as the value modulo 65536 |
| Wire.PackBigN | domain_name_server.rb:74 | pack('N') writes four octets whose two big-endian words give the value modulo 2^32 |
| Wire.PackNs | domain_name_server.rb:59 | pack('n*') writes 2 octets per value |
| Wire.PackNsSix | domain_name_server.rb:59 | pack('n*') of six values is the six values packed with pack('n') one after another, in order |
| Wire.PackUnpackN | domain_name_server.rb:67 | packing a word read by unpack('n') gives back the two octets it came from |
| Names.Join | domain_name_server.rb:47 | no contract of its own: Names.FieldsJoin and Names.SplitJoin state that splitting at dots undoes it for non-empty, dot-free labels |
| Names.Split | domain_name_server.rb:66 | no contract of its own: it is Names.TrimTrailingEmpty applied to Names.Fields, whose contracts state what it keeps and drops |
| Names.EncodeName | domain_name_server.rb:66 | no contract of its own: Names.EncodeParsedName and Names.NameRoundTrip state it writes a read name back octet for octet when no label holds a dot; the three dot lemmas show what it does otherwise |
| Names.LabelWire | domain_name_server.rb:66 | no contract of its own: [part.length, part].pack('Ca*'); Names.LabelAt states that a name decode reads such a length octet and label back as one label |
| Names.NameWire | domain_name_server.rb:66 | no contract of its own: the labels' wire forms joined, then the zero octet; Names.NameWireLength gives its length and Names.ParseLabelsIff makes it exactly what a name decode accepts |
| Names.Fields | domain_name_server.rb:66 | the fields between dots contain no dot, there is at least one, and joining them with "." gives the text back |
| Names.TrimTrailingEmpty | domain_name_server.rb:66 | split drops exactly the trailing empty fields: the result is a prefix, its last field is non-empty, and every dropped field is empty |
| Names.ParseLabels | domain_name_server.rb:42-48 | a successful name decode ends past its start, within the input |
| Names.ParsedLabelsValid | domain_name_server.rb:44-45 | every label a successful name decode returns is 1 to 255 octets long |
| Names.ParsedIsWire | domain_name_server.rb:42-48 | a decoded name consumed exactly the length-prefixed labels and the zero octet, so the cursor ends just past the terminator |
| Names.NameWireLength | domain_name_server.rb:42-48 | the wire form of n labels is 1 + n + (sum of label lengths) octets long |
| Names.ParseNameConsumed | domain_name_server.rb:42-48 | parse_name consumes 1 + the sum of (1 + Li) octets |
| Names.WireIsParsed | domain_name_server.rb:42-48 | the wire form of labels of 1 to 255 octets decodes to those labels, whatever follows it |
| Names.ParseLabelsIff | domain_name_server.rb:42-48 | a name decode yields (labels, end) if and only if data[pos..end] is the wire form of those valid labels |
| Names.FieldsJoin | domain_name_server.rb:66 | splitting at every dot undoes join(".") for dot-free labels |
| Names.SplitJoin | domain_name_server.rb:66 | Ruby's split(".") undoes join(".") when every label is non-empty and dot-free |
| Names.NameRoundTrip | domain_name_server.rb:42-48 | re-parsing the encoded dotted name gives back the same dotted name and stops at the end of the encoding, when labels are non-empty, at most 255 octets and dot-free |
| Names.EncodeParsedName | domain_name_server.rb:66 | a name read from the query is encoded back octet for octet when none of its labels contains a dot |
| Names.LeadingDotEndsName | domain_name_server.rb:66 | the text ".a" is written as 00 01 61 00, and reading a name from it stops after the first octet with no labels |
| Names.TrailingDotDropped | domain_name_server.rb:66 | the text "a." is written as the single label "a", without its dot |
| Names.DottedLabelIsResplit | domain_name_server.rb:66 | the 3-octet label "a.b" is written back as the two labels "a" and "b", not as it was read |
| Reader.ByteReader.constructor | domain_name_server.rb:85 | StringIO.new(query) starts a cursor at offset 0 over the query |
| Reader.ByteReader.Read | domain_name_server.rb:44-45 | read(n) returns nil at end of input when n > 0; otherwise it returns the next min(n, remaining) octets and moves the cursor past them |
| Decoder.HeaderAt | domain_name_server.rb:28-29 | no contract of its own: Decoder.ReadHeader is proved equal to it, and Decoder.HeaderRoundTrip and Decoder.HeaderWireOfDecoded make it the inverse of packing six words |
| Decoder.QuestionAt | domain_name_server.rb:36-40 | no contract of its own: Decoder.ReadQuestion is proved equal to it, and Decoder.QuestionWireAt states what it returns on a question's wire form |
| Decoder.DecodeQuery | domain_name_server.rb:84-91 | no contract of its own: Decoder.DecodeWire, Decoder.DecodedShape and Decoder.DecodeFailsIff state what decodes, to what, and when decoding fails |
| Decoder.ReadHeader | domain_name_server.rb:27-30 | the header is the six big-endian words at the cursor, in the order id, flags, questions, answers, authority, additional; the cursor advances by exactly 12, or the decode fails at end of input |
| Decoder.ParseName | domain_name_server.rb:42-48 | the read loop returns the labels of ParseLabels joined with "." and leaves the cursor just past the zero octet; it fails when input ends before the terminator or inside a label, leaving the cursor at the end of the input |
| Decoder.ReadQuestion | domain_name_server.rb:36-40 | a question is the name, then qtype and qclass as the two big-endian words right after the terminator; the decode fails when fewer than 4 octets follow the name, leaving the cursor at the end of the input |
| Decoder.HeaderRoundTrip | domain_name_server.rb:29 | decoding a header's six packed words gives back that header |
| Decoder.HeaderWireOfDecoded | domain_name_server.rb:28-29 | re-packing a decoded header gives back the query's first 12 octets |
| Decoder.ShortQueryFails | domain_name_server.rb:36-39 | a query shorter than 17 octets never decodes |
| Decoder.DecodeFailsIff | domain_name_server.rb:28-45 | decoding fails if and only if the input ends before the 12 header octets, before the name's zero octet, inside a label, or before the 4 octets of qtype and qclass |
| Decoder.QuestionWireAt | domain_name_server.rb:36-39 | the wire form of a question decodes to that question and ends 4 octets past the name |
| Decoder.DecodeWire | domain_name_server.rb:84-91 | header + wire name + qtype + qclass + any trailing octets decodes to that header and that question, with the labels joined by dots |
| Decoder.DecodedShape | domain_name_server.rb:84-91 | every query that decodes is exactly header + wire name + qtype + qclass + trailing octets |
| Decoder.QuestionOctets | domain_name_server.rb:36-40 | the question of a decoded query is its name's wire form followed by the packed qtype and qclass, and its qname is the labels joined by dots |
| Decoder.OnlyFirstQuestionRead | domain_name_server.rb:91 | changing the header's counts or appending octets changes neither the id nor the decoded question |
| Encoder.BuildHeader | domain_name_server.rb:59 | no contract of its own: Encoder.HeaderOctets gives its octets and Encoder.ResponseHeader states that it decodes to (id, 0x8180, 1, 1, 0, 0) |
| Encoder.BuildQuestionSection | domain_name_server.rb:65-70 | no contract of its own: Encoder.QuestionRoundTrip states that it decodes back to the question for valid, dot-free labels |
| Encoder.Rdata | domain_name_server.rb:75 | no contract of its own: [127, 0, 0, 1].pack('C4'); Encoder.AnswerSectionLayout states it is 7F 00 00 01 and that rdlength equals its length, 4 |
| Encoder.BuildAnswerSection | domain_name_server.rb:72-81 | no contract of its own: Encoder.AnswerSectionLayout gives its 16 octets |
| Encoder.BuildResponse | domain_name_server.rb:58-63 | no contract of its own: Encoder.ResponseLayout, Encoder.ResponseHeader and Encoder.PointerReachesQuestionName state its layout, its header and where its pointer leads |
| Encoder.PointerTarget | domain_name_server.rb:76 | a compression pointer refers to an offset below 2^14 |
| Encoder.AnswerSectionLayout | domain_name_server.rb:72-81 | the answer is C0 0C 00 01 00 01 00 00 0E 10 00 04 7F 00 00 01, with type A, class IN and ttl 3600; rdlength equals the rdata length, 4 |
| Encoder.HeaderOctets | domain_name_server.rb:59 | the response header is the id as a big-endian word, then 81 80 00 01 00 01 00 00 00 00 |
| Encoder.ResponseHeader | domain_name_server.rb:59 | the response header decodes to (id, 0x8180, 1, 1, 0, 0), and its first two octets are the packed id |
| Encoder.ResponseLayout | domain_name_server.rb:58-63 | the response is 12 + encoded name + 4 + 16 octets long; the name starts at offset 12, qtype and qclass follow it, the answer takes the last 16 octets, and the answer's pointer refers to offset 12 |
| Encoder.QuestionRoundTrip | domain_name_server.rb:65-70 | the question section built for a question with valid, dot-free labels decodes back to that question |
| Encoder.PointerReachesQuestionName | domain_name_server.rb:76 | reading a name at the answer pointer's target gives the dotted qname and stops where the name's encoding ends |
| Server.Reply | domain_name_server.rb:84-98 | no contract of its own: Server.ReplyTo is proved equal to it, and Server.ReplyToWire, Server.ReplyEchoesId and Server.ReplyEchoesQuestion state what it answers |
| Server.ReplyTo | domain_name_server.rb:84-98 | reply_to, run step by step over a fresh cursor, gives the response Reply specifies, or none when decoding fails |
| Server.ShortQueryNoReply | domain_name_server.rb:84-91 | a query shorter than 17 octets gets no response |
| Server.ReplyToWire | domain_name_server.rb:84-98 | a query made of a header, a wire name, qtype, qclass and any trailing octets gets the response built from its id and that question |
| Server.ReplyEchoesId | domain_name_server.rb:94 | every response starts with the query's two id octets and decodes to the header (id, 0x8180, 1, 1, 0, 0) |
| Server.ReplyEchoesQuestion | domain_name_server.rb:65-69 | when no label contains a dot, the response echoes the query's question octet for octet and then ends with the 16-octet answer |
| Server.ExampleComReply | domain_name_server.rb:84-98 | the example.com query with id 0x1234 gets exactly the response with that id, flags 8180, the same question, and the A record 127.0.0.1 |
| Server.OverlongLabelNoReply | domain_name_server.rb:44-45 | a label length of 200 with only 5 octets left gets no response |
| Server.PointerIsReadAsLength | domain_name_server.rb:44 | a name starting with 0xC0 is read as a 192-octet label, not as a pointer, so a query that ends before 192 more octets gets no response |

## Left out

- The UDP socket: creation, bind to port 8053, `recvfrom` with `MAX_UDP_LENGTH` and `send`. These are I/O. The query is a parameter of `ReplyTo`, and the response is its result.
- Hex dumps through the external `xxd` process, and all `puts` logging. They are foreign process calls and output that only reports.
- The endless serving loop and its `response.nil?` branch. `reply_to` never returns nil.
- Exceptions: the source raises, and nothing rescues the exception, so the serving loop stops. The model gives `None` (no response) and does not model what happens to the process after that.
- Nil fields: a short header, qtype or qclass read leaves nil in the source's fields, and a later read or `pack` then raises. The model fails at the short header or qclass read itself, and at the read after a one-octet qtype, because no response comes out either way.
- `force_encoding('ASCII-8BIT')`: it only retags strings. Everything here is octet sequences.
- The `DNSResponse` object and its unused `@answers = []`: the response builders take the id and the question as arguments.
- Compression-pointer following, cycle detection, label-length limits (63/255) and a resolver: the code has none of these.
- Ruby integers are unbounded, and `pack` of negative numbers is not modelled: every packed value here comes from `unpack` or from a constant, so it is a natural number.
