/** Domain names: the wire form of section 3.1 of RFC 1035 (length-prefixed
    labels ending in a zero octet) and the dotted text form that the server
    keeps in DNSQuestion#qname.

    The server reads names with DNSQuestion#parse_name, which takes every
    non-zero octet as a label length (compression pointers are not followed),
    and writes them back with DNSResponse#build_question_section, which splits
    the dotted text with String#split("."). */
module Names {
  import opened Wire

  /** The octet '.' that joins and splits labels. */
  const Dot: byte := 0x2E

  /** name.join("."): the labels with one dot between neighbours. */
  function Join(labels: seq<seq<byte>>): seq<byte>
  {
    if |labels| == 0 then []
    else if |labels| == 1 then labels[0]
    else labels[0] + [Dot] + Join(labels[1..])
  }

  /** The text between the dots of s, empty fields included; joining them
      again gives s back. */
  function Fields(s: seq<byte>): (r: seq<seq<byte>>)
    ensures |r| > 0
    ensures Join(r) == s
    ensures forall f :: f in r ==> Dot !in f
  {
    if |s| == 0 then [[]]
    else
      var rest := Fields(s[1..]);
      if s[0] == Dot then
        assert Join([[]] + rest) == [Dot] + Join(rest);
        [[]] + rest
      else
        var first := [s[0]] + rest[0];
        assert Join([first] + rest[1..]) == [s[0]] + Join(rest) by {
          if |rest| > 1 {
            assert ([first] + rest[1..])[1..] == rest[1..];
          }
        }
        [first] + rest[1..]
  }

  /** All fields but the trailing empty ones. */
  function TrimTrailingEmpty(fields: seq<seq<byte>>): (r: seq<seq<byte>>)
    ensures |r| <= |fields| && r == fields[..|r|]
    ensures |r| > 0 ==> r[|r| - 1] != []
    ensures forall k :: |r| <= k < |fields| ==> fields[k] == []
  {
    if |fields| == 0 then []
    else if fields[|fields| - 1] == [] then TrimTrailingEmpty(fields[..|fields| - 1])
    else fields
  }

  /** String#split(".") with Ruby's default limit: the fields between dots,
      with trailing empty fields dropped (so "".split(".") is empty). */
  function Split(s: seq<byte>): seq<seq<byte>>
  {
    TrimTrailingEmpty(Fields(s))
  }

  /** A label as parse_name can read it: one to 255 octets. */
  predicate ValidLabel(lbl: seq<byte>)
  {
    0 < |lbl| < 256
  }

  predicate ValidLabels(labels: seq<seq<byte>>)
  {
    forall i :: 0 <= i < |labels| ==> ValidLabel(labels[i])
  }

  /** [part.length, part].pack('Ca*'): a length octet, kept modulo 256 as
      pack('C') does, followed by the label's octets. */
  function LabelWire(lbl: seq<byte>): seq<byte>
  {
    PackC(|lbl|) + lbl
  }

  /** The labels, each with its length octet, and the terminating zero octet. */
  function NameWire(labels: seq<seq<byte>>): seq<byte>
  {
    if |labels| == 0 then [0] else LabelWire(labels[0]) + NameWire(labels[1..])
  }

  /** Sum of the label lengths. */
  function TotalLength(labels: seq<seq<byte>>): nat
  {
    if |labels| == 0 then 0 else |labels[0]| + TotalLength(labels[1..])
  }

  /** The wire form of a name: one octet per label for its length, the labels,
      and the terminator; 1 + the sum of (1 + length) over the labels. */
  lemma {:induction false} NameWireLength(labels: seq<seq<byte>>)
    ensures |NameWire(labels)| == 1 + |labels| + TotalLength(labels)
  {
    if |labels| > 0 {
      NameWireLength(labels[1..]);
    }
  }

  /** The labels a name decode produced, and the offset just past the name's
      terminating zero octet. */
  datatype ParsedName = ParsedName(labels: seq<seq<byte>>, end: nat)

  /** What parse_name reads from data starting at pos: length octets and labels
      up to the first zero octet. None when the input ends before the zero
      octet or inside a label: in the source the next read(1) then returns nil
      and unpack raises. */
  function ParseLabels(data: seq<byte>, pos: nat): (r: Option<ParsedName>)
    ensures r.Some? ==> pos < r.value.end <= |data|
    decreases |data| - pos
  {
    if pos >= |data| then None
    else if data[pos] == 0 then Some(ParsedName([], pos + 1))
    else
      var next := pos + 1 + data[pos] as nat;
      if next > |data| then None
      else match ParseLabels(data, next)
        case None => None
        case Some(p) => Some(ParsedName([data[pos + 1..next]] + p.labels, p.end))
  }

  /** Every label a successful decode returns is 1 to 255 octets long. */
  lemma {:induction false} ParsedLabelsValid(data: seq<byte>, pos: nat)
    requires ParseLabels(data, pos).Some?
    ensures ValidLabels(ParseLabels(data, pos).value.labels)
    decreases |data| - pos
  {
    var p := ParseLabels(data, pos).value;
    if data[pos] != 0 {
      var next := pos + 1 + data[pos] as nat;
      ParsedLabelsValid(data, next);
      var tail := ParseLabels(data, next).value.labels;
      assert p.labels == [data[pos + 1..next]] + tail;
      forall i | 0 <= i < |p.labels| ensures ValidLabel(p.labels[i]) {
        if i > 0 {
          assert p.labels[i] == tail[i - 1];
        }
      }
    }
  }

  /** A successful decode read exactly the wire form of the labels it
      returned: the cursor ends just past the terminator. */
  lemma {:induction false} ParsedIsWire(data: seq<byte>, pos: nat)
    requires ParseLabels(data, pos).Some?
    ensures var p := ParseLabels(data, pos).value;
      p.end == pos + |NameWire(p.labels)| && data[pos..p.end] == NameWire(p.labels)
    decreases |data| - pos
  {
    var p := ParseLabels(data, pos).value;
    if data[pos] != 0 {
      var next := pos + 1 + data[pos] as nat;
      ParsedIsWire(data, next);
      var lbl := data[pos + 1..next];
      assert p.labels[1..] == ParseLabels(data, next).value.labels;
      assert LabelWire(lbl) == data[pos..next];
      assert data[pos..p.end] == data[pos..next] + data[next..p.end];
    }
  }

  /** parse_name consumes one octet per label for its length, the labels'
      octets, and the zero octet: 1 + the sum of (1 + length). */
  lemma ParseNameConsumed(data: seq<byte>, pos: nat)
    requires ParseLabels(data, pos).Some?
    ensures var p := ParseLabels(data, pos).value;
      p.end - pos == 1 + |p.labels| + TotalLength(p.labels)
  {
    ParsedIsWire(data, pos);
    NameWireLength(ParseLabels(data, pos).value.labels);
  }

  /** Conversely, the wire form of valid labels decodes back to those labels,
      whatever follows it. */
  lemma {:induction false} WireIsParsed(data: seq<byte>, pos: nat, labels: seq<seq<byte>>)
    requires ValidLabels(labels)
    requires pos + |NameWire(labels)| <= |data|
    requires data[pos..pos + |NameWire(labels)|] == NameWire(labels)
    ensures ParseLabels(data, pos) == Some(ParsedName(labels, pos + |NameWire(labels)|))
    decreases labels
  {
    if |labels| > 0 {
      var l, tail := labels[0], labels[1..];
      var rest := NameWire(tail);
      var next := pos + 1 + |l|;
      assert [l] + tail == labels;
      assert ValidLabel(l) && ValidLabels(tail) by {
        ValidTail(labels);
      }
      assert data[pos] as nat == |l| && data[pos + 1..next] == l
          && next + |rest| == pos + |NameWire(labels)| && data[next..next + |rest|] == rest by {
        assert NameWire(labels) == LabelWire(l) + rest;
        LabelAt(data, pos, l, rest);
      }
      assert ParseLabels(data, next) == Some(ParsedName(tail, next + |rest|)) by {
        WireIsParsed(data, next, tail);
      }
      ConsParsed(data, pos, l, ParsedName(tail, next + |rest|));
    } else {
      assert data[pos] == NameWire(labels)[0];
    }
  }

  lemma ValidTail(labels: seq<seq<byte>>)
    requires |labels| > 0 && ValidLabels(labels)
    ensures ValidLabel(labels[0]) && ValidLabels(labels[1..])
  {
    forall i | 0 <= i < |labels| - 1 ensures ValidLabel(labels[1..][i]) {
      assert labels[1..][i] == labels[i + 1];
    }
  }

  /** The octets of a label's wire form followed by more octets: the length
      octet, the label, then the rest. */
  lemma LabelAt(data: seq<byte>, pos: nat, l: seq<byte>, rest: seq<byte>)
    requires ValidLabel(l)
    requires pos + |LabelWire(l) + rest| <= |data|
    requires data[pos..pos + |LabelWire(l) + rest|] == LabelWire(l) + rest
    ensures data[pos] as nat == |l| && pos + 1 + |l| + |rest| <= |data|
    ensures data[pos + 1..pos + 1 + |l|] == l
    ensures data[pos + 1 + |l|..pos + 1 + |l| + |rest|] == rest
  {
    SliceSplit(data, pos, LabelWire(l), rest);
    SliceSplit(data, pos, PackC(|l|), l);
    assert data[pos] == PackC(|l|)[0];
  }

  /** One round of the decode loop: a length octet, that many label octets,
      then the rest of the name. */
  lemma ConsParsed(data: seq<byte>, pos: nat, l: seq<byte>, p: ParsedName)
    requires pos + 1 + |l| <= |data| && data[pos] as nat == |l| > 0
    requires data[pos + 1..pos + 1 + |l|] == l
    requires ParseLabels(data, pos + 1 + |l|) == Some(p)
    ensures ParseLabels(data, pos) == Some(ParsedName([l] + p.labels, p.end))
  {
  }

  /** A slice is its three consecutive sub-slices, joined. */
  lemma SliceJoin3(s: seq<byte>, i: nat, j: nat, k: nat, l: nat)
    requires i <= j <= k <= l <= |s|
    ensures s[i..l] == s[i..j] + s[j..k] + s[k..l]
  {
  }

  /** A slice that reads as a + b holds a, then b. */
  lemma SliceSplit(data: seq<byte>, pos: nat, a: seq<byte>, b: seq<byte>)
    requires pos + |a + b| <= |data| && data[pos..pos + |a + b|] == a + b
    ensures data[pos..pos + |a|] == a && data[pos + |a|..pos + |a| + |b|] == b
  {
    var d := data[pos..pos + |a + b|];
    assert data[pos..pos + |a|] == d[..|a|];
    assert data[pos + |a|..pos + |a| + |b|] == d[|a|..];
  }

  /** Both directions at once: decoding from pos yields labels and end exactly
      when the valid labels' wire form sits at data[pos..end]. */
  lemma ParseLabelsIff(data: seq<byte>, pos: nat, labels: seq<seq<byte>>, end: nat)
    ensures ParseLabels(data, pos) == Some(ParsedName(labels, end))
        <==> ValidLabels(labels) && end == pos + |NameWire(labels)| && end <= |data|
             && data[pos..end] == NameWire(labels)
  {
    if ParseLabels(data, pos) == Some(ParsedName(labels, end)) {
      ParsedIsWire(data, pos);
      ParsedLabelsValid(data, pos);
    }
    if ValidLabels(labels) && end == pos + |NameWire(labels)| && end <= |data|
       && data[pos..end] == NameWire(labels) {
      WireIsParsed(data, pos, labels);
    }
  }

  /** The name bytes build_question_section writes for a dotted name: each
      "."-separated part with its length octet, then the zero octet. */
  function EncodeName(qname: seq<byte>): seq<byte>
  {
    NameWire(Split(qname))
  }

  /** Names whose dotted form the encoder splits back into the labels they
      were joined from: labels that are non-empty and contain no dot. */
  predicate Splittable(labels: seq<seq<byte>>)
  {
    forall l :: l in labels ==> |l| > 0 && Dot !in l
  }

  /** Cutting a dot-free label off the front of a dotted text. */
  lemma {:induction false} FieldsCons(l: seq<byte>, t: seq<byte>)
    requires Dot !in l
    ensures Fields(l + [Dot] + t) == [l] + Fields(t)
    decreases |l|
  {
    if |l| == 0 {
      assert l + [Dot] + t == [Dot] + t;
      assert ([Dot] + t)[1..] == t;
    } else {
      assert (l + [Dot] + t)[1..] == l[1..] + [Dot] + t;
      FieldsCons(l[1..], t);
      assert [l[0]] + l[1..] == l;
    }
  }

  /** A dot-free text is a single field. */
  lemma {:induction false} FieldsSingle(l: seq<byte>)
    requires Dot !in l
    ensures Fields(l) == [l]
    decreases |l|
  {
    if |l| > 0 {
      FieldsSingle(l[1..]);
      assert [l[0]] + l[1..] == l;
    }
  }

  /** Splitting at every dot undoes Join for dot-free labels. */
  lemma {:induction false} FieldsJoin(labels: seq<seq<byte>>)
    requires |labels| > 0
    requires forall l :: l in labels ==> Dot !in l
    ensures Fields(Join(labels)) == labels
  {
    if |labels| == 1 {
      FieldsSingle(labels[0]);
    } else {
      FieldsJoin(labels[1..]);
      FieldsCons(labels[0], Join(labels[1..]));
      assert [labels[0]] + labels[1..] == labels;
    }
  }

  /** Ruby's split(".") undoes join(".") when no label is empty or holds a dot. */
  lemma SplitJoin(labels: seq<seq<byte>>)
    requires Splittable(labels)
    ensures Split(Join(labels)) == labels
  {
    if |labels| > 0 {
      FieldsJoin(labels);
      assert labels[|labels| - 1] in labels;
    }
  }

  /** Round trip of the name codec: re-parsing the bytes the encoder writes
      for a dotted name gives back the dotted name, provided every label is
      non-empty, at most 255 octets and free of dots. The decode ends just
      past the encoded name, whatever follows it. */
  lemma NameRoundTrip(labels: seq<seq<byte>>, rest: seq<byte>)
    requires Splittable(labels) && ValidLabels(labels)
    ensures var wire := EncodeName(Join(labels));
      match ParseLabels(wire + rest, 0)
      case None => false
      case Some(p) => Join(p.labels) == Join(labels) && p.end == |wire|
  {
    SplitJoin(labels);
    var wire := EncodeName(Join(labels));
    assert (wire + rest)[..|wire|] == wire;
    WireIsParsed(wire + rest, 0, labels);
  }

  /** The other way round: a name the decoder read is written back octet for
      octet, provided none of its labels holds a dot. */
  lemma EncodeParsedName(data: seq<byte>, pos: nat)
    requires ParseLabels(data, pos).Some?
    requires Splittable(ParseLabels(data, pos).value.labels)
    ensures var p := ParseLabels(data, pos).value;
      EncodeName(Join(p.labels)) == data[pos..p.end]
  {
    var p := ParseLabels(data, pos).value;
    SplitJoin(p.labels);
    ParsedIsWire(data, pos);
  }

  /** A label holding a dot is not written back as it was read: the 3-octet
      label "a.b" comes back as the two labels "a" and "b". */
  lemma DottedLabelIsResplit()
    ensures var data: seq<byte> := [3, 0x61, Dot, 0x62, 0];
      ParseLabels(data, 0) == Some(ParsedName([[0x61, Dot, 0x62]], 5))
      && EncodeName(Join([[0x61, Dot, 0x62]])) == [1, 0x61, 1, 0x62, 0]
      && EncodeName(Join([[0x61, Dot, 0x62]])) != data
  {
    var data: seq<byte> := [3, 0x61, Dot, 0x62, 0];
    var text: seq<byte> := [0x61, Dot, 0x62];
    assert ParseLabels(data, 4) == Some(ParsedName([], 5));
    assert data[1..4] == text;
    assert data[0] as nat == 3 && [text] + [] == [text];
    assert ParseLabels(data, 0) == Some(ParsedName([text], 5));
    FieldsCons([0x61], [0x62]);
    FieldsSingle([0x62]);
    assert [0x61] + [Dot] + [0x62] == text;
    assert Fields(text) == [[0x61], [0x62]];
    assert Split(text) == [[0x61], [0x62]];
    assert Join([text]) == text;
    assert NameWire([[0x62]]) == [1, 0x62, 0];
  }

  /** An empty part writes a zero-length label, that is a zero octet: the
      text ".a" is written as 00 01 61 00, and a reader of that name stops
      at the first octet. */
  lemma LeadingDotEndsName()
    ensures EncodeName([Dot, 0x61]) == [0, 1, 0x61, 0]
    ensures ParseLabels(EncodeName([Dot, 0x61]), 0) == Some(ParsedName([], 1))
  {
    FieldsCons([], [0x61]);
    FieldsSingle([0x61]);
    assert [] + [Dot] + [0x61] == [Dot, 0x61];
    assert Fields([Dot, 0x61]) == [[], [0x61]];
    assert Split([Dot, 0x61]) == [[], [0x61]];
    assert NameWire([[0x61]]) == [1, 0x61, 0];
  }

  /** Trailing empty parts are dropped: the text "a." is written as the one
      label "a", without its dot. */
  lemma TrailingDotDropped()
    ensures EncodeName([0x61, Dot]) == [1, 0x61, 0]
  {
    FieldsCons([0x61], []);
    assert [0x61] + [Dot] + [] == [0x61, Dot];
    assert Fields([0x61, Dot]) == [[0x61], []];
    assert TrimTrailingEmpty([[0x61], []]) == TrimTrailingEmpty([[0x61]]);
    assert Split([0x61, Dot]) == [[0x61]];
  }
}
