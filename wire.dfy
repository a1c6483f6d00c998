/** Octets and the fixed-width big-endian integers of the DNS wire format
    (section 2.3.2 of RFC 1035), as Ruby's Array#pack and String#unpack write
    and read them with the directives 'C', 'n' and 'N'. */
module Wire {

  /** One octet: what unpack('C') yields and pack('C') writes. */
  newtype byte = b: int | 0 <= b < 256

  datatype Option<+T> = None | Some(value: T)

  function Min(a: nat, b: nat): nat {
    if a <= b then a else b
  }

  /** unpack('n') at offset i: the big-endian 16-bit word in s[i], s[i + 1]. */
  function UnpackN(s: seq<byte>, i: nat): (r: nat)
    requires i + 2 <= |s|
    ensures r < 0x1_0000
  {
    s[i] as nat * 256 + s[i + 1] as nat
  }

  /** pack('C'): one octet; like Ruby, keeps only the low 8 bits of v. */
  function PackC(v: nat): (r: seq<byte>)
    ensures |r| == 1 && r[0] as nat == v % 256
  {
    [(v % 256) as byte]
  }

  /** pack('n'): a big-endian 16-bit word; like Ruby, keeps only the low 16 bits of v. */
  function PackN(v: nat): (r: seq<byte>)
    ensures |r| == 2 && UnpackN(r, 0) == v % 0x1_0000
  {
    LowWord(v);
    [(v / 256 % 256) as byte, (v % 256) as byte]
  }

  lemma LowWord(v: nat)
    ensures (v / 256 % 256) * 256 + v % 256 == v % 0x1_0000
  {
    var hi, lo := v / 0x1_0000, v % 0x1_0000;
    assert v == hi * 0x1_0000 + lo;
    assert v / 256 == hi * 256 + lo / 256;
    assert v % 256 == lo % 256;
  }

  /** pack('N'): a big-endian 32-bit word, the high 16 bits first. */
  function PackBigN(v: nat): (r: seq<byte>)
    ensures |r| == 4
    ensures UnpackN(r, 0) * 0x1_0000 + UnpackN(r, 2) == v % 0x1_0000_0000
  {
    LowDoubleWord(v);
    PackN(v / 0x1_0000) + PackN(v)
  }

  lemma LowDoubleWord(v: nat)
    ensures (v / 0x1_0000 % 0x1_0000) * 0x1_0000 + v % 0x1_0000 == v % 0x1_0000_0000
  {
    var hi, lo := v / 0x1_0000_0000, v % 0x1_0000_0000;
    assert v == hi * 0x1_0000_0000 + lo;
    assert v / 0x1_0000 == hi * 0x1_0000 + lo / 0x1_0000;
    assert v % 0x1_0000 == lo % 0x1_0000;
  }

  /** pack('n*'): each value as a big-endian 16-bit word, in order. */
  function PackNs(vs: seq<nat>): (r: seq<byte>)
    ensures |r| == 2 * |vs|
  {
    if |vs| == 0 then []
    else
      var rest := PackNs(vs[1..]);
      PackN(vs[0]) + rest
  }

  /** Packing a word that unpack('n') produced gives back the two octets it came from. */
  lemma {:induction false} PackUnpackN(s: seq<byte>, i: nat)
    requires i + 2 <= |s|
    ensures PackN(UnpackN(s, i)) == s[i..i + 2]
  {
    var hi, lo := s[i] as nat, s[i + 1] as nat;
    var w := UnpackN(s, i);
    assert w == hi * 256 + lo;
    assert w / 256 == hi && w % 256 == lo;
    var r := PackN(w);
    assert r[0] as nat == hi && r[1] as nat == lo;
  }

  /** pack('n*') of six values is the six packed words in order. */
  lemma PackNsSix(vs: seq<nat>)
    requires |vs| == 6
    ensures PackNs(vs)
         == PackN(vs[0]) + (PackN(vs[1]) + (PackN(vs[2]) + (PackN(vs[3]) + (PackN(vs[4]) + PackN(vs[5])))))
  {
    PackNsCons(vs, 0);
    PackNsCons(vs, 1);
    PackNsCons(vs, 2);
    PackNsCons(vs, 3);
    PackNsCons(vs, 4);
    PackNsCons(vs, 5);
    assert PackNs(vs[6..]) == [];
    assert PackN(vs[5]) + [] == PackN(vs[5]);
  }

  /** pack('n*') writes the first value, then the rest. */
  lemma PackNsCons(vs: seq<nat>, k: nat)
    requires k < |vs|
    ensures PackNs(vs[k..]) == PackN(vs[k]) + PackNs(vs[k + 1..])
  {
    assert vs[k..][1..] == vs[k + 1..];
  }
}
