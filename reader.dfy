/** The read cursor the decoders share: Ruby's StringIO over the received
    datagram, used only through StringIO#read. */
module Reader {
  import opened Wire

  class ByteReader {
    /** The datagram; the decoders never change it. */
    const data: seq<byte>
    /** The offset of the next unread octet. */
    var pos: nat

    ghost predicate Valid()
      reads this
    {
      pos <= |data|
    }

    /** StringIO.new(query): a cursor at the start of the query. */
    constructor (query: seq<byte>)
      ensures Valid() && data == query && pos == 0
    {
      data := query;
      pos := 0;
    }

    /** StringIO#read(n): nil when n > 0 and the input is used up; otherwise
        the next n octets, or as many as remain, with the cursor moved past
        them. */
    method Read(n: nat) returns (r: Option<seq<byte>>)
      requires Valid()
      modifies this
      ensures Valid()
      ensures n > 0 && old(pos) == |data| ==> r == None && pos == old(pos)
      ensures !(n > 0 && old(pos) == |data|) ==>
        pos == Min(old(pos) + n, |data|) && r == Some(data[old(pos)..pos])
    {
      if n > 0 && pos == |data| {
        return None;
      }
      var stop := Min(pos + n, |data|);
      r := Some(data[pos..stop]);
      pos := stop;
    }
  }
}
