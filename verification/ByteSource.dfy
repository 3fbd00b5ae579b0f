/** The byte source a compressed or uncompressed stream is read from, region by region. */
module ByteSource {
  import opened Bytes

  /**
   A source hands out the rest of `data` in flat regions.  How long a region is, is the
   source's own choice at every call: whatever is proved about a reader holds for every
   way of cutting the data into non-empty regions of fewer than 2^32 bytes.
   */
  class Source {
    const data: seq<byte>
    var pos: nat
    /** Counts the calls of `Skip`, each of which invalidates the regions handed out before. */
    ghost var skips: nat

    ghost predicate Valid()
      reads this
    {
      pos <= |data|
    }

    constructor (data: seq<byte>)
      ensures Valid() && this.data == data && pos == 0
    {
      this.data := data;
      pos, skips := 0, 0;
    }

    /** How many bytes are left. */
    function Available(): nat
      requires Valid()
      reads this
    {
      |data| - pos
    }

    /** The next region: empty exactly at the end of the data. */
    method Peek() returns (region: seq<byte>)
      requires Valid()
      ensures region <= data[pos..] && |region| < TWO_TO_THE_32
      ensures region == [] <==> pos == |data|
    {
      if pos == |data| {
        return [];
      }
      assert 1 <= |data| - pos;
      var n: nat :| 1 <= n <= |data| - pos && n < TWO_TO_THE_32;
      region := data[pos..pos + n];
    }

    method Skip(n: nat)
      requires Valid() && pos + n <= |data|
      modifies this
      ensures Valid() && pos == old(pos) + n && skips == old(skips) + 1
    {
      pos := pos + n;
      skips := skips + 1;
    }
  }
}
