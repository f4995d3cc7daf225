/** The bounded cursor both record readers advance. A short read returns nothing where the scripts raise. */
module Cursors {
  import opened Bytes
  import opened Wrappers

  function ReadU64(d: seq<int>, pos: nat): Option<(int, nat)> {
    if pos + 8 > |d| then None else Some((UnBE(d[pos..pos + 8]), pos + 8))
  }

  class Cursor {
    const data: seq<int>
    var offset: nat

    constructor (data: seq<int>)
      ensures this.data == data && offset == 0
    {
      this.data := data;
      offset := 0;
    }

    /** The next `count` bytes, or nothing, without moving, when fewer are left. */
    method Take(count: nat) returns (r: Option<seq<int>>)
      requires offset <= |data|
      modifies this`offset
      ensures offset <= |data|
      ensures r.Some? <==> old(offset) + count <= |data|
      ensures r.Some? ==> offset == old(offset) + count && r.value == data[old(offset)..offset]
      ensures r.None? ==> offset == old(offset)
    {
      if offset + count > |data| { return None; }
      var start := offset;
      offset := offset + count;
      return Some(data[start..offset]);
    }

    method TakeU32() returns (r: Option<int>)
      requires offset <= |data|
      modifies this`offset
      ensures offset <= |data|
      ensures r.Some? <==> old(offset) + 4 <= |data|
      ensures r.Some? ==> offset == old(offset) + 4 && r.value == UnBE(data[old(offset)..offset])
      ensures r.None? ==> offset == old(offset)
    {
      var bytes := Take(4);
      return match bytes case None => None case Some(s) => Some(UnBE(s));
    }

    method TakeU64() returns (r: Option<int>)
      requires offset <= |data|
      modifies this`offset
      ensures offset <= |data|
      ensures match ReadU64(data, old(offset))
              case None => r.None? && offset == old(offset)
              case Some((n, end)) => r == Some(n) && offset == end
    {
      var bytes := Take(8);
      return match bytes case None => None case Some(s) => Some(UnBE(s));
    }
  }
}
