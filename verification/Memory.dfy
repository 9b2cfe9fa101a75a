/** The memory of a heap: how much of it the kernel has committed, and the bytes its users see. */
module Memories {

  /** One byte of user data. */
  function ByteAt(m: map<int, int>, a: int): int {
    if a in m then m[a] else 0
  }

  /** Byte a after n bytes from src have been copied to dst. */
  function Copied(m: map<int, int>, dst: int, src: int, n: int, a: int): int {
    if dst <= a < dst + n then ByteAt(m, src + (a - dst)) else ByteAt(m, a)
  }

  class Memory {
    /** Bytes committed for the whole heap. */
    var size: int
    var data: map<int, int>
    const maxLength: int

    constructor (size: int, maxLength: int)
      ensures this.size == size && this.maxLength == maxLength && data == map[]
    {
      this.size, this.maxLength, data := size, maxLength, map[];
    }

    /** Map: more memory is committed, if the heap may grow that far and the kernel grants it; a negative size is
        refused. */
    method Map(sz: int, grant: bool) returns (ok: bool)
      modifies this`size
      ensures ok ==> 0 <= sz && size == old(size) + sz <= maxLength && grant
      ensures !ok ==> size == old(size)
      ensures 0 <= sz && old(size) + sz <= maxLength && grant ==> ok
    {
      ok := false;
      if size + sz <= maxLength && 0 <= sz && grant {
        size := size + sz;
        ok := true;
      }
    }

    /** Unmap */
    method Unmap(sz: int)
      modifies this`size
      ensures size == old(size) - sz
    {
      size := size - sz;
    }

    /** memcpy between blocks that do not overlap. */
    method CopyBytes(dst: int, src: int, n: nat)
      requires src + n <= dst || dst + n <= src
      modifies this`data
      ensures forall a :: ByteAt(data, a) == Copied(old(data), dst, src, n, a)
    {
      ghost var was := data;
      var i := 0;
      while i < n
        invariant 0 <= i <= n
        invariant forall a :: ByteAt(data, a) == Copied(was, dst, src, i, a)
      {
        ghost var d := data;
        assert ByteAt(d, src + i) == ByteAt(was, src + i);
        data := data[dst + i := ByteAt(data, src + i)];
        forall a ensures ByteAt(data, a) == Copied(was, dst, src, i + 1, a) {
          assert ByteAt(d, a) == Copied(was, dst, src, i, a);
        }
        i := i + 1;
      }
    }
  }
}
