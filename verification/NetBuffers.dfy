/** Multi-part buffers: a sequence of chunks, each at some address in memory. */
module NetBuffers {
  datatype Chunk<T> = Chunk(address: nat, data: seq<T>)

  /** The bytes of a buffer, chunk after chunk. */
  function Flat<T>(chunks: seq<Chunk<T>>): seq<T> {
    if chunks == [] then [] else chunks[0].data + Flat(chunks[1..])
  }

  /** Bytes [offset, offset + length) of a buffer, or those of them that exist. */
  function Slice<T>(s: seq<T>, offset: nat, length: nat): seq<T> {
    if offset >= |s| then [] else if offset + length >= |s| then s[offset..] else s[offset..offset + length]
  }

  lemma SliceConcat<T>(d: seq<T>, rest: seq<T>, offset: nat, length: nat)
    ensures offset >= |d| ==> Slice(d + rest, offset, length) == Slice(rest, offset - |d|, length)
    ensures offset < |d| ==>
              var n := if |d| - offset < length then |d| - offset else length;
              Slice(d + rest, offset, length) == d[offset..offset + n] + Slice(rest, 0, length - n)
  {
    var s := d + rest;
    if offset >= |d| {
      if offset < |s| && offset + length >= |s| {
        assert s[offset..] == rest[offset - |d|..];
      } else if offset < |s| {
        assert s[offset..offset + length] == rest[offset - |d|..offset - |d| + length];
      }
    } else if |d| - offset < length {
      var n := |d| - offset;
      if offset + length >= |s| {
        assert s[offset..] == d[offset..] + rest;
        assert d[offset..offset + n] == d[offset..];
        assert Slice(rest, 0, length - n) == rest;
      } else {
        assert s[offset..offset + length] == d[offset..offset + n] + rest[0..length - n];
      }
    } else {
      assert Slice(rest, 0, 0) == [];
      assert Slice(s, offset, length) == d[offset..offset + length];
    }
  }

  /** Walking over one chunk: skip it, or take what it has from `offset` on and continue at the next one's start. */
  lemma {:induction false} SliceStep<T>(chunks: seq<Chunk<T>>, offset: nat, length: nat)
    requires chunks != []
    ensures var d := chunks[0].data;
            if offset >= |d| then Slice(Flat(chunks), offset, length) == Slice(Flat(chunks[1..]), offset - |d|, length)
            else
              var n := if |d| - offset < length then |d| - offset else length;
              Slice(Flat(chunks), offset, length) == d[offset..offset + n] + Slice(Flat(chunks[1..]), 0, length - n)
  {
    SliceConcat(chunks[0].data, Flat(chunks[1..]), offset, length);
  }

  /** Nothing is left once the chunks or the bytes wanted have run out. */
  lemma {:induction false} WalkEnds<T>(chunks: seq<Chunk<T>>, offset: nat, length: nat)
    requires chunks == [] || length == 0
    ensures Slice(Flat(chunks), offset, length) == []
  {
  }
}
