/** The read side of the codec: a bounds-checked cursor over an immutable byte
    region. Its source (binary/reader.ts) is not part of this model; every read
    here takes its width in bytes and fails, without moving, when fewer remain. */
module Reader {
  import opened Wrappers
  import opened Bytes

  /** The n bytes at offset at, or Underrun when the region ends first. */
  function Take(data: seq<byte>, at: nat, n: nat): (r: Result<seq<byte>>)
    ensures r.Ok? <==> at + n <= |data|
    ensures r.Ok? ==> |r.value| == n && data[at..at + n] == r.value
  {
    if at + n <= |data| then Ok(data[at..at + n]) else Err(Underrun)
  }

  class BinaryReader {
    const data: seq<byte>
    var head: nat

    ghost predicate Valid()
      reads this
    {
      head <= |data|
    }

    constructor From(bytes: seq<byte>)
      ensures Valid() && data == bytes && head == 0
    {
      data := bytes;
      head := 0;
    }

    /** readString(n) takes n bytes; the UTF-8 decoding is left to the caller. */
    method ReadBytes(n: nat) returns (r: Result<seq<byte>>)
      requires Valid()
      modifies this
      ensures Valid() && r == Take(data, old(head), n)
      ensures head == if r.Ok? then old(head) + n else old(head)
    {
      r := Take(data, head, n);
      if r.Ok? {
        head := head + n;
      }
    }

    method ReadUInt8() returns (r: Result<int>)
      requires Valid()
      modifies this
      ensures Valid() && r.Ok? == Take(data, old(head), 1).Ok?
      ensures r.Ok? ==> r.value == data[old(head)] && head == old(head) + 1
      ensures r.Err? ==> r.error == Underrun && head == old(head)
    {
      var b := ReadBytes(1);
      r := if b.Ok? then Ok(b.value[0]) else Err(Underrun);
    }

    /** An unsigned (or, when signed, two's-complement) little-endian integer of
        the given width. */
    method ReadIntLE(width: nat, signed: bool) returns (r: Result<int>)
      requires Valid()
      modifies this
      ensures Valid()
      ensures r.Ok? == Take(data, old(head), width).Ok?
      ensures r.Ok? ==>
        var u := FromLE(data[old(head)..old(head) + width]);
        r.value == (if signed then Signed(u, width) else u) && head == old(head) + width
      ensures r.Err? ==> r.error == Underrun && head == old(head)
    {
      var b := ReadBytes(width);
      if b.Err? {
        return Err(Underrun);
      }
      var u := FromLE(b.value);
      r := Ok(if signed then Signed(u, width) else u);
    }
  }
}
