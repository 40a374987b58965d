/** The growable byte buffer of binary/writer.ts: a region, a write head, and one
    append operation per primitive layout. */
module Writer {
  import opened Wrappers
  import opened Bytes

  /** The capacity incrHead asks realloc for: the larger of doubling the region and
      growing it by exactly the increment (binary/writer.ts:33). */
  function Grown(capacity: nat, increment: nat): (r: nat)
    ensures r >= 2 * capacity && r >= capacity + increment
    ensures r == 2 * capacity || r == capacity + increment
  {
    if increment + capacity > capacity * 2 then increment + capacity else capacity * 2
  }

  /** A region resized to n bytes: the first min(|s|, n) bytes kept, the rest zero. */
  function Resized(s: seq<byte>, n: nat): (r: seq<byte>)
    ensures |r| == n
    ensures forall i :: 0 <= i < n ==> r[i] == (if i < |s| then s[i] else 0)
  {
    if n <= |s| then s[..n] else s + Zeros(n - |s|)
  }

  // ---------------------------------------------------------------------------
  // The 24- and 48-bit layouts, built byte by byte as the source does.

  /** JavaScript `~~(v / d)` for an integral v: division truncated toward zero. */
  function TruncDiv(v: int, d: int): int
    requires d > 0
  {
    if v >= 0 then v / d else -((-v) / d)
  }

  /** `~~(v / d) & 0xff`: the low eight bits of the truncated quotient. */
  function QuotientByte(v: int, d: int): byte
    requires d > 0
  {
    TruncDiv(v, d) % 256
  }

  function UInt24LEBytes(v: int): seq<byte>
  {
    [v % 256, QuotientByte(v, 0x100), QuotientByte(v, 0x1_0000)]
  }

  function UInt24BEBytes(v: int): seq<byte>
  {
    [QuotientByte(v, 0x1_0000), QuotientByte(v, 0x100), v % 256]
  }

  function UInt48LEBytes(v: int): seq<byte>
  {
    [v % 256, QuotientByte(v, 0x100), QuotientByte(v, 0x1_0000), QuotientByte(v, 0x100_0000),
     QuotientByte(v, 0x1_0000_0000), QuotientByte(v, 0x100_0000_0000)]
  }

  function UInt48BEBytes(v: int): seq<byte>
  {
    [QuotientByte(v, 0x100_0000_0000), QuotientByte(v, 0x1_0000_0000), QuotientByte(v, 0x100_0000),
     QuotientByte(v, 0x1_0000), QuotientByte(v, 0x100), v % 256]
  }

  /** The value writeSInt24* hands to writeUInt24*: negatives folded as
      0xFFFFFF - (-v - 1). */
  function Fold24(v: int): int
  {
    if v >= 0 then v else 0xFF_FF_FF - ((v * -1) - 1)
  }

  /** The value writeSInt48* hands to writeUInt48*. */
  function Fold48(v: int): int
  {
    if v >= 0 then v else 0xFFFFFF_FFFFFF - ((v * -1) - 1)
  }

  /** For a non-negative value the byte-by-byte 24-bit writers produce the plain
      little- and big-endian layouts of v modulo 2^24. */
  lemma UInt24IsFixedWidth(v: int)
    requires v >= 0
    ensures UInt24LEBytes(v) == LE(v, 3)
    ensures UInt24BEBytes(v) == BE(v, 3)
  {
  }

  /** The signed 24-bit writers store v in two's complement for every v >= -2^24:
      for a negative v the bytes of 2^24 + v. */
  lemma SInt24IsTwosComplement(v: int)
    requires v >= -0x100_0000
    ensures UInt24LEBytes(Fold24(v)) == LE(v, 3)
    ensures UInt24BEBytes(Fold24(v)) == BE(v, 3)
    ensures v < 0 ==> Fold24(v) == 0x100_0000 + v
  {
    var f := Fold24(v);
    UInt24IsFixedWidth(f);
    if v < 0 {
      assert Pow256(3) == 0x100_0000;
      LEMod(v, 3);
      LEMod(f, 3);
      DivModUnique(v, 0x100_0000, -1, f);
      DivModUnique(f, 0x100_0000, 0, f);
      assert LE(f, 3) == LE(v, 3);
      BEIsReversedLE(v, 3);
      BEIsReversedLE(f, 3);
    }
  }

  lemma SInt24MinusOne()
    ensures UInt24LEBytes(Fold24(-1)) == [0xFF, 0xFF, 0xFF]
    ensures UInt24BEBytes(Fold24(-1)) == [0xFF, 0xFF, 0xFF]
  {
  }

  /** Called directly with a negative number, writeUInt24LE does not fold it: the
      truncating quotients of -1 are 0, so only the low byte is 0xFF. */
  lemma UInt24LENegativeUnfolded()
    ensures UInt24LEBytes(-1) == [0xFF, 0x00, 0x00]
  {
  }

  lemma UInt48IsFixedWidth(v: int)
    requires v >= 0
    ensures UInt48LEBytes(v) == LE(v, 6)
    ensures UInt48BEBytes(v) == BE(v, 6)
  {
    assert Pow256(5) == 0x100_0000_0000;
    LEDigit(v, 6, 0);
    LEDigit(v, 6, 1);
    LEDigit(v, 6, 2);
    LEDigit(v, 6, 3);
    LEDigit(v, 6, 4);
    LEDigit(v, 6, 5);
    assert UInt48LEBytes(v) == LE(v, 6);
    BEIsReversedLE(v, 6);
  }

  /** The signed 48-bit writers store v in two's complement for every v >= -2^48. */
  lemma SInt48IsTwosComplement(v: int)
    requires v >= -0x1_0000_0000_0000
    ensures UInt48LEBytes(Fold48(v)) == LE(v, 6)
    ensures UInt48BEBytes(Fold48(v)) == BE(v, 6)
    ensures v < 0 ==> Fold48(v) == 0x1_0000_0000_0000 + v
  {
    var f := Fold48(v);
    UInt48IsFixedWidth(f);
    if v < 0 {
      assert Pow256(6) == 0x1_0000_0000_0000;
      LEMod(v, 6);
      LEMod(f, 6);
      DivModUnique(v, 0x1_0000_0000_0000, -1, f);
      DivModUnique(f, 0x1_0000_0000_0000, 0, f);
      assert LE(f, 6) == LE(v, 6);
      BEIsReversedLE(v, 6);
      BEIsReversedLE(f, 6);
    }
  }

  // ---------------------------------------------------------------------------
  // The packed (LEB128) layout of writePackedUInt32.

  /** `b |= 0x80` on a byte. */
  function Or80(b: byte): byte
  {
    if b >= 0x80 then b else b + 0x80
  }

  /** The byte one round of the do-while loop emits for the current value. */
  function PackedByte(v: int): byte
  {
    if v >= 0x80 then Or80(v % 256) else v % 256
  }

  /** `value >>>= 7`: unsigned 32-bit conversion, then a shift by seven. */
  function PackedNext(v: int): int
  {
    (v % 0x1_0000_0000) / 128
  }

  function PackedMeasure(v: int): nat
  {
    if 0 <= v < 0x1_0000_0000 then v else 0x1_0000_0000
  }

  /** The bytes writePackedUInt32 emits for v, one per round of its loop. */
  function PackedUInt32(v: int): (r: seq<byte>)
    ensures |r| >= 1
    decreases PackedMeasure(v)
  {
    var next := PackedNext(v);
    [PackedByte(v)] + (if next == 0 then [] else PackedUInt32(next))
  }

  function Pow128(n: nat): (r: int)
    ensures r > 0
  {
    if n == 0 then 1 else 128 * Pow128(n - 1)
  }

  /** The number a LEB128 sequence denotes: the sum of (b_i & 0x7F) * 128^i. */
  function VarintValue(s: seq<byte>): int
  {
    if s == [] then 0 else s[0] % 128 + 128 * VarintValue(s[1..])
  }

  /** Every byte but the last carries the continuation bit, the last does not. */
  predicate Terminated(s: seq<byte>)
  {
    |s| >= 1 && (forall i :: 0 <= i < |s| - 1 ==> s[i] >= 0x80) && s[|s| - 1] < 0x80
  }

  /** A LEB128 reader in the sense of section 7.6 of DWARF 4: the value of the
      first terminated run of bytes and the number of bytes it took. */
  function ReadVarint(s: seq<byte>): Option<(int, nat)>
  {
    if s == [] then None
    else if s[0] < 0x80 then Some((s[0], 1))
    else match ReadVarint(s[1..])
      case None => None
      case Some((x, k)) => Some((s[0] - 0x80 + 128 * x, k + 1))
  }

  /** One round of the loop on an unsigned 32-bit value: the low seven bits, flagged
      when more follow, and the value shifted right by seven. */
  lemma PackedStep(v: int)
    requires 0 <= v < 0x1_0000_0000
    ensures PackedNext(v) == v / 128
    ensures PackedNext(v) == 0 <==> v < 0x80
    ensures v < 0x80 ==> PackedByte(v) == v
    ensures v >= 0x80 ==> PackedByte(v) == v % 128 + 0x80
  {
  }

  /** The loop of writePackedUInt32 after emitting one byte: what is left to
      write is the encoding of the shifted value, or nothing once it is zero. */
  lemma PackedEmits(written: seq<byte>, total: seq<byte>, value: int)
    requires written + PackedUInt32(value) == total
    ensures PackedNext(value) != 0 ==> (written + [PackedByte(value)]) + PackedUInt32(PackedNext(value)) == total
    ensures PackedNext(value) == 0 ==> written + [PackedByte(value)] == total
  {
    PackedProgress(value);
    var rest := if PackedNext(value) == 0 then [] else PackedUInt32(PackedNext(value));
    assert PackedUInt32(value) == [PackedByte(value)] + rest;
    assert written + ([PackedByte(value)] + rest) == (written + [PackedByte(value)]) + rest;
  }

  /** Each round of the loop brings the measure down, outside the 32-bit domain too. */
  lemma PackedProgress(v: int)
    ensures PackedNext(v) != 0 ==> PackedMeasure(PackedNext(v)) < PackedMeasure(v)
  {
  }

  /** A continued byte in front of a terminated run stays terminated and adds its
      low seven bits below the run's value. */
  lemma VarintCons(b: byte, tail: seq<byte>)
    requires b >= 0x80 && Terminated(tail)
    ensures Terminated([b] + tail)
    ensures VarintValue([b] + tail) == b % 128 + 128 * VarintValue(tail)
  {
    var s := [b] + tail;
    assert s[1..] == tail;
    assert forall i :: 1 <= i < |s| ==> s[i] == tail[i - 1];
  }

  /** For an unsigned 32-bit v the packed layout is terminated and denotes v. */
  lemma {:induction false} PackedUInt32Denotes(v: int)
    requires 0 <= v < 0x1_0000_0000
    ensures Terminated(PackedUInt32(v))
    ensures VarintValue(PackedUInt32(v)) == v
    decreases v
  {
    PackedStep(v);
    var next := PackedNext(v);
    if next != 0 {
      var b, tail := PackedByte(v), PackedUInt32(next);
      assert PackedUInt32(v) == [b] + tail;
      PackedUInt32Denotes(next);
      VarintCons(b, tail);
      DivModUnique(b, 128, 1, v % 128);
      assert b % 128 + 128 * next == v;
    } else {
      assert PackedUInt32(v) == [v];
    }
  }

  /** The packed layout is as short as it can be: ceil(bits(v) / 7) bytes, at least
      one, so at most five for an unsigned 32-bit value. */
  lemma {:induction false} PackedUInt32Length(v: int)
    requires 0 <= v < 0x1_0000_0000
    ensures v < Pow128(|PackedUInt32(v)|)
    ensures |PackedUInt32(v)| > 1 ==> Pow128(|PackedUInt32(v)| - 1) <= v
    ensures |PackedUInt32(v)| <= 5
    decreases v
  {
    PackedStep(v);
    var next := PackedNext(v);
    if next != 0 {
      PackedUInt32Length(next);
    }
  }

  /** Reading the packed layout of v back, whatever follows it, gives v and the
      layout's length. */
  lemma {:induction false} PackedUInt32RoundTrip(v: int, rest: seq<byte>)
    requires 0 <= v < 0x1_0000_0000
    ensures ReadVarint(PackedUInt32(v) + rest) == Some((v, |PackedUInt32(v)|))
    decreases v
  {
    PackedStep(v);
    var next := PackedNext(v);
    var s := PackedUInt32(v) + rest;
    if next != 0 {
      var tail := PackedUInt32(next) + rest;
      assert s == [PackedByte(v)] + tail;
      assert s[0] >= 0x80 && s[1..] == tail;
      PackedUInt32RoundTrip(next, rest);
      assert s[0] - 0x80 + 128 * next == v;
    } else {
      assert s[0] == v < 0x80;
    }
  }

  /** writePackedSInt32 has no zig-zag step: every negative 32-bit value takes the
      full five bytes of its unsigned reinterpretation. */
  lemma PackedSInt32Negative(v: int)
    requires -0x8000_0000 <= v < 0
    ensures |PackedUInt32(v % 0x1_0000_0000)| == 5
  {
    var u := v % 0x1_0000_0000;
    PackedUInt32Length(u);
    assert u >= 0x8000_0000;
    assert Pow128(4) == 0x1000_0000;
  }

  /** Outside the unsigned 32-bit domain the loop misbehaves: 2^32 comes out as a
      lone continuation byte, and -129 starts with an unflagged 0x7F yet goes on. */
  lemma PackedOutsideUInt32()
    ensures PackedUInt32(0x1_0000_0000) == [0x80]
    ensures PackedUInt32(-129)[0] == 0x7F && |PackedUInt32(-129)| > 1
  {
  }

  /** Appending the bytes one writeUInt8 at a time appends them all. */
  lemma ThreeAppends(c: seq<byte>, b: seq<byte>)
    requires |b| == 3
    ensures c + [b[0] % 256] + [b[1] % 256] + [b[2] % 256] == c + b
  {
  }

  lemma SixAppends(c: seq<byte>, b: seq<byte>)
    requires |b| == 6
    ensures c + [b[0] % 256] + [b[1] % 256] + [b[2] % 256] + [b[3] % 256] + [b[4] % 256] + [b[5] % 256] == c + b
  {
  }

  // ---------------------------------------------------------------------------

  /** BinaryWriter: `buffer` is the current region, `writeHead` the number of bytes
      written so far. */
  class BinaryWriter {
    var buffer: array<byte>
    var writeHead: nat
    /** Every region this writer has held, the current one included. */
    ghost var Repr: set<object>
    /** The bytes before the write head. */
    ghost var written: seq<byte>

    ghost predicate Valid()
      reads this, buffer
    {
      this in Repr && buffer in Repr && writeHead <= buffer.Length && |written| == writeHead
      && forall i {:trigger buffer[i]} :: 0 <= i < writeHead ==> buffer[i] == written[i]
    }

    /** What has been written so far. */
    ghost function Contents(): (r: seq<byte>)
      reads this
    {
      written
    }

    /** BinaryWriter.allocate(size): a zeroed region of size bytes, nothing written. */
    constructor Allocate(size: nat)
      ensures Valid() && fresh(Repr) && fresh(buffer)
      ensures buffer.Length == size && buffer[..] == Zeros(size)
      ensures writeHead == 0 && Contents() == []
    {
      buffer := new byte[size](_ => 0);
      writeHead := 0;
      written := [];
      Repr := {this, buffer};
    }

    /** Replaces the region by one of newSize bytes holding the old bytes that fit. */
    method Realloc(newSize: nat)
      modifies this
      ensures writeHead == old(writeHead) && written == old(written)
      ensures buffer.Length == newSize && buffer[..] == Resized(old(buffer[..]), newSize)
      ensures newSize == old(buffer.Length) ==> buffer == old(buffer)
      ensures newSize != old(buffer.Length) ==> fresh(buffer)
      ensures Repr == old(Repr) + {buffer}
    {
      if newSize == buffer.Length {
        Repr := Repr + {buffer};
        return;
      }
      var oldBuffer := buffer;
      var newBuffer := new byte[newSize](_ => 0);
      var kept := if newSize < oldBuffer.Length then newSize else oldBuffer.Length;
      forall i | 0 <= i < kept {
        newBuffer[i] := oldBuffer[i];
      }
      buffer := newBuffer;
      Repr := Repr + {newBuffer};
    }

    /** Cuts the region down to exactly the bytes written. */
    method Truncate()
      requires Valid()
      modifies this
      ensures Valid() && writeHead == old(writeHead)
      ensures buffer.Length == writeHead && buffer[..] == old(Contents())
      ensures fresh(Repr - old(Repr))
    {
      Realloc(writeHead);
    }

    predicate HasBytesLeftToWrite(plus: int)
      reads this
    {
      writeHead + plus < buffer.Length
    }

    /** Reserves value bytes at the head and returns where they start, growing the
        region once, to Grown(capacity, value), when they do not fit. */
    method IncrHead(value: nat) returns (head: nat)
      requires Valid()
      modifies this
      ensures Valid()
      ensures head == old(writeHead) && writeHead == old(writeHead) + value
      ensures buffer[..head] == old(Contents())
      ensures old(writeHead) + value <= old(buffer.Length) ==> buffer == old(buffer)
      ensures old(writeHead) + value > old(buffer.Length) ==>
        fresh(buffer) && buffer.Length == Grown(old(buffer.Length), value)
      ensures fresh(Repr - old(Repr))
    {
      ghost var reallocs := 0;
      while !HasBytesLeftToWrite(value - 1)
        invariant writeHead == old(writeHead) && written == old(written) && Valid()
        invariant fresh(Repr - old(Repr))
        invariant buffer[..writeHead] == old(Contents())
        invariant reallocs <= 1
        invariant reallocs == 0 ==> buffer == old(buffer)
        invariant reallocs == 1 ==> old(writeHead) + value > old(buffer.Length)
        invariant reallocs == 1 ==>
          fresh(buffer) && buffer.Length == Grown(old(buffer.Length), value)
          && writeHead + value <= buffer.Length
        decreases writeHead + value - buffer.Length
      {
        Realloc(Grown(buffer.Length, value));
        reallocs := reallocs + 1;
      }
      head := writeHead;
      writeHead := writeHead + value;
      written := buffer[..writeHead];
    }

    /** Truncates the region to the bytes written and hands it out. */
    method GetBuffer() returns (r: array<byte>)
      requires Valid()
      modifies this
      ensures Valid() && r == buffer && writeHead == old(writeHead)
      ensures r.Length == writeHead && r[..] == old(Contents())
      ensures Contents() == old(Contents())
      ensures fresh(Repr - old(Repr))
    {
      Truncate();
      r := buffer;
    }

    method WriteBoolean(flag: bool)
      requires Valid()
      modifies Repr
      ensures Valid() && Contents() == old(Contents()) + [if flag then 1 else 0]
      ensures fresh(Repr - old(Repr))
    {
      WriteUInt8(if flag then 1 else 0);
    }

    method WriteSInt8(value: int)
      requires Valid()
      modifies Repr
      ensures Valid() && Contents() == old(Contents()) + [value % 256]
      ensures fresh(Repr - old(Repr))
    {
      var head := IncrHead(1);
      CopyInto(buffer, head, [value % 256]);
      written := old(written) + [value % 256];
    }

    method WriteUInt8(value: int)
      requires Valid()
      modifies Repr
      ensures Valid() && Contents() == old(Contents()) + [value % 256]
      ensures fresh(Repr - old(Repr))
    {
      var head := IncrHead(1);
      CopyInto(buffer, head, [value % 256]);
      written := old(written) + [value % 256];
    }

    method WriteSInt16LE(value: int)
      requires Valid()
      modifies Repr
      ensures Valid() && Contents() == old(Contents()) + LE(value, 2)
      ensures fresh(Repr - old(Repr))
    {
      var head := IncrHead(2);
      CopyInto(buffer, head, LE(value, 2));
      written := old(written) + LE(value, 2);
    }

    method WriteUInt16LE(value: int)
      requires Valid()
      modifies Repr
      ensures Valid() && Contents() == old(Contents()) + LE(value, 2)
      ensures fresh(Repr - old(Repr))
    {
      var head := IncrHead(2);
      CopyInto(buffer, head, LE(value, 2));
      written := old(written) + LE(value, 2);
    }

    method WriteSInt16BE(value: int)
      requires Valid()
      modifies Repr
      ensures Valid() && Contents() == old(Contents()) + BE(value, 2)
      ensures fresh(Repr - old(Repr))
    {
      var head := IncrHead(2);
      CopyInto(buffer, head, BE(value, 2));
      written := old(written) + BE(value, 2);
    }

    method WriteUInt16BE(value: int)
      requires Valid()
      modifies Repr
      ensures Valid() && Contents() == old(Contents()) + BE(value, 2)
      ensures fresh(Repr - old(Repr))
    {
      var head := IncrHead(2);
      CopyInto(buffer, head, BE(value, 2));
      written := old(written) + BE(value, 2);
    }

    method WriteSInt24LE(value: int)
      requires Valid()
      modifies Repr
      ensures Valid() && Contents() == old(Contents()) + UInt24LEBytes(Fold24(value))
      ensures fresh(Repr - old(Repr))
    {
      if value >= 0 {
        WriteUInt24LE(value);
        return;
      }
      WriteUInt24LE(0xFF_FF_FF - ((value * -1) - 1));
    }

    method WriteUInt24LE(value: int)
      requires Valid()
      modifies Repr
      ensures Valid() && Contents() == old(Contents()) + UInt24LEBytes(value)
      ensures fresh(Repr - old(Repr))
    {
      // one writeUInt8 per byte, each `~~(value / 2^k) & 0xff`
      var bytes := UInt24LEBytes(value);
      ghost var c := Contents();
      WriteUInt8(bytes[0]);
      WriteUInt8(bytes[1]);
      WriteUInt8(bytes[2]);
      ThreeAppends(c, bytes);
    }

    method WriteSInt24BE(value: int)
      requires Valid()
      modifies Repr
      ensures Valid() && Contents() == old(Contents()) + UInt24BEBytes(Fold24(value))
      ensures fresh(Repr - old(Repr))
    {
      if value >= 0 {
        WriteUInt24BE(value);
        return;
      }
      WriteUInt24BE(0xFF_FF_FF - ((value * -1) - 1));
    }

    method WriteUInt24BE(value: int)
      requires Valid()
      modifies Repr
      ensures Valid() && Contents() == old(Contents()) + UInt24BEBytes(value)
      ensures fresh(Repr - old(Repr))
    {
      // one writeUInt8 per byte, each `~~(value / 2^k) & 0xff`
      var bytes := UInt24BEBytes(value);
      ghost var c := Contents();
      WriteUInt8(bytes[0]);
      WriteUInt8(bytes[1]);
      WriteUInt8(bytes[2]);
      ThreeAppends(c, bytes);
    }

    method WriteSInt32LE(value: int)
      requires Valid()
      modifies Repr
      ensures Valid() && Contents() == old(Contents()) + LE(value, 4)
      ensures fresh(Repr - old(Repr))
    {
      var head := IncrHead(4);
      CopyInto(buffer, head, LE(value, 4));
      written := old(written) + LE(value, 4);
    }

    method WriteUInt32LE(value: int)
      requires Valid()
      modifies Repr
      ensures Valid() && Contents() == old(Contents()) + LE(value, 4)
      ensures fresh(Repr - old(Repr))
    {
      var head := IncrHead(4);
      CopyInto(buffer, head, LE(value, 4));
      written := old(written) + LE(value, 4);
    }

    method WriteSInt32BE(value: int)
      requires Valid()
      modifies Repr
      ensures Valid() && Contents() == old(Contents()) + BE(value, 4)
      ensures fresh(Repr - old(Repr))
    {
      var head := IncrHead(4);
      CopyInto(buffer, head, BE(value, 4));
      written := old(written) + BE(value, 4);
    }

    method WriteUInt32BE(value: int)
      requires Valid()
      modifies Repr
      ensures Valid() && Contents() == old(Contents()) + BE(value, 4)
      ensures fresh(Repr - old(Repr))
    {
      var head := IncrHead(4);
      CopyInto(buffer, head, BE(value, 4));
      written := old(written) + BE(value, 4);
    }

    method WriteSInt48LE(value: int)
      requires Valid()
      modifies Repr
      ensures Valid() && Contents() == old(Contents()) + UInt48LEBytes(Fold48(value))
      ensures fresh(Repr - old(Repr))
    {
      if value >= 0 {
        WriteUInt48LE(value);
        return;
      }
      WriteUInt48LE(0xFFFFFF_FFFFFF - ((value * -1) - 1));
    }

    method WriteUInt48LE(value: int)
      requires Valid()
      modifies Repr
      ensures Valid() && Contents() == old(Contents()) + UInt48LEBytes(value)
      ensures fresh(Repr - old(Repr))
    {
      // one writeUInt8 per byte, each `~~(value / 2^k) & 0xff`
      var bytes := UInt48LEBytes(value);
      ghost var c := Contents();
      WriteUInt8(bytes[0]);
      WriteUInt8(bytes[1]);
      WriteUInt8(bytes[2]);
      WriteUInt8(bytes[3]);
      WriteUInt8(bytes[4]);
      WriteUInt8(bytes[5]);
      SixAppends(c, bytes);
    }

    method WriteSInt48BE(value: int)
      requires Valid()
      modifies Repr
      ensures Valid() && Contents() == old(Contents()) + UInt48BEBytes(Fold48(value))
      ensures fresh(Repr - old(Repr))
    {
      if value >= 0 {
        WriteUInt48BE(value);
        return;
      }
      WriteUInt48BE(0xFFFFFF_FFFFFF - ((value * -1) - 1));
    }

    method WriteUInt48BE(value: int)
      requires Valid()
      modifies Repr
      ensures Valid() && Contents() == old(Contents()) + UInt48BEBytes(value)
      ensures fresh(Repr - old(Repr))
    {
      // one writeUInt8 per byte, each `~~(value / 2^k) & 0xff`
      var bytes := UInt48BEBytes(value);
      ghost var c := Contents();
      WriteUInt8(bytes[0]);
      WriteUInt8(bytes[1]);
      WriteUInt8(bytes[2]);
      WriteUInt8(bytes[3]);
      WriteUInt8(bytes[4]);
      WriteUInt8(bytes[5]);
      SixAppends(c, bytes);
    }

    method WriteSInt64LE(value: int)
      requires Valid()
      modifies Repr
      ensures Valid() && Contents() == old(Contents()) + LE(value, 8)
      ensures fresh(Repr - old(Repr))
    {
      var head := IncrHead(8);
      CopyInto(buffer, head, LE(value, 8));
      written := old(written) + LE(value, 8);
    }

    method WriteUInt64LE(value: int)
      requires Valid()
      modifies Repr
      ensures Valid() && Contents() == old(Contents()) + LE(value, 8)
      ensures fresh(Repr - old(Repr))
    {
      var head := IncrHead(8);
      CopyInto(buffer, head, LE(value, 8));
      written := old(written) + LE(value, 8);
    }

    method WriteSInt64BE(value: int)
      requires Valid()
      modifies Repr
      ensures Valid() && Contents() == old(Contents()) + BE(value, 8)
      ensures fresh(Repr - old(Repr))
    {
      var head := IncrHead(8);
      CopyInto(buffer, head, BE(value, 8));
      written := old(written) + BE(value, 8);
    }

    method WriteUInt64BE(value: int)
      requires Valid()
      modifies Repr
      ensures Valid() && Contents() == old(Contents()) + BE(value, 8)
      ensures fresh(Repr - old(Repr))
    {
      var head := IncrHead(8);
      CopyInto(buffer, head, BE(value, 8));
      written := old(written) + BE(value, 8);
    }

    /** Float stores take the number as its IEEE-754 pattern (little-endian bytes). */
    method WriteFloat32LE(bits: Bits32)
      requires Valid()
      modifies Repr
      ensures Valid() && Contents() == old(Contents()) + bits
      ensures fresh(Repr - old(Repr))
    {
      var head := IncrHead(4);
      CopyInto(buffer, head, bits);
      written := old(written) + bits;
    }

    method WriteFloat32BE(bits: Bits32)
      requires Valid()
      modifies Repr
      ensures Valid() && Contents() == old(Contents()) + Reverse(bits)
      ensures fresh(Repr - old(Repr))
    {
      var head := IncrHead(4);
      CopyInto(buffer, head, Reverse(bits));
      written := old(written) + Reverse(bits);
    }

    method WriteFloat64LE(bits: Bits64)
      requires Valid()
      modifies Repr
      ensures Valid() && Contents() == old(Contents()) + bits
      ensures fresh(Repr - old(Repr))
    {
      var head := IncrHead(8);
      CopyInto(buffer, head, bits);
      written := old(written) + bits;
    }

    method WriteFloat64BE(bits: Bits64)
      requires Valid()
      modifies Repr
      ensures Valid() && Contents() == old(Contents()) + Reverse(bits)
      ensures fresh(Repr - old(Repr))
    {
      var head := IncrHead(8);
      CopyInto(buffer, head, Reverse(bits));
      written := old(written) + Reverse(bits);
    }

    method WritePackedUInt32(v: int)
      requires Valid()
      modifies Repr
      ensures Valid() && Contents() == old(Contents()) + PackedUInt32(v)
      ensures fresh(Repr - old(Repr))
    {
      var value := v;
      var more := true;
      while more
        invariant Valid()
        invariant fresh(Repr - old(Repr))
        invariant more ==> Contents() + PackedUInt32(value) == old(Contents()) + PackedUInt32(v)
        invariant !more ==> Contents() == old(Contents()) + PackedUInt32(v)
        decreases if more then PackedMeasure(value) + 1 else 0
      {
        ghost var before := Contents();
        var next := WritePackedByte(value);
        PackedEmits(before, old(Contents()) + PackedUInt32(v), value);
        PackedProgress(value);
        value := next;
        more := value != 0;
      }
    }

    /** One round of the writePackedUInt32 loop: the low seven bits, flagged when
        more follow, then the value shifted right by seven. */
    method WritePackedByte(value: int) returns (next: int)
      requires Valid()
      modifies Repr
      ensures Valid() && Contents() == old(Contents()) + [PackedByte(value)]
      ensures fresh(Repr - old(Repr))
      ensures next == PackedNext(value)
    {
      var b := value % 256;
      if value >= 0x80 {
        b := Or80(b);
      }
      assert b == PackedByte(value) && b % 256 == b;
      WriteUInt8(b);
      next := (value % 0x1_0000_0000) / 128;
    }

    /** `value >>> 0`, then the unsigned writer: no zig-zag. */
    method WritePackedSInt32(v: int)
      requires Valid()
      modifies Repr
      ensures Valid() && Contents() == old(Contents()) + PackedUInt32(v % 0x1_0000_0000)
      ensures fresh(Repr - old(Repr))
    {
      WritePackedUInt32(v % 0x1_0000_0000);
    }

    method WriteBytes(bytes: seq<byte>)
      requires Valid()
      modifies Repr
      ensures Valid() && Contents() == old(Contents()) + bytes
      ensures fresh(Repr - old(Repr))
    {
      var writeOffset := IncrHead(|bytes|);
      CopyInto(buffer, writeOffset, bytes);
      written := old(written) + bytes;
    }

    /** The string arrives already UTF-8 encoded; no prefix, no terminator. */
    method WriteString(utf8: seq<byte>)
      requires Valid()
      modifies Repr
      ensures Valid() && Contents() == old(Contents()) + utf8
      ensures fresh(Repr - old(Repr))
    {
      WriteBytes(utf8);
    }

  }
}
