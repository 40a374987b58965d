/** The TCP side of modserver.ts: the packets ModServer broadcasts when the
    store changes, the replay of the store to a new connection, and the
    dispatch of reassembled inbound packets. Every outbound packet is
    [u16 LE type][u16 LE body length][body]; u16 stores through Uint16Array
    are taken as little-endian. */
module ModServer {
  import opened Wrappers
  import opened Bytes
  import opened Values
  import opened Framer
  import opened StateStore

  /** The PacketType enum (modserver.ts:6-11). */
  const LogPacket := 0
  const ParamApplyPacket := 1
  const ParamDeletePacket := 2
  const TriggerPacket := 3

  /** The field ParamDelete reserves for the name. */
  const DeleteNameField := 0x20

  /** A fresh zeroed region of 4 + size bytes whose header holds the type and
      the size, both reduced mod 2^16 by the u16 stores. */
  function Prepared(kind: int, size: nat): (r: seq<byte>)
    ensures |r| == 4 + size
  {
    LE(kind, 2) + LE(size, 2) + Zeros(size)
  }

  /** Reading the header back gives the type and the size mod 2^16, and every
      body byte is zero. */
  lemma PreparedLayout(kind: int, size: nat)
    ensures FromLE(Prepared(kind, size)[..2]) == kind % 0x1_0000
    ensures FromLE(Prepared(kind, size)[2..4]) == size % 0x1_0000
    ensures forall i :: 4 <= i < 4 + size ==> Prepared(kind, size)[i] == 0
  {
    var r := Prepared(kind, size);
    assert r[..2] == LE(kind, 2) && r[2..4] == LE(size, 2);
    assert Pow256(2) == 0x1_0000;
    LERoundTrip(kind, 2);
    LERoundTrip(size, 2);
  }

  method PrepareBuffer(kind: int, size: nat) returns (buffer: array<byte>)
    ensures fresh(buffer) && buffer[..] == Prepared(kind, size)
  {
    buffer := new byte[4 + size](i => 0);
    assert buffer[..] == Zeros(4 + size);
    CopyInto(buffer, 0, LE(kind, 2));
    CopyInto(buffer, 2, LE(size, 2));
    ZerosSlice(4 + size, 4, 4 + size);
  }

  /** A ParamApply packet around a value field: the header, a u16 nameLen + 1,
      the name, a zero byte, then the field. */
  function ApplyBytes(name: seq<byte>, field: seq<byte>): (p: seq<byte>)
    ensures |p| == 7 + |name| + |field|
  {
    ApplyHead(name, |field|) + field
  }

  /** Everything of a ParamApply packet before its value field. */
  function ApplyHead(name: seq<byte>, fieldLength: nat): (h: seq<byte>)
    ensures |h| == 7 + |name|
  {
    LE(ParamApplyPacket, 2) + LE(|name| + 3 + fieldLength, 2) + LE(|name| + 1, 2) + name + [0]
  }

  /** A string value's field: a u8 valueLen + 1, the bytes, a zero byte. */
  function StringField(text: seq<byte>): (f: seq<byte>)
    ensures |f| == |text| + 2
  {
    [(|text| + 1) % 256] + text + [0]
  }

  /** The bytes handleParam broadcasts for a (name, value) pair, with the width
      table passed in: None for a trigger, and Err for the RangeError of a store
      that runs past its field. */
  function ParamApply(widths: ValueType -> nat, name: seq<byte>, v: Value): Result<Option<seq<byte>>>
  {
    match v
    case Trigger(_) => Ok(None)
    case String(text) => Ok(Some(ApplyBytes(name, StringField(text))))
    case _ =>
      match ValueField(v, widths(TypeOf(v)))
      case Err(e) => Err(e)
      case Ok(field) => Ok(Some(ApplyBytes(name, field)))
  }

  /** With the table as written a trigger is not announced, an F64 fails with a
      RangeError and every other value yields a packet. */
  lemma ParamApplyOutcome(name: seq<byte>, v: Value)
    ensures ParamApply(Sizes, name, v) == Ok(None) <==> v.Trigger?
    ensures ParamApply(Sizes, name, v).Err? <==> v.F64?
  {
    if !v.String? && !v.Trigger? {
      SizesAsWritten(v);
    }
  }

  /** Where a reader finds each part of a ParamApply packet. */
  lemma ApplyBytesLayout(name: seq<byte>, field: seq<byte>)
    ensures
      var p := ApplyBytes(name, field);
      var n := |name|;
      && FromLE(p[..2]) == ParamApplyPacket
      && FromLE(p[2..4]) == (|p| - 4) % 0x1_0000
      && FromLE(p[4..6]) == (n + 1) % 0x1_0000
      && p[6..6 + n] == name && p[6 + n] == 0 && p[7 + n..] == field
  {
    var p := ApplyBytes(name, field);
    var n := |name|;
    assert p == LE(ParamApplyPacket, 2) + LE(n + 3 + |field|, 2) + LE(n + 1, 2) + name + [0] + field;
    HeadFields(ParamApplyPacket, n + 3 + |field|, n + 1, name, field);
  }

  /** What the three two-byte fields of a packet head read back as. */
  lemma HeadFields(kind: int, length: int, nameLength: int, name: seq<byte>, field: seq<byte>)
    ensures
      var p := LE(kind, 2) + LE(length, 2) + LE(nameLength, 2) + name + [0] + field;
      var n := |name|;
      && FromLE(p[..2]) == kind % 0x1_0000 && FromLE(p[2..4]) == length % 0x1_0000
      && FromLE(p[4..6]) == nameLength % 0x1_0000
      && p[6..6 + n] == name && p[6 + n] == 0 && p[7 + n..] == field
  {
    HeadSlices(LE(kind, 2), LE(length, 2), LE(nameLength, 2), name, field);
    U16RoundTrip(kind);
    U16RoundTrip(length);
    U16RoundTrip(nameLength);
  }

  /** Where the parts of a packet head with three two-byte fields sit. */
  lemma HeadSlices(kind: seq<byte>, length: seq<byte>, nameLength: seq<byte>, name: seq<byte>, field: seq<byte>)
    requires |kind| == 2 && |length| == 2 && |nameLength| == 2
    ensures
      var p := kind + length + nameLength + name + [0] + field;
      var n := |name|;
      && p[..2] == kind && p[2..4] == length && p[4..6] == nameLength
      && p[6..6 + n] == name && p[6 + n] == 0 && p[7 + n..] == field
  {
  }

  /** The field of each kind of value: a typed field of exactly the table's
      width, or the string layout. */
  lemma ParamApplyField(widths: ValueType -> nat, name: seq<byte>, v: Value)
    requires ParamApply(widths, name, v).Ok? && ParamApply(widths, name, v).value.Some?
    ensures
      var p := ParamApply(widths, name, v).value.value;
      var n := |name|;
      && !v.Trigger?
      && (!v.String? ==> |p| == 7 + n + widths(TypeOf(v)) && Ok(p[7 + n..]) == ValueField(v, widths(TypeOf(v))))
      && (v.String? ==>
            |p| == 9 + n + |v.text| && p[7 + n] == (|v.text| + 1) % 256
            && p[8 + n..8 + n + |v.text|] == v.text && p[|p| - 1] == 0)
  {
    var p := ParamApply(widths, name, v).value.value;
    if v.String? {
      ApplyBytesLayout(name, StringField(v.text));
      assert p[7 + |name|..] == StringField(v.text);
      assert StringField(v.text)[1..1 + |v.text|] == v.text;
    } else {
      ApplyBytesLayout(name, ValueField(v, widths(TypeOf(v))).value);
    }
  }

  /** A receiver that knows the type reads the value back from offset 7 + nameLen. */
  lemma ParamApplyValueRoundTrip(name: seq<byte>, v: Value)
    requires !v.String? && !v.Trigger? && !v.F64? && InRange(v)
    ensures ParamApply(Sizes, name, v).Ok? && ParamApply(Sizes, name, v).value.Some?
    ensures LoadValue(TypeOf(v), ParamApply(Sizes, name, v).value.value[7 + |name|..]) == Some(v)
  {
    SizesAsWritten(v);
    ApplyBytesLayout(name, StoreBytes(v));
    StoreLoadRoundTrip(v);
  }

  /** With F64 given eight bytes the packet builds and carries the whole pattern. */
  lemma ParamApplyIntendedF64(name: seq<byte>, bits: Bits64)
    ensures ParamApply(IntendedSizes, name, F64(bits)).Ok?
    ensures ParamApply(IntendedSizes, name, F64(bits)).value.Some?
    ensures LoadValue(7, ParamApply(IntendedSizes, name, F64(bits)).value.value[7 + |name|..]) == Some(F64(bits))
  {
    IntendedSizesFit(F64(bits));
    ApplyBytesLayout(name, bits);
    StoreLoadRoundTrip(F64(bits));
  }

  /** The server's own framer receives a ParamApply packet as one packet whose
      body is everything after the header, when the body fits the u16 length. */
  lemma ApplyBytesFramed(name: seq<byte>, field: seq<byte>, lastType: int, rest: seq<byte>)
    requires 0 <= lastType < 0x1_0000
    requires |ApplyBytes(name, field)| < 0x1_0004
    ensures
      var p := ApplyBytes(name, field);
      Feed(Header(lastType), p + rest) == After([Packet(ParamApplyPacket, p[4..])], Feed(Header(ParamApplyPacket), rest))
  {
    var p := ApplyBytes(name, field);
    var q := Packet(ParamApplyPacket, p[4..]);
    assert p[4..] == LE(|name| + 1, 2) + name + [0] + field;
    assert Frame(q) == p;
    FeedFrame(lastType, q, rest);
  }

  /** The part of handleParam shared by every type: a prepared buffer with the
      u16 nameLen + 1 at offset 4 and the name at offset 6. */
  method PrepareApply(name: seq<byte>, size: nat) returns (buffer: array<byte>)
    requires |name| + 3 <= size
    ensures fresh(buffer)
    ensures buffer[..] == ApplyBytes(name, Zeros(size - 3 - |name|))
  {
    var n := |name|;
    buffer := PrepareBuffer(ParamApplyPacket, size);
    ghost var header := LE(ParamApplyPacket, 2) + LE(size, 2);
    StoreIntoZeros(buffer, 4, LE(n + 1, 2), header, size);
    StoreIntoZeros(buffer, 6, name, header + LE(n + 1, 2), size - 2);
    PreparedApplyLayout(name, size);
  }

  /** The prepared buffer with nameLen + 1 and the name stored is a ParamApply
      packet around a zeroed field. */
  lemma PreparedApplyLayout(name: seq<byte>, size: nat)
    requires |name| + 3 <= size
    ensures
      var header := LE(ParamApplyPacket, 2) + LE(size, 2);
      (header + LE(|name| + 1, 2)) + name + Zeros(size - 2 - |name|) == ApplyBytes(name, Zeros(size - 3 - |name|))
  {
    var k := size - 3 - |name|;
    ZerosCons(k);
    assert size - 2 - |name| == k + 1;
    assert |name| + 3 + k == size;
  }

  /** The String case of handleParam: [valueLen + 1] at 7 + nameLen, the value
      after it; the last byte stays zero. */
  method StoreStringField(buffer: array<byte>, name: seq<byte>, text: seq<byte>)
    requires buffer[..] == ApplyBytes(name, Zeros(|text| + 2))
    modifies buffer
    ensures buffer[..] == ApplyBytes(name, StringField(text))
  {
    var n := |name|;
    ghost var head := ApplyHead(name, |text| + 2);
    var lengthByte := (|text| + 1) % 256;
    StoreIntoZeros(buffer, 7 + n, [lengthByte], head, |text| + 2);
    StoreIntoZeros(buffer, 8 + n, text, head + [lengthByte], |text| + 1);
    assert Zeros(1) == [0];
    StringFieldStored(name, text);
  }

  /** The two stores of the string case leave its layout after the head. */
  lemma StringFieldStored(name: seq<byte>, text: seq<byte>)
    ensures
      var head := ApplyHead(name, |text| + 2);
      (head + [(|text| + 1) % 256]) + text + [0] == ApplyBytes(name, StringField(text))
  {
    var head := ApplyHead(name, |text| + 2);
    var f := StringField(text);
    assert ApplyBytes(name, f) == head + f;
  }

  /** The typed cases of handleParam: one DataView store at 7 + nameLen into a
      field of `width` bytes, which throws when the store does not fit. */
  method StoreTypedField(buffer: array<byte>, name: seq<byte>, value: Value, width: nat) returns (r: Result<Option<seq<byte>>>)
    requires buffer[..] == ApplyBytes(name, Zeros(width))
    modifies buffer
    ensures r == match ValueField(value, width)
                 case Err(e) => Err(e)
                 case Ok(field) => Ok(Some(ApplyBytes(name, field)))
  {
    if StoreWidth(value) > width {
      return Err(OutOfRange);
    }
    ghost var head := ApplyHead(name, width);
    StoreIntoZeros(buffer, 7 + |name|, StoreBytes(value), head, width);
    assert buffer[..] == ApplyBytes(name, StoreBytes(value) + Zeros(width - StoreWidth(value)));
    r := Ok(Some(buffer[..]));
  }

  /** handleParam, with the width table passed in: the packet is built in a
      zeroed buffer by the source's stores. */
  method HandleParam(widths: ValueType -> nat, name: seq<byte>, value: Value) returns (r: Result<Option<seq<byte>>>)
    ensures r == ParamApply(widths, name, value)
  {
    if value.Trigger? {
      return Ok(None);
    }
    var n := |name|;
    var size := 2 + n + 1;
    if value.String? {
      size := size + |value.text| + 1 + 1;
    } else {
      size := size + widths(TypeOf(value));
    }
    var buffer := PrepareApply(name, size);
    if value.String? {
      StoreStringField(buffer, name, value.text);
      r := Ok(Some(buffer[..]));
    } else {
      r := StoreTypedField(buffer, name, value, widths(TypeOf(value)));
    }
  }

  /** The ParamDelete packet: a 32-byte name field after the header; a longer
      name is cut to its first 32 bytes, a shorter one is zero-padded. */
  function DeletePacket(name: seq<byte>): (r: seq<byte>)
    ensures |r| == 4 + DeleteNameField
  {
    var k := if |name| < DeleteNameField then |name| else DeleteNameField;
    LE(ParamDeletePacket, 2) + LE(DeleteNameField, 2) + name[..k] + Zeros(DeleteNameField - k)
  }

  /** The deletedParam listener (modserver.ts:62-66): the name is encoded into
      the 32 bytes after the header of a prepared buffer. */
  method OnDeletedParam(name: seq<byte>) returns (packet: seq<byte>)
    ensures packet == DeletePacket(name)
  {
    var buffer := PrepareBuffer(ParamDeletePacket, DeleteNameField);
    var k := if |name| < DeleteNameField then |name| else DeleteNameField;
    CopyInto(buffer, 4, name[..k]);
    ZerosSlice(DeleteNameField, k, DeleteNameField);
    packet := buffer[..];
  }

  /** The trigger packet: header with length nameLen + 1, the name, one zero. */
  function TriggerPacketBytes(name: seq<byte>): (r: seq<byte>)
    ensures |r| == 5 + |name|
  {
    LE(TriggerPacket, 2) + LE(|name| + 1, 2) + name + [0]
  }

  /** The trigger listener (modserver.ts:67-71). */
  method OnTrigger(name: seq<byte>) returns (packet: seq<byte>)
    ensures packet == TriggerPacketBytes(name)
  {
    var buffer := PrepareBuffer(TriggerPacket, |name| + 1);
    CopyInto(buffer, 4, name);
    assert Zeros(|name| + 1)[|name|..] == [0];
    packet := buffer[..];
  }

  /** readCString: the bytes up to the first zero byte, or to the end. */
  function CString(s: seq<byte>): (r: seq<byte>)
    ensures |r| <= |s| && r == s[..|r|]
    ensures 0 !in r
    ensures |r| < |s| ==> s[|r|] == 0
  {
    if s == [] || s[0] == 0 then [] else [s[0]] + CString(s[1..])
  }

  /** A name without zero bytes comes back from its zero-terminated field. */
  lemma {:induction false} CStringOfTerminated(text: seq<byte>, tail: seq<byte>)
    requires 0 !in text
    ensures CString(text + tail) == text + CString(tail)
    decreases |text|
  {
    if text != [] {
      assert (text + tail)[1..] == text[1..] + tail;
      CStringOfTerminated(text[1..], tail);
    } else {
      assert text + tail == tail;
    }
  }

  /** The delete and trigger packets carry names a receiver reads back as C
      strings (a delete name that has no zero byte and fits the field). */
  lemma NamePacketsRoundTrip(name: seq<byte>)
    requires 0 !in name
    ensures |name| <= DeleteNameField ==> CString(DeletePacket(name)[4..]) == name
    ensures CString(TriggerPacketBytes(name)[4..]) == name
  {
    assert TriggerPacketBytes(name)[4..] == name + [0];
    CStringOfTerminated(name, [0]);
    if |name| <= DeleteNameField {
      DeleteNameRoundTrip(name);
    }
  }

  /** The 32-byte delete field of a short name is the name, zero-padded. */
  lemma DeleteNameRoundTrip(name: seq<byte>)
    requires 0 !in name && |name| <= DeleteNameField
    ensures CString(DeletePacket(name)[4..]) == name
  {
    var pad := Zeros(DeleteNameField - |name|);
    assert name[..|name|] == name;
    assert DeletePacket(name)[4..] == name + pad;
    CStringOfTerminated(name, pad);
    assert pad == [] || pad[0] == 0;
  }

  /** handleData: a Log packet yields the text written to standard output;
      every other type is ignored. */
  function HandleData(p: Packet): (r: Option<seq<byte>>)
    ensures r.Some? <==> p.kind == LogPacket
    ensures r.Some? ==> 0 !in r.value && |r.value| <= |p.body| && r.value == p.body[..|r.value|]
  {
    if p.kind == LogPacket then Some(CString(p.body)) else None
  }

  /** A zero-terminated log line comes out as its text. */
  lemma LogPacketText(text: seq<byte>, tail: seq<byte>)
    requires 0 !in text
    ensures HandleData(Packet(LogPacket, text + [0] + tail)) == Some(text)
  {
    assert text + [0] + tail == text + ([0] + tail);
    CStringOfTerminated(text, [0] + tail);
  }

  /** The ParamApply packets onConnection sends for the stored entries, in
      order, skipping triggers; a RangeError stops the loop, and the packets
      sent before it stay sent. */
  datatype Replay = Replay(sent: seq<seq<byte>>, failed: bool)

  function ReplayOf(widths: ValueType -> nat, entries: seq<(seq<byte>, Value)>): Replay
  {
    if entries == [] then Replay([], false)
    else
      match ParamApply(widths, entries[0].0, entries[0].1)
      case Err(_) => Replay([], true)
      case Ok(None) => ReplayOf(widths, entries[1..])
      case Ok(Some(p)) =>
        var later := ReplayOf(widths, entries[1..]);
        Replay([p] + later.sent, later.failed)
  }

  /** The number of entries that are not triggers. */
  function Announced(entries: seq<(seq<byte>, Value)>): nat
  {
    if entries == [] then 0
    else (if entries[0].1.Trigger? then 0 else 1) + Announced(entries[1..])
  }

  /** Without F64 entries the replay completes with one packet per non-trigger
      entry; with one it fails. */
  lemma {:induction false} ReplayCount(entries: seq<(seq<byte>, Value)>)
    ensures ReplayOf(Sizes, entries).failed <==> exists i :: 0 <= i < |entries| && entries[i].1.F64?
    ensures !ReplayOf(Sizes, entries).failed ==> |ReplayOf(Sizes, entries).sent| == Announced(entries)
    decreases |entries|
  {
    if entries != [] {
      ParamApplyOutcome(entries[0].0, entries[0].1);
      ReplayCount(entries[1..]);
      if exists i :: 0 <= i < |entries[1..]| && entries[1..][i].1.F64? {
        var i :| 0 <= i < |entries[1..]| && entries[1..][i].1.F64?;
        assert entries[i + 1].1.F64?;
      }
      if exists i :: 0 <= i < |entries| && entries[i].1.F64? {
        var i :| 0 <= i < |entries| && entries[i].1.F64?;
        if i > 0 {
          assert entries[1..][i - 1].1.F64?;
        }
      }
    }
  }

  /** With F64 given eight bytes the replay always completes, with one packet
      per non-trigger entry. */
  lemma {:induction false} ReplayCountIntended(entries: seq<(seq<byte>, Value)>)
    ensures !ReplayOf(IntendedSizes, entries).failed
    ensures |ReplayOf(IntendedSizes, entries).sent| == Announced(entries)
    decreases |entries|
  {
    if entries != [] {
      var v := entries[0].1;
      if !v.String? && !v.Trigger? {
        IntendedSizesFit(v);
      }
      ReplayCountIntended(entries[1..]);
    }
  }

  /** The replay from entry i on: that entry's outcome, then the rest. */
  lemma ReplayStep(widths: ValueType -> nat, entries: seq<(seq<byte>, Value)>, i: nat)
    requires i < |entries|
    ensures ReplayOf(widths, entries[i..]) ==
      match ParamApply(widths, entries[i].0, entries[i].1)
      case Err(_) => Replay([], true)
      case Ok(None) => ReplayOf(widths, entries[i + 1..])
      case Ok(Some(p)) =>
        Replay([p] + ReplayOf(widths, entries[i + 1..]).sent, ReplayOf(widths, entries[i + 1..]).failed)
  {
    assert entries[i..][1..] == entries[i + 1..];
  }

  /** An enumeration has one announced entry per stored non-trigger name. */
  lemma {:induction false} AnnouncedStored(entries: seq<(seq<byte>, Value)>, params: map<seq<byte>, Value>)
    requires Enumerates(entries, params)
    ensures Announced(entries) == |NonTriggerNames(params)|
    decreases |entries|
  {
    if entries == [] {
      assert forall name :: name !in params;
      assert NonTriggerNames(params) == {};
    } else {
      var first := entries[0].0;
      EnumeratesTail(entries, params);
      AnnouncedStored(entries[1..], params - {first});
      assert first in params && params[first] == entries[0].1;
      NonTriggerNamesRemove(params, first);
    }
  }

  /** Replaying an enumeration of a store fails, with the table as written,
      exactly when some stored value is an F64; with F64 given eight bytes it
      sends one packet per stored name that is not a trigger. */
  lemma ReplayOfStore(entries: seq<(seq<byte>, Value)>, params: map<seq<byte>, Value>)
    requires Enumerates(entries, params)
    ensures ReplayOf(Sizes, entries).failed <==> exists name :: name in params && params[name].F64?
    ensures !ReplayOf(IntendedSizes, entries).failed
    ensures |ReplayOf(IntendedSizes, entries).sent| == |NonTriggerNames(params)|
  {
    ReplayCount(entries);
    ReplayCountIntended(entries);
    AnnouncedStored(entries, params);
    if exists name :: name in params && params[name].F64? {
      var name :| name in params && params[name].F64?;
      var i :| 0 <= i < |entries| && entries[i].0 == name;
      assert entries[i].1.F64?;
    }
    if exists i :: 0 <= i < |entries| && entries[i].1.F64? {
      var i :| 0 <= i < |entries| && entries[i].1.F64?;
      assert entries[i].0 in params && params[entries[i].0].F64?;
    }
  }

  /** onConnection's loop over Object.entries(params). */
  method OnConnection(widths: ValueType -> nat, entries: seq<(seq<byte>, Value)>) returns (r: Replay)
    ensures r == ReplayOf(widths, entries)
  {
    var sent: seq<seq<byte>> := [];
    var i := 0;
    while i < |entries|
      invariant 0 <= i <= |entries|
      invariant ReplayOf(widths, entries) == (var later := ReplayOf(widths, entries[i..]); Replay(sent + later.sent, later.failed))
    {
      ReplayStep(widths, entries, i);
      var packet := HandleParam(widths, entries[i].0, entries[i].1);
      match packet {
        case Err(_) =>
          return Replay(sent, true);
        case Ok(None) =>
        case Ok(Some(p)) =>
          sent := sent + [p];
      }
      i := i + 1;
    }
    assert entries[i..] == [];
    r := Replay(sent, false);
  }
}
