/** The WebSocket side of websocket.ts: value encoding, the inbound message
    decoder that drives the store, and the Logs/Params snapshots and the log
    message sent to browser clients. */
module WebSocket {
  import opened Wrappers
  import opened Bytes
  import opened Values
  import opened Writer
  import opened Reader
  import opened StateStore

  /** The BinaryMessageType enum (websocket.ts:6-12). */
  const LogsMessage := 0
  const ParamsMessage := 1
  const ApplyParamMessage := 2
  const DeleteParamMessage := 3
  const TriggerMessage := 4

  // ---------------------------------------------------------------- encodeValue

  /** encodeValue with the width table passed in: a string's own bytes,
      otherwise a `widths[type]`-byte buffer holding the typed store, or the
      RangeError of a store that does not fit. */
  function EncodedValue(widths: ValueType -> nat, v: Value): Result<seq<byte>>
  {
    if v.String? then Ok(v.text) else ValueField(v, widths(TypeOf(v)))
  }

  /** What each type encodes to: its own store of exactly the table's width,
      Boolean as one 0/1 byte, nothing for Trigger, an error for F64. */
  lemma EncodedValueShape(v: Value)
    ensures v.String? ==> EncodedValue(Sizes, v) == Ok(v.text)
    ensures !v.String? ==> (EncodedValue(Sizes, v).Err? <==> v.F64?)
    ensures !v.String? && !v.F64? ==>
      EncodedValue(Sizes, v) == Ok(StoreBytes(v)) && |StoreBytes(v)| == Sizes(TypeOf(v))
    ensures v.Boolean? ==> EncodedValue(Sizes, v) == Ok([if v.flag then 1 else 0])
    ensures v.Trigger? ==> EncodedValue(Sizes, v) == Ok([])
  {
    if !v.String? {
      SizesAsWritten(v);
    }
  }

  /** With F64 given eight bytes every value encodes to its own store. */
  lemma EncodedValueIntended(v: Value)
    ensures EncodedValue(IntendedSizes, v) == Ok(if v.String? then v.text else StoreBytes(v))
  {
    if !v.String? {
      IntendedSizesFit(v);
    }
  }

  /** encodeValue with its fresh DataView. */
  method EncodeValue(widths: ValueType -> nat, v: Value) returns (r: Result<seq<byte>>)
    ensures r == EncodedValue(widths, v)
  {
    if v.String? {
      return Ok(v.text);
    }
    var width := widths(TypeOf(v));
    if StoreWidth(v) > width {
      return Err(OutOfRange);
    }
    var field := StoreInFreshRegion(width, StoreBytes(v));
    r := Ok(field);
  }

  // ---------------------------------------------------------------- inbound messages

  /** What one inbound message asks of the store. */
  datatype Command =
    | Apply(name: seq<byte>, value: Value)
    | Delete(name: seq<byte>)
    | Fire(name: seq<byte>)
    | Ignore

  /** readString(readUInt8()): a u8 length, then that many bytes; returns the
      bytes and the offset after them. */
  function LengthPrefixed(m: seq<byte>, at: nat): (r: Result<(seq<byte>, nat)>)
    ensures r.Ok? ==> r.value.1 == at + 1 + |r.value.0| <= |m|
    ensures r.Ok? ==> m[at] == |r.value.0| && m[at + 1..r.value.1] == r.value.0
    ensures r.Err? ==> r.error == Underrun
  {
    if at >= |m| then Err(Underrun)
    else if at + 1 + m[at] <= |m| then Ok((m[at + 1..at + 1 + m[at]], at + 1 + m[at]))
    else Err(Underrun)
  }

  /** The bytes each value read takes: readFloat64LE takes eight. */
  function ReadWidth(t: ValueType): nat
  {
    if t == 7 then 8 else Sizes(t)
  }

  /** The value switch of ApplyParam: a value of type t read at `at`; None for
      Trigger and for tags outside ValueType. */
  function ValueAt(t: int, m: seq<byte>, at: nat): Result<Option<Value>>
  {
    if t == 9 then
      match LengthPrefixed(m, at)
      case Err(e) => Err(e)
      case Ok((text, _)) => Ok(Some(String(text)))
    else if 0 <= t <= 8 then
      match Take(m, at, ReadWidth(t))
      case Err(e) => Err(e)
      case Ok(bytes) => Ok(LoadValue(t, bytes))
    else Ok(None)
  }

  /** The message handler's decode: the tag, then the fields of the three tags
      it acts on; every other tag is ignored, and running out of bytes fails. */
  function ParseMessage(m: seq<byte>): (r: Result<Command>)
    ensures r.Err? ==> r.error == Underrun
    ensures |m| == 0 ==> r.Err?
    ensures |m| > 0 && m[0] !in {ApplyParamMessage, DeleteParamMessage, TriggerMessage} ==> r == Ok(Ignore)
    ensures r.Ok? && r.value.Apply? ==> m[0] == ApplyParamMessage
    ensures r.Ok? && r.value.Delete? ==> m[0] == DeleteParamMessage
    ensures r.Ok? && r.value.Fire? ==> m[0] == TriggerMessage
    ensures r.Ok? && !r.value.Ignore? ==> LengthPrefixed(m, 1).Ok? && r.value.name == LengthPrefixed(m, 1).value.0
    ensures |m| > 0 && m[0] in {ApplyParamMessage, DeleteParamMessage, TriggerMessage} && LengthPrefixed(m, 1).Err? ==> r.Err?
  {
    if |m| == 0 then Err(Underrun)
    else if m[0] == ApplyParamMessage then
      match LengthPrefixed(m, 1)
      case Err(e) => Err(e)
      case Ok((name, at)) =>
        if at >= |m| then Err(Underrun)
        else
          match ValueAt(m[at], m, at + 1)
          case Err(e) => Err(e)
          case Ok(None) => Ok(Ignore)
          case Ok(Some(v)) => Ok(Apply(name, v))
    else if m[0] == DeleteParamMessage then
      match LengthPrefixed(m, 1)
      case Err(e) => Err(e)
      case Ok((name, _)) => Ok(Delete(name))
    else if m[0] == TriggerMessage then
      match LengthPrefixed(m, 1)
      case Err(e) => Err(e)
      case Ok((name, _)) => Ok(Fire(name))
    else Ok(Ignore)
  }

  /** The bytes a client sends for a command: the reference encoder. */
  function EncodeCommand(c: Command): seq<byte>
    requires Sendable(c)
  {
    match c
    case Apply(name, v) =>
      [ApplyParamMessage, |name|] + name + [TypeOf(v)] + ValueBytes(v)
    case Delete(name) => [DeleteParamMessage, |name|] + name
    case Fire(name) => [TriggerMessage, |name|] + name
    case Ignore => [LogsMessage]
  }

  /** How a client sends a value: a string length-prefixed, anything else as
      its little-endian store. */
  function ValueBytes(v: Value): seq<byte>
    requires !v.String? || |v.text| < 256
  {
    if v.String? then [|v.text|] + v.text else StoreBytes(v)
  }

  /** Commands the one-byte length fields can carry: names and string values
      under 256 bytes, numbers in their type's range, no trigger values. */
  predicate Sendable(c: Command)
  {
    match c
    case Apply(name, v) =>
      |name| < 256 && !v.Trigger? && InRange(v) && (v.String? ==> |v.text| < 256)
    case Delete(name) => |name| < 256
    case Fire(name) => |name| < 256
    case Ignore => true
  }

  /** The three fixed-width reads see the bytes that were stored. */
  lemma ValueAtStored(v: Value, m: seq<byte>, at: nat)
    requires !v.String? && !v.Trigger? && InRange(v)
    requires at + StoreWidth(v) <= |m| && m[at..at + StoreWidth(v)] == StoreBytes(v)
    ensures ValueAt(TypeOf(v), m, at) == Ok(Some(v))
  {
    assert ReadWidth(TypeOf(v)) == StoreWidth(v);
    StoreLoadRoundTrip(v);
  }

  /** A u8 length and that many bytes at offset 1 read back as the bytes. */
  lemma NameField(tag: byte, name: seq<byte>, tail: seq<byte>)
    requires |name| < 256
    ensures
      var m := [tag, |name|] + name + tail;
      LengthPrefixed(m, 1) == Ok((name, 2 + |name|))
  {
    var m := [tag, |name|] + name + tail;
    assert m[2..2 + |name|] == name;
  }

  /** The value switch reads back the value a client sent, whatever follows. */
  lemma ValueRoundTrip(v: Value, m: seq<byte>, at: nat)
    requires !v.Trigger? && InRange(v) && (v.String? ==> |v.text| < 256)
    requires at + |ValueBytes(v)| <= |m| && m[at..at + |ValueBytes(v)|] == ValueBytes(v)
    ensures ValueAt(TypeOf(v), m, at) == Ok(Some(v))
  {
    if v.String? {
      var n := |v.text|;
      var field := m[at..at + 1 + n];
      assert field == [n] + v.text;
      assert m[at] == field[0] == n;
      assert m[at + 1..at + 1 + n] == field[1..] == v.text;
      assert LengthPrefixed(m, at) == Ok((v.text, at + 1 + n));
    } else {
      assert m[at..at + StoreWidth(v)] == StoreBytes(v);
      ValueAtStored(v, m, at);
    }
  }

  /** An ApplyParam message decodes to its name and value, whatever follows. */
  lemma ApplyRoundTrip(name: seq<byte>, v: Value, rest: seq<byte>)
    requires Sendable(Apply(name, v))
    ensures ParseMessage(EncodeCommand(Apply(name, v)) + rest) == Ok(Apply(name, v))
  {
    var m := EncodeCommand(Apply(name, v)) + rest;
    var at := 2 + |name|;
    var tail := [TypeOf(v)] + ValueBytes(v) + rest;
    assert m == [ApplyParamMessage, |name|] + name + tail;
    NameField(ApplyParamMessage, name, tail);
    assert m[at] == TypeOf(v);
    assert m[at + 1..at + 1 + |ValueBytes(v)|] == ValueBytes(v);
    ValueRoundTrip(v, m, at + 1);
  }

  /** Decoding what a client encodes gives back its command, whatever follows. */
  lemma ParseEncodeRoundTrip(c: Command, rest: seq<byte>)
    requires Sendable(c)
    ensures ParseMessage(EncodeCommand(c) + rest) == Ok(c)
  {
    match c
    case Apply(name, v) => ApplyRoundTrip(name, v, rest);
    case Delete(name) =>
      assert EncodeCommand(c) + rest == [DeleteParamMessage, |name|] + name + rest;
      NameField(DeleteParamMessage, name, rest);
    case Fire(name) =>
      assert EncodeCommand(c) + rest == [TriggerMessage, |name|] + name + rest;
      NameField(TriggerMessage, name, rest);
    case Ignore =>
  }

  /** Tags other than the three applied ones, and ApplyParam with a Trigger or
      an unknown value type, leave the store alone without reading further. */
  lemma ParseIgnores(m: seq<byte>)
    requires |m| > 0
    ensures m[0] !in {ApplyParamMessage, DeleteParamMessage, TriggerMessage} ==> ParseMessage(m) == Ok(Ignore)
    ensures (m[0] == ApplyParamMessage && LengthPrefixed(m, 1).Ok? && LengthPrefixed(m, 1).value.1 < |m|
             && m[LengthPrefixed(m, 1).value.1] >= 10) ==> ParseMessage(m) == Ok(Ignore)
  {
  }

  /** Reads a value of type t the way the ApplyParam switch does: one typed
      read per case (readUInt8, readSInt16LE, readFloat64LE, ...). */
  method ReadValue(reader: BinaryReader, t: int) returns (r: Result<Option<Value>>)
    requires reader.Valid()
    modifies reader
    ensures reader.Valid()
    ensures r == ValueAt(t, reader.data, old(reader.head))
  {
    if t == 9 {
      var length := reader.ReadUInt8();
      if length.Err? {
        return Err(Underrun);
      }
      var text := reader.ReadBytes(length.value);
      if text.Err? {
        return Err(Underrun);
      }
      return Ok(Some(String(text.value)));
    }
    if !(0 <= t <= 8) {
      return Ok(None);
    }
    if t == 6 || t == 7 {
      var pattern := reader.ReadBytes(ReadWidth(t));
      if pattern.Err? {
        return Err(Underrun);
      }
      assert pattern.value[..ReadWidth(t)] == pattern.value;
      return Ok(Some(if t == 6 then F32(pattern.value) else F64(pattern.value)));
    }
    if t == 8 {
      var flag := reader.ReadUInt8();
      if flag.Err? {
        return Err(Underrun);
      }
      return Ok(Some(Boolean(flag.value != 0)));
    }
    r := ReadInteger(reader, t);
  }

  /** The six integer cases: readUInt8, readSInt8, readUInt16LE, readSInt16LE,
      readUInt32LE and readSInt32LE; the odd tags are the signed ones. */
  method ReadInteger(reader: BinaryReader, t: int) returns (r: Result<Option<Value>>)
    requires reader.Valid() && 0 <= t <= 5
    modifies reader
    ensures reader.Valid()
    ensures r == ValueAt(t, reader.data, old(reader.head))
  {
    ghost var bytes := Take(reader.data, reader.head, ReadWidth(t));
    var n := reader.ReadIntLE(ReadWidth(t), t % 2 == 1);
    if n.Err? {
      return Err(Underrun);
    }
    assert bytes.value[..ReadWidth(t)] == bytes.value;
    r := Ok(Some(
      if t == 0 then U8(n.value) else if t == 1 then I8(n.value)
      else if t == 2 then U16(n.value) else if t == 3 then I16(n.value)
      else if t == 4 then U32(n.value) else I32(n.value)));
  }

  /** The message handler's reads on a fresh reader over the message. */
  method ReadCommand(m: seq<byte>) returns (r: Result<Command>)
    ensures r == ParseMessage(m)
  {
    var reader := new BinaryReader.From(m);
    var tag := reader.ReadUInt8();
    if tag.Err? {
      return Err(Underrun);
    }
    if tag.value !in {ApplyParamMessage, DeleteParamMessage, TriggerMessage} {
      return Ok(Ignore);
    }
    var length := reader.ReadUInt8();
    if length.Err? {
      return Err(Underrun);
    }
    var name := reader.ReadBytes(length.value);
    if name.Err? {
      return Err(Underrun);
    }
    assert LengthPrefixed(m, 1) == Ok((name.value, reader.head));
    if tag.value == DeleteParamMessage {
      return Ok(Delete(name.value));
    }
    if tag.value == TriggerMessage {
      return Ok(Fire(name.value));
    }
    var valueType := reader.ReadUInt8();
    if valueType.Err? {
      return Err(Underrun);
    }
    var value := ReadValue(reader, valueType.value);
    match value {
      case Err(e) => r := Err(e);
      case Ok(None) => r := Ok(Ignore);
      case Ok(Some(v)) => r := Ok(Apply(name.value, v));
    }
  }

  /** The "message" listener: decode, then call setParam, deleteParam or
      trigger on the store. A decode that runs out of bytes throws before any
      store call, so the store is left as it was. */
  method HandleMessage(state: State, m: seq<byte>) returns (r: Result<Command>)
    modifies state
    ensures r == ParseMessage(m)
    ensures r.Ok? && r.value.Apply? ==>
      state.params == old(state.params)[r.value.name := r.value.value] && state.logs == old(state.logs)
      && state.emitted == old(state.emitted) + [Emission(ParamSet(r.value.name, r.value.value), state.params, state.logs)]
    ensures r.Ok? && r.value.Delete? ==>
      state.params == old(state.params) - {r.value.name} && state.logs == old(state.logs)
      && state.emitted == old(state.emitted) + [Emission(ParamDeleted(r.value.name), state.params, state.logs)]
    ensures r.Ok? && r.value.Fire? ==>
      state.params == old(state.params)[r.value.name := Value.Trigger(false)] && state.logs == old(state.logs)
      && state.emitted == old(state.emitted) + [Emission(Triggered(r.value.name), state.params, state.logs)]
    ensures (r.Err? || r.value.Ignore?) ==>
      state.params == old(state.params) && state.logs == old(state.logs) && state.emitted == old(state.emitted)
  {
    r := ReadCommand(m);
    if r.Ok? {
      match r.value {
        case Apply(name, v) => state.SetParam(name, v);
        case Delete(name) => state.DeleteParam(name);
        case Fire(name) => state.Trigger(name);
        case Ignore =>
      }
    }
  }

  // ---------------------------------------------------------------- Logs snapshot

  /** The per-log records [u8 byteLen][bytes]; the length byte is truncated. */
  function LogRecords(logs: seq<seq<byte>>): seq<byte>
  {
    if logs == [] then []
    else LogRecords(logs[..|logs| - 1]) + [|logs[|logs| - 1]| % 256] + logs[|logs| - 1]
  }

  /** The reduce of the size computation: Σ (byteLen + 1). */
  function LogsPayload(logs: seq<seq<byte>>): nat
  {
    if logs == [] then 0 else LogsPayload(logs[..|logs| - 1]) + |logs[|logs| - 1]| + 1
  }

  /** The size the snapshot writer is allocated with: int8, int64, the payload. */
  function LogsAllocation(logs: seq<seq<byte>>): nat
  {
    1 + 8 + LogsPayload(logs)
  }

  /** The Logs snapshot: [0][u64 LE count][records]. */
  function LogsLayout(logs: seq<seq<byte>>): seq<byte>
  {
    [LogsMessage] + LE(|logs|, 8) + LogRecords(logs)
  }

  /** The allocation is exactly what the snapshot writes. */
  lemma {:induction false} LogsAllocationExact(logs: seq<seq<byte>>)
    ensures |LogsLayout(logs)| == LogsAllocation(logs)
    ensures |LogRecords(logs)| == LogsPayload(logs)
    decreases |logs|
  {
    if logs != [] {
      LogsAllocationExact(logs[..|logs| - 1]);
    }
  }

  /** Records read front to back: the first record, then the others. */
  lemma {:induction false} LogRecordsCons(log: seq<byte>, logs: seq<seq<byte>>)
    ensures LogRecords([log] + logs) == [|log| % 256] + log + LogRecords(logs)
    decreases |logs|
  {
    if logs == [] {
      assert ([log] + logs)[..0] == [];
    } else {
      var all := [log] + logs;
      assert all[..|all| - 1] == [log] + logs[..|logs| - 1];
      LogRecordsCons(log, logs[..|logs| - 1]);
    }
  }

  /** How a client reads `count` records back. */
  function ParseRecords(m: seq<byte>, count: nat): Option<seq<seq<byte>>>
    decreases count
  {
    if count == 0 then Some([])
    else if |m| == 0 || 1 + m[0] > |m| then None
    else
      match ParseRecords(m[1 + m[0]..], count - 1)
      case None => None
      case Some(others) => Some([m[1..1 + m[0]]] + others)
  }

  /** How a client reads a Logs message back. */
  function ParseLogs(m: seq<byte>): Option<seq<seq<byte>>>
  {
    if |m| < 9 || m[0] != LogsMessage then None else ParseRecords(m[9..], FromLE(m[1..9]))
  }

  /** Records of logs under 256 bytes read back as the logs. */
  lemma {:induction false} ParseRecordsRoundTrip(logs: seq<seq<byte>>)
    requires forall i :: 0 <= i < |logs| ==> |logs[i]| < 256
    ensures ParseRecords(LogRecords(logs), |logs|) == Some(logs)
    decreases |logs|
  {
    if logs != [] {
      var m := LogRecords(logs);
      LogRecordsCons(logs[0], logs[1..]);
      assert [logs[0]] + logs[1..] == logs;
      assert m[0] == |logs[0]|;
      assert m[1..1 + m[0]] == logs[0];
      assert m[1 + m[0]..] == LogRecords(logs[1..]);
      ParseRecordsRoundTrip(logs[1..]);
    }
  }

  /** A Logs snapshot of lines under 256 bytes reads back as the lines. */
  lemma LogsRoundTrip(logs: seq<seq<byte>>)
    requires |logs| < 0x1_0000_0000_0000_0000
    requires forall i :: 0 <= i < |logs| ==> |logs[i]| < 256
    ensures ParseLogs(LogsLayout(logs)) == Some(logs)
  {
    var m := LogsLayout(logs);
    assert m[9..] == LogRecords(logs);
    CountRoundTrip(LogsMessage, |logs|, m, LogRecords(logs));
    ParseRecordsRoundTrip(logs);
  }

  /** The u64 LE count after a message tag reads back as the count. */
  lemma CountRoundTrip(tag: byte, count: nat, m: seq<byte>, records: seq<byte>)
    requires count < 0x1_0000_0000_0000_0000
    requires m == [tag] + LE(count, 8) + records
    ensures FromLE(m[1..9]) == count
  {
    assert m[1..9] == LE(count, 8);
    assert Pow256(8) == 0x1_0000_0000_0000_0000;
    LERoundTrip(count, 8);
  }

  /** The start every outbound message shares: a writer allocated with the
      computed size, the message tag as a u8, then the u64 LE count. */
  method StartMessage(size: nat, tag: byte, count: nat) returns (writer: BinaryWriter)
    ensures fresh(writer.Repr) && writer.Valid()
    ensures writer.Contents() == [tag] + LE(count, 8)
  {
    writer := new BinaryWriter.Allocate(size);
    writer.WriteUInt8(tag);
    writer.WriteUInt64LE(count);
  }

  /** getBuffer at the end of a message: the bytes written, and no more. */
  method FinishMessage(writer: BinaryWriter) returns (r: seq<byte>)
    requires writer.Valid()
    modifies writer
    ensures r == old(writer.Contents())
  {
    var buffer := writer.GetBuffer();
    r := buffer[..];
  }

  /** The Logs snapshot sent on connection, written through a BinaryWriter
      allocated with the computed size and read out with getBuffer. */
  method LogsSnapshot(logs: seq<seq<byte>>) returns (r: seq<byte>)
    ensures r == LogsLayout(logs)
  {
    var writer := StartMessage(LogsAllocation(logs), LogsMessage, |logs|);
    assert logs[..0] == [];
    var i := 0;
    while i < |logs|
      invariant 0 <= i <= |logs|
      invariant writer.Valid() && fresh(writer.Repr)
      invariant writer.Contents() == [LogsMessage] + LE(|logs|, 8) + LogRecords(logs[..i])
    {
      assert logs[..i + 1][..i] == logs[..i];
      writer.WriteUInt8(|logs[i]|);
      writer.WriteBytes(logs[i]);
      i := i + 1;
    }
    assert logs[..i] == logs;
    r := FinishMessage(writer);
  }

  /** The log message: [0][u64 LE 1][u8 byteLen][bytes]. */
  function LogMessage(log: seq<byte>): seq<byte>
  {
    [LogsMessage] + LE(1, 8) + [|log| % 256] + log
  }

  /** A log message is a one-line Logs snapshot, 10 + byteLen bytes long, and
      its allocation int8, int64, int8, string is exact. */
  lemma LogMessageIsSnapshot(log: seq<byte>)
    ensures LogMessage(log) == LogsLayout([log])
    ensures |LogMessage(log)| == 10 + |log| == 1 + 8 + 1 + |log|
  {
    assert [log][..0] == [];
    assert LogRecords([log]) == [|log| % 256] + log;
  }

  /** The "log" listener. */
  method OnLog(log: seq<byte>) returns (r: seq<byte>)
    ensures r == LogMessage(log)
  {
    var writer := StartMessage(1 + 8 + 1 + |log|, LogsMessage, 1);
    writer.WriteUInt8(|log|);
    writer.WriteString(log);
    r := FinishMessage(writer);
  }

  // ---------------------------------------------------------------- Params snapshot

  /** One entry of paramsBinary: name bytes, type, encoded value. */
  datatype Encoded = Encoded(name: seq<byte>, valueType: ValueType, value: seq<byte>)

  /** The map over Object.entries: fails with the first encodeValue failure. */
  function EncodeEntries(widths: ValueType -> nat, entries: seq<(seq<byte>, Value)>): (r: Result<seq<Encoded>>)
    ensures r.Ok? ==> |r.value| == |entries|
  {
    if entries == [] then Ok([])
    else
      match EncodeEntries(widths, entries[..|entries| - 1])
      case Err(e) => Err(e)
      case Ok(init) =>
        var (name, v) := entries[|entries| - 1];
        match EncodedValue(widths, v)
        case Err(e) => Err(e)
        case Ok(bytes) => Ok(init + [Encoded(name, TypeOf(v), bytes)])
  }

  /** Σ (nameLen + valueLen + 3), the reduce of the size computation. */
  function ParamsPayload(ps: seq<Encoded>): nat
  {
    if ps == [] then 0
    else ParamsPayload(ps[..|ps| - 1]) + |ps[|ps| - 1].name| + |ps[|ps| - 1].value| + 3
  }

  /** One written entry: [u8 nameLen][name][u8 type]([u8 valueLen] for strings)[value]. */
  function ParamRecord(p: Encoded): seq<byte>
  {
    [|p.name| % 256] + p.name + [p.valueType]
      + (if p.valueType == 9 then [|p.value| % 256] else []) + p.value
  }

  function ParamRecords(ps: seq<Encoded>): seq<byte>
  {
    if ps == [] then [] else ParamRecords(ps[..|ps| - 1]) + ParamRecord(ps[|ps| - 1])
  }

  /** The Params snapshot as getBuffer returns it: [1][u64 LE count][records]. */
  function ParamsLayout(ps: seq<Encoded>): seq<byte>
  {
    [ParamsMessage] + LE(|ps|, 8) + ParamRecords(ps)
  }

  /** The number of entries whose type is not String. */
  function NonStrings(ps: seq<Encoded>): nat
  {
    if ps == [] then 0
    else NonStrings(ps[..|ps| - 1]) + (if ps[|ps| - 1].valueType == 9 then 0 else 1)
  }

  /** The writer is allocated one byte too many for every non-string entry;
      getBuffer trims them. */
  lemma {:induction false} ParamsAllocationSlack(ps: seq<Encoded>)
    ensures 1 + 8 + ParamsPayload(ps) == |ParamsLayout(ps)| + NonStrings(ps)
    decreases |ps|
  {
    if ps != [] {
      ParamsAllocationSlack(ps[..|ps| - 1]);
    }
  }

  /** The body of the snapshot loop for one entry. */
  method WriteRecord(writer: BinaryWriter, p: Encoded)
    requires writer.Valid()
    modifies writer.Repr
    ensures writer.Valid() && writer.Contents() == old(writer.Contents()) + ParamRecord(p)
    ensures fresh(writer.Repr - old(writer.Repr))
  {
    writer.WriteUInt8(|p.name|);
    writer.WriteBytes(p.name);
    writer.WriteUInt8(p.valueType);
    if p.valueType == 9 {
      writer.WriteUInt8(|p.value|);
    }
    writer.WriteBytes(p.value);
  }

  /** The Params snapshot, or the RangeError an F64 parameter raises in
      encodeValue before anything is written. */
  method ParamsSnapshot(widths: ValueType -> nat, entries: seq<(seq<byte>, Value)>) returns (r: Result<seq<byte>>)
    ensures r == match EncodeEntries(widths, entries)
                 case Err(e) => Err(e)
                 case Ok(ps) => Ok(ParamsLayout(ps))
  {
    var encoded := EncodeEntries(widths, entries);
    if encoded.Err? {
      return Err(encoded.error);
    }
    var ps := encoded.value;
    r := ParamsWrite(ps);
  }

  /** The writer part of the Params snapshot for the encoded entries. */
  method ParamsWrite(ps: seq<Encoded>) returns (r: Result<seq<byte>>)
    ensures r == Ok(ParamsLayout(ps))
  {
    var writer := StartMessage(1 + 8 + ParamsPayload(ps), ParamsMessage, |ps|);
    assert ps[..0] == [];
    var i := 0;
    while i < |ps|
      invariant 0 <= i <= |ps|
      invariant writer.Valid() && fresh(writer.Repr)
      invariant writer.Contents() == [ParamsMessage] + LE(|ps|, 8) + ParamRecords(ps[..i])
    {
      assert ps[..i + 1][..i] == ps[..i];
      WriteRecord(writer, ps[i]);
      i := i + 1;
    }
    assert ps[..i] == ps;
    var bytes := FinishMessage(writer);
    r := Ok(bytes);
  }

  /** The snapshot fails exactly when some parameter is an F64. */
  lemma {:induction false} EncodeEntriesFails(entries: seq<(seq<byte>, Value)>)
    ensures EncodeEntries(Sizes, entries).Err? <==> exists i :: 0 <= i < |entries| && entries[i].1.F64?
    decreases |entries|
  {
    if entries != [] {
      var init := entries[..|entries| - 1];
      EncodeEntriesFails(init);
      EncodedValueShape(entries[|entries| - 1].1);
      if exists i :: 0 <= i < |init| && init[i].1.F64? {
        var i :| 0 <= i < |init| && init[i].1.F64?;
        assert entries[i].1.F64?;
      }
      if exists i :: 0 <= i < |entries| && entries[i].1.F64? {
        var i :| 0 <= i < |entries| && entries[i].1.F64?;
        if i < |entries| - 1 {
          assert init[i].1.F64?;
        }
      }
    }
  }

  /** With F64 given eight bytes the snapshot never fails, and each entry
      carries its name, its type and its own store. */
  lemma {:induction false} EncodeEntriesIntended(entries: seq<(seq<byte>, Value)>)
    ensures EncodeEntries(IntendedSizes, entries).Ok?
    ensures forall i :: 0 <= i < |entries| ==>
      EncodeEntries(IntendedSizes, entries).value[i] == IntendedEncoding(entries[i])
    decreases |entries|
  {
    if entries != [] {
      var init := entries[..|entries| - 1];
      var last := entries[|entries| - 1];
      EncodeEntriesIntended(init);
      EncodedValueIntended(last.1);
      var before := EncodeEntries(IntendedSizes, init).value;
      var all := before + [IntendedEncoding(last)];
      assert EncodeEntries(IntendedSizes, entries) == Ok(all);
      forall i | 0 <= i < |entries|
        ensures all[i] == IntendedEncoding(entries[i])
      {
        if i < |init| {
          assert init[i] == entries[i];
          assert all[i] == before[i];
        }
      }
    }
  }

  /** An entry as the Params snapshot carries it when F64 has eight bytes. */
  function IntendedEncoding(entry: (seq<byte>, Value)): Encoded
  {
    Encoded(entry.0, TypeOf(entry.1), if entry.1.String? then entry.1.text else StoreBytes(entry.1))
  }
}
