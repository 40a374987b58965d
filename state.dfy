/** The parameter store of state.ts: a name -> (type, value) record and an
    append-only list of log lines, each mutation announced by one event. */
module StateStore {
  import opened Wrappers
  import opened Bytes
  import opened Values

  /** A parameter name or a log line, as its UTF-8 bytes. */
  type Text = seq<byte>

  /** The events State emits, carrying the mutation's arguments. */
  datatype Event =
    | LogPushed(log: Text)              // "log"
    | ParamSet(name: Text, value: Value) // "param"
    | ParamDeleted(name: Text)           // "deletedParam"
    | Triggered(name: Text)              // "trigger"

  /** One emitted event together with the store as a listener finds it. */
  datatype Emission = Emission(event: Event, params: map<Text, Value>, logs: seq<Text>)

  class State {
    var logs: seq<Text>
    var params: map<Text, Value>
    /** Every event emitted so far, in order. */
    ghost var emitted: seq<Emission>

    /** An empty store; loading params.json at start-up is not modelled. */
    constructor ()
      ensures logs == [] && params == map[] && emitted == []
    {
      logs := [];
      params := map[];
      emitted := [];
    }

    method PushLog(log: Text)
      modifies this
      ensures logs == old(logs) + [log] && params == old(params)
      ensures emitted == old(emitted) + [Emission(LogPushed(log), params, logs)]
    {
      logs := logs + [log];
      emitted := emitted + [Emission(LogPushed(log), params, logs)];
    }

    method SetParam(name: Text, value: Value)
      modifies this
      ensures params == old(params)[name := value] && logs == old(logs)
      ensures emitted == old(emitted) + [Emission(ParamSet(name, value), params, logs)]
    {
      params := params[name := value];
      emitted := emitted + [Emission(ParamSet(name, value), params, logs)];
    }

    /** Removes the name if present; the event goes out either way. */
    method DeleteParam(name: Text)
      modifies this
      ensures params == old(params) - {name} && logs == old(logs)
      ensures emitted == old(emitted) + [Emission(ParamDeleted(name), params, logs)]
    {
      params := params - {name};
      emitted := emitted + [Emission(ParamDeleted(name), params, logs)];
    }

    method GetParam(name: Text) returns (r: Option<Value>)
      ensures r.Some? <==> name in params
      ensures r.Some? ==> r.value == params[name]
    {
      r := if name in params then Some(params[name]) else None;
    }

    /** A trigger rests as (Trigger, false) in the store. */
    method Trigger(name: Text)
      modifies this
      ensures params == old(params)[name := Value.Trigger(false)] && logs == old(logs)
      ensures emitted == old(emitted) + [Emission(Triggered(name), params, logs)]
    {
      params := params[name := Value.Trigger(false)];
      emitted := emitted + [Emission(Triggered(name), params, logs)];
    }
  }

  /** `Object.entries(params)`: each stored pair exactly once, in some order. */
  ghost predicate Enumerates(entries: seq<(Text, Value)>, params: map<Text, Value>)
  {
    && (forall i, j :: 0 <= i < j < |entries| ==> entries[i].0 != entries[j].0)
    && (forall i :: 0 <= i < |entries| ==> entries[i].0 in params && params[entries[i].0] == entries[i].1)
    && (forall name :: name in params ==> exists i :: 0 <= i < |entries| && entries[i].0 == name)
  }

  /** Removing a stored name removes it from the non-trigger names, which then
      count one fewer exactly when its value is not a trigger. */
  lemma NonTriggerNamesRemove(params: map<Text, Value>, name: Text)
    requires name in params
    ensures NonTriggerNames(params - {name}) == NonTriggerNames(params) - {name}
    ensures |NonTriggerNames(params)| == |NonTriggerNames(params - {name})| + (if params[name].Trigger? then 0 else 1)
  {
    var all, rest := NonTriggerNames(params), NonTriggerNames(params - {name});
    forall x | x in rest
      ensures x in all && x != name
    {
    }
    forall x | x in all && x != name
      ensures x in rest
    {
    }
    assert rest == all - {name};
    if !params[name].Trigger? {
      assert name in all && name !in rest;
      assert all == rest + {name};
    } else {
      assert name !in all;
    }
  }

  /** Dropping the first entry of an enumeration enumerates the store without
      that name. */
  lemma EnumeratesTail(entries: seq<(Text, Value)>, params: map<Text, Value>)
    requires Enumerates(entries, params) && entries != []
    ensures Enumerates(entries[1..], params - {entries[0].0})
  {
    var smaller := params - {entries[0].0};
    forall name | name in smaller
      ensures exists i :: 0 <= i < |entries[1..]| && entries[1..][i].0 == name
    {
      var i :| 0 <= i < |entries| && entries[i].0 == name;
      assert i != 0;
      assert entries[1..][i - 1].0 == name;
    }
    forall i | 0 <= i < |entries[1..]|
      ensures entries[1..][i].0 in smaller && smaller[entries[1..][i].0] == entries[1..][i].1
    {
      assert entries[1..][i] == entries[i + 1];
      assert entries[0].0 != entries[i + 1].0;
    }
  }

  /** An enumeration of the store has one entry per stored name. */
  lemma {:induction false} EnumerationCount(entries: seq<(Text, Value)>, params: map<Text, Value>)
    requires Enumerates(entries, params)
    ensures |entries| == |params|
    decreases |entries|
  {
    if entries == [] {
      assert forall name :: name !in params;
      assert params.Keys == {};
    } else {
      EnumeratesTail(entries, params);
      EnumerationCount(entries[1..], params - {entries[0].0});
      assert entries[0].0 in params;
    }
  }

  /** The stored names whose value is not a trigger. */
  function NonTriggerNames(params: map<Text, Value>): set<Text>
  {
    set name | name in params && !params[name].Trigger?
  }
}
