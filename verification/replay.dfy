/**
 Sequences of calls on a measurement, and what they leave behind: for every
 name, the value of the most recent call that wrote it.
 */
module Replay {
  import opened Options
  import opened Measurements

  /** One mutating call on a measurement. */
  datatype Call =
    | AddFieldCall(field: string, fieldValue: Value)
    | AddTagCall(tag: string, tagValue: string)
    | SetTimestampCall(timestamp: Int32)

  function Apply(m: Measurement, c: Call): Measurement {
    match c
    case AddFieldCall(f, v) => AddField(m, f, v)
    case AddTagCall(t, v) => AddTag(m, t, v)
    case SetTimestampCall(t) => SetTimestamp(m, t)
  }

  /** Performs the calls first to last. */
  function Run(m: Measurement, calls: seq<Call>): Measurement
    decreases |calls|
  {
    if |calls| == 0 then m else Run(Apply(m, calls[0]), calls[1..])
  }

  /** The value of the last call that sets field `name`, searching from the end. */
  function LastField(calls: seq<Call>, name: string): Option<Value>
    decreases |calls|
  {
    if |calls| == 0 then None
    else
      var c := calls[|calls| - 1];
      if c.AddFieldCall? && c.field == name then Some(c.fieldValue)
      else LastField(calls[..|calls| - 1], name)
  }

  /** The value of the last call that sets tag `name`, searching from the end. */
  function LastTag(calls: seq<Call>, name: string): Option<string>
    decreases |calls|
  {
    if |calls| == 0 then None
    else
      var c := calls[|calls| - 1];
      if c.AddTagCall? && c.tag == name then Some(c.tagValue)
      else LastTag(calls[..|calls| - 1], name)
  }

  /** The argument of the last timestamp call, searching from the end. */
  function LastTimestamp(calls: seq<Call>): Option<Int32>
    decreases |calls|
  {
    if |calls| == 0 then None
    else
      var c := calls[|calls| - 1];
      if c.SetTimestampCall? then Some(c.timestamp)
      else LastTimestamp(calls[..|calls| - 1])
  }

  /** Running calls and then one more is running that one on the result. */
  lemma {:induction false} RunSnoc(m: Measurement, calls: seq<Call>, c: Call)
    ensures Run(m, calls + [c]) == Apply(Run(m, calls), c)
    decreases |calls|
  {
    if |calls| > 0 {
      assert (calls + [c])[1..] == calls[1..] + [c];
      RunSnoc(Apply(m, calls[0]), calls[1..], c);
    }
  }

  /**
   Last write wins, per name and independently for fields, tags and the
   timestamp; a name no call writes keeps its earlier value, and the key
   never changes.
   */
  lemma {:induction false} RunLastWriteWins(m: Measurement, calls: seq<Call>, name: string)
    ensures Lookup(Run(m, calls).FieldMap(), name)
            == LastField(calls, name).OrElse(Lookup(m.FieldMap(), name))
    ensures Lookup(Run(m, calls).TagMap(), name)
            == LastTag(calls, name).OrElse(Lookup(m.TagMap(), name))
    ensures Run(m, calls).timestamp == LastTimestamp(calls).OrElse(m.timestamp)
    ensures Run(m, calls).key == m.key
    decreases |calls|
  {
    if |calls| > 0 {
      var init, c := calls[..|calls| - 1], calls[|calls| - 1];
      assert calls == init + [c];
      RunSnoc(m, init, c);
      RunLastWriteWins(m, init, name);
    }
  }

  /** Some call sets field `name`. */
  predicate WritesField(calls: seq<Call>, name: string) {
    exists i :: 0 <= i < |calls| && calls[i].AddFieldCall? && calls[i].field == name
  }

  /** Some call sets tag `name`. */
  predicate WritesTag(calls: seq<Call>, name: string) {
    exists i :: 0 <= i < |calls| && calls[i].AddTagCall? && calls[i].tag == name
  }

  lemma {:induction false} LastFieldFound(calls: seq<Call>, name: string)
    ensures LastField(calls, name).Some? <==> WritesField(calls, name)
    decreases |calls|
  {
    if |calls| > 0 {
      var init := calls[..|calls| - 1];
      LastFieldFound(init, name);
      if WritesField(init, name) {
        var i :| 0 <= i < |init| && init[i].AddFieldCall? && init[i].field == name;
        assert calls[i] == init[i];
      }
    }
  }

  lemma {:induction false} LastTagFound(calls: seq<Call>, name: string)
    ensures LastTag(calls, name).Some? <==> WritesTag(calls, name)
    decreases |calls|
  {
    if |calls| > 0 {
      var init := calls[..|calls| - 1];
      LastTagFound(init, name);
      if WritesTag(init, name) {
        var i :| 0 <= i < |init| && init[i].AddTagCall? && init[i].tag == name;
        assert calls[i] == init[i];
      }
    }
  }

  /**
   Starting from a new measurement, the names present afterwards are exactly
   the names some call wrote, each holding the value of its last write.
   */
  lemma FromNew(key: string, calls: seq<Call>, name: string)
    ensures var m := Run(New(key), calls);
      && (name in m.FieldMap() <==> WritesField(calls, name))
      && (name in m.TagMap() <==> WritesTag(calls, name))
      && (name in m.FieldMap() ==> Some(m.FieldMap()[name]) == LastField(calls, name))
      && (name in m.TagMap() ==> Some(m.TagMap()[name]) == LastTag(calls, name))
      && m.key == key
      && m.timestamp == LastTimestamp(calls)
  {
    RunLastWriteWins(New(key), calls, name);
    LastFieldFound(calls, name);
    LastTagFound(calls, name);
  }
}
