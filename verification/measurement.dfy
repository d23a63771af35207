/**
 One point of time-series data: a key, an optional timestamp, typed fields
 and string tags. Fields and tags are kept in ordered maps (sorted entry
 lists, see `SortedMap`), so both are iterated in ascending name order.
 */
module Measurements {
  import opened Options
  import opened StringOrder
  import opened SortedMap

  /** A signed 32-bit integer. */
  newtype Int32 = x: int | -0x8000_0000 <= x < 0x8000_0000

  /** A signed 64-bit integer. */
  newtype Int64 = x: int | -0x8000_0000_0000_0000 <= x < 0x8000_0000_0000_0000

  /** The IEEE 754 bit pattern of a 64-bit float; stored and handed back, never interpreted. */
  type Float64 = bv64

  /** A field value: exactly one of four payload kinds. */
  datatype Value =
    | String(text: string)
    | Float(bits: Float64)
    | Integer(number: Int64)
    | Boolean(flag: bool)

  datatype Measurement = Measurement(
    key: string,
    timestamp: Option<Int32>,
    fields: Entries<Value>,
    tags: Entries<string>)
  {
    /** The field names and their values, as a map. */
    function FieldMap(): map<string, Value> {
      ToMap(fields)
    }

    /** The tag names and their values, as a map. */
    function TagMap(): map<string, string> {
      ToMap(tags)
    }
  }

  /** A measurement with the given key and nothing else; any key is accepted. */
  function New(key: string): (m: Measurement)
    ensures m.key == key
    ensures m.timestamp == None
    ensures m.FieldMap() == map[] && m.TagMap() == map[]
    ensures |m.fields| == 0 && |m.tags| == 0
  {
    Measurement(key, None, [], [])
  }

  /** Sets field `field` to `value`, replacing any earlier value of that field. */
  function AddField(m: Measurement, field: string, value: Value): (r: Measurement)
    ensures r.FieldMap() == m.FieldMap()[field := value]
    ensures r.FieldMap().Keys == m.FieldMap().Keys + {field}
    ensures r.key == m.key && r.timestamp == m.timestamp && r.tags == m.tags
  {
    m.(fields := Insert(m.fields, field, value))
  }

  /** Sets tag `tag` to `value`, replacing any earlier value of that tag. */
  function AddTag(m: Measurement, tag: string, value: string): (r: Measurement)
    ensures r.TagMap() == m.TagMap()[tag := value]
    ensures r.TagMap().Keys == m.TagMap().Keys + {tag}
    ensures r.key == m.key && r.timestamp == m.timestamp && r.fields == m.fields
  {
    m.(tags := Insert(m.tags, tag, value))
  }

  /** Sets the timestamp, replacing any earlier one. */
  function SetTimestamp(m: Measurement, timestamp: Int32): (r: Measurement)
    ensures r.timestamp == Some(timestamp)
    ensures r.key == m.key && r.fields == m.fields && r.tags == m.tags
  {
    m.(timestamp := Some(timestamp))
  }

  /** A second `AddField` of the same name wins, whatever its variant. */
  lemma AddFieldLastWriteWins(m: Measurement, field: string, v1: Value, v2: Value)
    ensures AddField(AddField(m, field, v1), field, v2) == AddField(m, field, v2)
  {
    InsertOverwrites(m.fields, field, v1, v2);
  }

  /** A second `AddTag` of the same name wins. */
  lemma AddTagLastWriteWins(m: Measurement, tag: string, v1: string, v2: string)
    ensures AddTag(AddTag(m, tag, v1), tag, v2) == AddTag(m, tag, v2)
  {
    InsertOverwrites(m.tags, tag, v1, v2);
  }

  /** Adding two different fields gives the same measurement in either order. */
  lemma AddFieldOrderIrrelevant(m: Measurement, f1: string, v1: Value, f2: string, v2: Value)
    requires f1 != f2
    ensures AddField(AddField(m, f1, v1), f2, v2) == AddField(AddField(m, f2, v2), f1, v1)
  {
    InsertCommutes(m.fields, f1, v1, f2, v2);
  }

  /** Adding two different tags gives the same measurement in either order. */
  lemma AddTagOrderIrrelevant(m: Measurement, t1: string, v1: string, t2: string, v2: string)
    requires t1 != t2
    ensures AddTag(AddTag(m, t1, v1), t2, v2) == AddTag(AddTag(m, t2, v2), t1, v1)
  {
    InsertCommutes(m.tags, t1, v1, t2, v2);
  }

  /**
   Fields and tags are separate namespaces: a field and a tag may share a
   name, and setting one never touches the other.
   */
  lemma FieldsAndTagsIndependent(m: Measurement, name: string, v: Value, t: string)
    ensures AddField(m, name, v).TagMap() == m.TagMap()
    ensures AddTag(m, name, t).FieldMap() == m.FieldMap()
    ensures AddTag(AddField(m, name, v), name, t) == AddField(AddTag(m, name, t), name, v)
    ensures var r := AddTag(AddField(m, name, v), name, t);
      r.FieldMap()[name] == v && r.TagMap()[name] == t
  {
  }

  /** A later timestamp replaces an earlier one; setting the same one twice changes nothing. */
  lemma SetTimestampLastWriteWins(m: Measurement, t1: Int32, t2: Int32)
    ensures SetTimestamp(SetTimestamp(m, t1), t2) == SetTimestamp(m, t2)
    ensures SetTimestamp(SetTimestamp(m, t1), t1) == SetTimestamp(m, t1)
  {
  }

  /**
   A stored timestamp always lies in the signed 32-bit range. The bound is
   carried by the `Int32` type of the timestamp, not established by a proof;
   this lemma only records it.
   */
  lemma TimestampInRange(m: Measurement)
    ensures m.timestamp.Some? ==> -0x8000_0000 <= m.timestamp.value as int <= 0x7FFF_FFFF
  {
  }

  /**
   Field and tag names are listed in strictly ascending order, once each,
   together with the values the maps hold for them.
   */
  lemma NamesAscending(m: Measurement)
    ensures forall i, j :: 0 <= i < j < |m.fields| ==> Less(m.fields[i].0, m.fields[j].0)
    ensures forall i, j :: 0 <= i < j < |m.tags| ==> Less(m.tags[i].0, m.tags[j].0)
    ensures forall i :: 0 <= i < |m.fields| ==>
      m.fields[i].0 in m.FieldMap() && m.FieldMap()[m.fields[i].0] == m.fields[i].1
    ensures forall i :: 0 <= i < |m.tags| ==>
      m.tags[i].0 in m.TagMap() && m.TagMap()[m.tags[i].0] == m.tags[i].1
    ensures forall f :: f in m.FieldMap() ==>
      exists i :: 0 <= i < |m.fields| && m.fields[i].0 == f
    ensures forall t :: t in m.TagMap() ==>
      exists i :: 0 <= i < |m.tags| && m.tags[i].0 == t
  {
    IterationOrder(m.fields);
    IterationOrder(m.tags);
  }

  /**
   Two measurements with the same key, timestamp, field map and tag map are
   the same measurement: the order entries were added in leaves no trace.
   */
  lemma DeterminedByMaps(m1: Measurement, m2: Measurement)
    requires m1.key == m2.key && m1.timestamp == m2.timestamp
    requires m1.FieldMap() == m2.FieldMap() && m1.TagMap() == m2.TagMap()
    ensures m1 == m2
  {
    Canonical(m1.fields, m2.fields);
    Canonical(m1.tags, m2.tags);
  }

  /** A cpu reading: one float field, one tag, a timestamp. */
  lemma CpuReading()
    ensures var m := SetTimestamp(AddTag(AddField(New("cpu"), "usage", Float(0x4050_2000_0000_0000)),
                                         "host", "server01"), 1440924047);
      && m.key == "cpu"
      && m.fields == [("usage", Float(0x4050_2000_0000_0000))]
      && m.tags == [("host", "server01")]
      && m.timestamp == Some(1440924047)
  {
  }

  /** Writing an integer and then a boolean to one field keeps only the boolean. */
  lemma VariantReplaced()
    ensures AddField(AddField(New("k"), "a", Integer(1)), "a", Boolean(true)).fields
            == [("a", Boolean(true))]
  {
  }
}
