# Measurement record of the influent time-series client

A Dafny model of `Measurement`, the record the influent client uses for one
point of time-series data: a key, an optional signed 32-bit timestamp, an
ordered map from field name to a four-variant `Value`, and an ordered map from
tag name to tag value. The record has four operations, `new`, `add_field`,
`add_tag` and `set_timestamp`. Each is a total update on plain data.

Layout:

- `string_order.dfy` (module `StringOrder`): the order in which string keys of
  an ordered map are iterated, proved to be a strict total order.
- `sorted_map.dfy` (module `SortedMap`): the ordered map in two views. The
  concrete view is a strictly ascending association list (`Entries<V>`). The
  abstract view is a Dafny `map` (`ToMap`). `Insert` models `BTreeMap::insert`.
  It is proved to keep the list strictly sorted and to act as `m[k := v]` on
  the map. A sorted list is determined by its map (`Canonical`), so the
  iteration order does not depend on the order of insertion.
- `measurement.dfy` (module `Measurements`): `Value`, `Measurement` and the
  four operations as pure functions from the old record to the new one, with
  the properties the record promises.
- `replay.dfy` (module `Replay`): any sequence of calls, and last-write-wins
  over the whole sequence. It is stated against an independent backward
  search for the last write of each name.
- `options.dfy` (module `Options`): the `Option` type used for the timestamp
  and for lookups.

Modelling choices:

- Mutation in place (`&mut self`) becomes a function that returns the updated
  record. The value that `BTreeMap::insert` returns is discarded by the source,
  and so it is not modelled.
- Keys are compared character by character on code points. For well-formed
  text this gives the same order as Rust's byte-wise comparison of the UTF-8
  encoding.
- `i32` and `i64` are the newtypes `Int32` and `Int64`, with exactly the Rust
  ranges. The `f64` payload of `Value::Float` is kept as its 64-bit IEEE 754
  bit pattern (`bv64`). It is stored and handed back but never interpreted.
- `set_timestamp` takes an `i32` and the record stores an `Option<i32>`; the
  model uses `Int32` for both.

## Model

| member | source | states |
|---|---|---|
| StringOrder.LessIsLexicographic | src/measurement.rs:28 | `Less`, the order of field and tag names: names compare character by character on code points and a proper prefix comes first, which for well-formed text is the byte order of their UTF-8 encodings; `Less(a, b)` holds exactly when `a` is a proper prefix of `b` or `a` has the smaller character at the first position where they differ |
| StringOrder.LessIrreflexive | src/measurement.rs:28 | no name sorts before itself, so a sorted key list cannot repeat a name |
| StringOrder.LessAsymmetric | src/measurement.rs:28 | two names are never each before the other |
| StringOrder.LessTransitive | src/measurement.rs:28 | the name order used to iterate the maps is transitive |
| StringOrder.LessTotal | src/measurement.rs:28 | any two distinct names are ordered, so every set of names has one ascending listing |
| SortedMap.Insert | src/measurement.rs:65 | map insert: the map of the result is the old map with `k` set to `v`; a strictly sorted list stays strictly sorted; the smallest key afterwards is the new key or the old smallest key |
| SortedMap.InsertOverwrites | src/measurement.rs:65 | inserting a key twice leaves the list that inserting only the second value gives |
| SortedMap.InsertCommutes | src/measurement.rs:28 | inserting two distinct keys into a sorted list gives the same list in either order |
| SortedMap.Canonical | src/measurement.rs:28 | two sorted lists that stand for the same map are the same list |
| SortedMap.IterationOrder | src/measurement.rs:28 | iterating an ordered map lists its keys in strictly ascending order, each key of the map once, with the value the map holds for it |
| SortedMap.TailMap | src/measurement.rs:28 | the smallest key occurs once; the rest of the list stands for the map without it |
| Measurements.New | src/measurement.rs:44-51 | a new record has the given key (any string, the empty one included), no timestamp, and no fields or tags |
| Measurements.AddField | src/measurement.rs:64-66 | afterwards the field map is the old one with the name set to the value, its names are the old names plus this one; key, timestamp and tags are unchanged |
| Measurements.AddTag | src/measurement.rs:79-81 | afterwards the tag map is the old one with the name set to the value, its names are the old names plus this one; key, timestamp and fields are unchanged |
| Measurements.SetTimestamp | src/measurement.rs:94-96 | afterwards the timestamp is `Some(t)` whatever it was before; key, fields and tags are unchanged |
| Measurements.AddFieldLastWriteWins | src/measurement.rs:64-66 | two writes to one field leave the record that only the second write gives, even when the variant differs |
| Measurements.AddTagLastWriteWins | src/measurement.rs:79-81 | two writes to one tag leave the record that only the second write gives |
| Measurements.AddFieldOrderIrrelevant | src/measurement.rs:28 | writing two different fields in either order gives the same record |
| Measurements.AddTagOrderIrrelevant | src/measurement.rs:31 | writing two different tags in either order gives the same record |
| Measurements.FieldsAndTagsIndependent | src/measurement.rs:27-31 | a field and a tag may share a name; writing one leaves the other map unchanged, and the two writes commute |
| Measurements.SetTimestampLastWriteWins | src/measurement.rs:94-96 | a later timestamp replaces an earlier one; setting the same timestamp twice is the same as setting it once |
| Measurements.TimestampInRange | src/measurement.rs:25 | a stored timestamp lies in [-2^31, 2^31-1]; the bound comes from the `Int32` type of the field, the lemma only records it |
| Measurements.NamesAscending | src/measurement.rs:27-31 | field names and tag names are listed in strictly ascending order, each name of the map once, with its value |
| Measurements.DeterminedByMaps | src/measurement.rs:20-32 | records with equal key, timestamp, field map and tag map are equal, whatever order the entries were added in |
| Measurements.CpuReading | src/measurement.rs:44-96 | `new("cpu")`, field `usage` = 64.5, tag `host` = `server01`, timestamp 1440924047 gives exactly that record |
| Measurements.VariantReplaced | src/measurement.rs:64-66 | writing `Integer(1)` and then `Boolean(true)` to field `a` leaves only `a` = `Boolean(true)` |
| Replay.RunSnoc | src/measurement.rs:64-96 | running a sequence of calls and then one more is the same as applying that last call to the result |
| Replay.RunLastWriteWins | src/measurement.rs:64-96 | after any sequence of calls, each field, each tag and the timestamp hold the value of the last call that wrote them, or their earlier value if no call did; the key never changes |
| Replay.LastFieldFound | src/measurement.rs:64-66 | a last write of a field exists exactly when some call writes that field |
| Replay.LastTagFound | src/measurement.rs:79-81 | a last write of a tag exists exactly when some call writes that tag |
| Replay.FromNew | src/measurement.rs:44-96 | starting from a new record, the field names and tag names present are exactly those some call wrote, each with its last value, and the timestamp is the last one set |

## Left out

- The `Debug`, `Clone`, `RustcEncodable` and `RustcDecodable` derives (src/measurement.rs:5, src/measurement.rs:19). They are generated by an external crate, and no encoding format is defined in this file.
- The borrowed-versus-owned distinction of the `Cow<'a, str>` key, and the lifetimes of the arguments. They only affect memory ownership, so the key is a plain `string`.
- Floating-point meaning of `Value::Float`. The payload is an opaque 64-bit pattern, so two floats compare by their bits (NaNs included) and not by IEEE equality.
- Serialisation, batching and transport of measurements. None of it is present in the record's source.
- The doc-comment examples (src/measurement.rs:62, src/measurement.rs:92). The first passes a `&str` where `Value::String` needs a `String`. The second passes 1440924047129, which does not fit the `i32` parameter. Neither is modelled as behaviour.
- Concurrent use of one record. The record is plain data with no synchronisation of its own.
