/** Values shared by the device agent, the ingestion endpoint and the reading store. */
module Telemetry {

  datatype Option<+T> = None | Some(value: T)

  datatype Result<+T, +E> = Ok(value: T) | Err(error: E)

  /** A scalar sensor value as it travels in JSON: a number or a string. */
  datatype Value = Num(n: real) | Str(s: string)

  /** One named entry of a reading. */
  datatype Field = Field(key: string, value: Value)

  /**
   * A reading: the dictionary a sensor read produces, as its items in
   * insertion order (the order in which Python iterates over it). A
   * dictionary holds each key once; the type does not enforce that, and
   * Lookup takes the first item with the key.
   */
  type Reading = seq<Field>

  /** The value `key` maps to, found the way dictionary indexing finds it. */
  function Lookup(r: Reading, key: string): (v: Option<Value>)
    ensures v.Some? <==> exists i :: 0 <= i < |r| && r[i].key == key
    ensures v.Some? ==> Field(key, v.value) in r
  {
    if r == [] then None
    else if r[0].key == key then Some(r[0].value)
    else Lookup(r[1..], key)
  }

  /** Whether `key` is one of the reading's keys. */
  predicate HasKey(r: Reading, key: string)
  {
    exists i :: 0 <= i < |r| && r[i].key == key
  }

  /**
   * The JSON object a producer posts to the ingestion endpoint. A key that is
   * absent from the object is None; `deviceType` is informational only.
   */
  datatype Envelope = Envelope(
    groupId: Option<string>,
    timestamp: Option<real>,
    sensorData: Option<Reading>,
    deviceType: Option<string>)
}
