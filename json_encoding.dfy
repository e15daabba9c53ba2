/**
 * How a decoded plist becomes JSON: json.dump serialises strings, numbers,
 * booleans, lists and dicts itself and hands every other object to the
 * `default` hook convert_to_json_serializable, which turns a datetime into
 * its ISO-8601 text and bytes into standard base64, and raises TypeError
 * for anything else. This module models that at the level of values; the
 * JSON text layout is not modelled.
 */
module JsonEncoding {
  import opened Wrappers
  import Base64

  /** A datetime as plistlib returns it; its text form comes from a caller-supplied isoformat. */
  datatype DateTime = DateTime(year: int, month: int, day: int, hour: int, minute: int, second: int, microsecond: int)

  /** A value plistlib.load returns. */
  datatype PlistValue =
    | PNull                                    // None, from the null token of a binary plist
    | PString(s: string)
    | PInteger(i: int)
    | PReal(bits: bv64)                        // an IEEE-754 double, kept as its bits
    | PBoolean(b: bool)
    | PDate(d: DateTime)
    | PData(bytes: seq<Base64.byte>)
    | PArray(items: seq<PlistValue>)
    | PDict(entries: seq<(string, PlistValue)>)  // keys in document order
    | PUid(n: int)                             // plistlib.UID, found in keyed-archive binary plists

  /** A JSON value. */
  datatype Json =
    | JNull
    | JString(s: string)
    | JInt(i: int)
    | JReal(bits: bv64)
    | JBool(b: bool)
    | JArray(items: seq<Json>)
    | JObject(members: seq<(string, Json)>)

  /** The objects json.dump cannot serialise itself and passes to the default hook. */
  datatype Unserializable =
    | UDateTime(d: DateTime)
    | UBytes(bytes: seq<Base64.byte>)
    | UByteArray(bytes: seq<Base64.byte>)
    | UOther(typeName: string)

  /** str(type(obj)) for a plistlib.UID. */
  const UidTypeName: string := "<class 'plistlib.UID'>"

  function TypeErrorMessage(typeName: string): string {
    "Type non sérialisable en JSON : " + typeName
  }

  /**
   * convert_to_json_serializable: datetime to isoformat(), bytes and
   * bytearray to their standard base64 text, every other type to a
   * TypeError. Since Base64.Decode accepts only Encode's output, the
   * round trip pins the text as well.
   */
  function ConvertToJsonSerializable(obj: Unserializable, isoformat: DateTime -> string): (r: Result<string, string>)
    ensures r.Ok? <==> !obj.UOther?
    ensures obj.UDateTime? ==> r == Ok(isoformat(obj.d))
    ensures (obj.UBytes? || obj.UByteArray?) ==>
      r == Ok(Base64.Encode(obj.bytes)) &&
      Base64.Decode(r.value) == Some(obj.bytes) && |r.value| == 4 * ((|obj.bytes| + 2) / 3)
    ensures obj.UOther? ==> r.error == TypeErrorMessage(obj.typeName)
  {
    match obj
    case UDateTime(d) => Ok(isoformat(d))
    case UBytes(b) =>
      Base64.DecodeEncode(b);
      Base64.EncodeLength(b);
      Ok(Base64.Encode(b))
    case UByteArray(b) =>
      Base64.DecodeEncode(b);
      Base64.EncodeLength(b);
      Ok(Base64.Encode(b))
    case UOther(name) => Err(TypeErrorMessage(name))
  }

  /** A string the hook produced, as the JSON string json.dump writes for it. */
  function Hooked(r: Result<string, string>): Result<Json, string> {
    match r
    case Ok(s) => Ok(JString(s))
    case Err(e) => Err(e)
  }

  /** The first error among rs, or all their values. */
  function Collect(rs: seq<Result<Json, string>>): (r: Result<seq<Json>, string>)
    ensures r.Ok? <==> forall i :: 0 <= i < |rs| ==> rs[i].Ok?
    ensures r.Ok? ==> |r.value| == |rs| && forall i :: 0 <= i < |rs| ==> r.value[i] == rs[i].value
    ensures r.Err? ==> exists i :: 0 <= i < |rs| && rs[i] == Err(r.error) && forall k :: 0 <= k < i ==> rs[k].Ok?
  {
    if |rs| == 0 then Ok([])
    else if rs[0].Err? then Err(rs[0].error)
    else
      match Collect(rs[1..])
      case Err(e) => Err(e)
      case Ok(tail) => Ok([rs[0].value] + tail)
  }

  /** Pairs each key with the JSON of its value. */
  function Members(keys: seq<string>, values: seq<Json>): (m: seq<(string, Json)>)
    requires |keys| == |values|
  {
    seq(|keys|, i requires 0 <= i < |keys| => (keys[i], values[i]))
  }

  /**
   * The JSON json.dump(value, default=convert_to_json_serializable) writes,
   * or the message of the first error it raises, in document order.
   */
  function JsonOf(v: PlistValue, isoformat: DateTime -> string): Result<Json, string>
    decreases v
  {
    match v
    case PNull => Ok(JNull)
    case PString(s) => Ok(JString(s))
    case PInteger(i) => Ok(JInt(i))
    case PReal(x) => Ok(JReal(x))
    case PBoolean(b) => Ok(JBool(b))
    case PDate(d) => Hooked(ConvertToJsonSerializable(UDateTime(d), isoformat))
    case PData(b) => Hooked(ConvertToJsonSerializable(UBytes(b), isoformat))
    case PUid(_) => Hooked(ConvertToJsonSerializable(UOther(UidTypeName), isoformat))
    case PArray(items) =>
      var rs := seq(|items|, i requires 0 <= i < |items| => JsonOf(items[i], isoformat));
      (match Collect(rs)
       case Err(e) => Err(e)
       case Ok(js) => Ok(JArray(js)))
    case PDict(entries) =>
      var rs := seq(|entries|, i requires 0 <= i < |entries| => JsonOf(entries[i].1, isoformat));
      (match Collect(rs)
       case Err(e) => Err(e)
       case Ok(js) => Ok(JObject(Members(seq(|entries|, i requires 0 <= i < |entries| => entries[i].0), js))))
  }

  /** The value holds a plistlib.UID somewhere. */
  predicate HasUid(v: PlistValue)
    decreases v
  {
    match v
    case PUid(_) => true
    case PArray(items) => exists i :: 0 <= i < |items| && HasUid(items[i])
    case PDict(entries) => exists i :: 0 <= i < |entries| && HasUid(entries[i].1)
    case _ => false
  }

  /**
   * j carries all of v: None as null, same strings, numbers and booleans,
   * dates as their isoformat text, data as base64 text that decodes to the same bytes,
   * lists element by element, dicts key by key in the same order.
   */
  predicate Represents(v: PlistValue, j: Json, isoformat: DateTime -> string)
    decreases v
  {
    match v
    case PNull => j == JNull
    case PString(s) => j == JString(s)
    case PInteger(i) => j == JInt(i)
    case PReal(x) => j == JReal(x)
    case PBoolean(b) => j == JBool(b)
    case PDate(d) => j == JString(isoformat(d))
    case PData(b) => j.JString? && Base64.Decode(j.s) == Some(b)
    case PUid(_) => false
    case PArray(items) =>
      j.JArray? && |j.items| == |items| &&
      forall i :: 0 <= i < |items| ==> Represents(items[i], j.items[i], isoformat)
    case PDict(entries) =>
      j.JObject? && |j.members| == |entries| &&
      forall i :: 0 <= i < |entries| ==>
        j.members[i].0 == entries[i].0 && Represents(entries[i].1, j.members[i].1, isoformat)
  }

  /** Serialisation fails exactly when the value holds a UID, and then with the hook's TypeError for it. */
  lemma {:induction false} JsonOfFailsOnUid(v: PlistValue, isoformat: DateTime -> string)
    ensures JsonOf(v, isoformat).Err? <==> HasUid(v)
    ensures JsonOf(v, isoformat).Err? ==> JsonOf(v, isoformat).error == TypeErrorMessage(UidTypeName)
    decreases v
  {
    match v
    case PArray(items) =>
      var rs := seq(|items|, i requires 0 <= i < |items| => JsonOf(items[i], isoformat));
      forall i | 0 <= i < |items|
        ensures rs[i].Err? <==> HasUid(items[i])
        ensures rs[i].Err? ==> rs[i].error == TypeErrorMessage(UidTypeName)
      {
        JsonOfFailsOnUid(items[i], isoformat);
      }
      assert JsonOf(v, isoformat).Err? <==> Collect(rs).Err?;
    case PDict(entries) =>
      var rs := seq(|entries|, i requires 0 <= i < |entries| => JsonOf(entries[i].1, isoformat));
      forall i | 0 <= i < |entries|
        ensures rs[i].Err? <==> HasUid(entries[i].1)
        ensures rs[i].Err? ==> rs[i].error == TypeErrorMessage(UidTypeName)
      {
        JsonOfFailsOnUid(entries[i].1, isoformat);
      }
      assert JsonOf(v, isoformat).Err? <==> Collect(rs).Err?;
    case _ =>
  }

  /** What serialisation produces loses nothing of the value. */
  lemma {:induction false} JsonOfIsLossless(v: PlistValue, isoformat: DateTime -> string)
    requires JsonOf(v, isoformat).Ok?
    ensures Represents(v, JsonOf(v, isoformat).value, isoformat)
    decreases v
  {
    match v
    case PArray(items) =>
      var rs := seq(|items|, i requires 0 <= i < |items| => JsonOf(items[i], isoformat));
      var js := Collect(rs).value;
      assert JsonOf(v, isoformat).value == JArray(js);
      forall i | 0 <= i < |items| ensures Represents(items[i], js[i], isoformat) {
        assert rs[i] == JsonOf(items[i], isoformat);
        JsonOfIsLossless(items[i], isoformat);
      }
    case PDict(entries) =>
      var rs := seq(|entries|, i requires 0 <= i < |entries| => JsonOf(entries[i].1, isoformat));
      var js := Collect(rs).value;
      var keys := seq(|entries|, i requires 0 <= i < |entries| => entries[i].0);
      assert JsonOf(v, isoformat).value == JObject(Members(keys, js));
      forall i | 0 <= i < |entries|
        ensures Members(keys, js)[i].0 == entries[i].0
        ensures Represents(entries[i].1, Members(keys, js)[i].1, isoformat)
      {
        assert rs[i] == JsonOf(entries[i].1, isoformat);
        JsonOfIsLossless(entries[i].1, isoformat);
      }
    case _ =>
  }
}
