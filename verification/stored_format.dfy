/**
 * How a template vector is stored, and how each backend decodes it.
 *
 * A stored embedding arrives in one of three shapes: a value the database
 * driver already turned into a native list (`Native`), JSON text (`Text`),
 * or a byte blob holding UTF-8 JSON text (`Blob`). JSON parsing and UTF-8
 * decoding are foreign library calls; they are parameters here (`Codec`).
 */
module StoredFormat {
  import opened Wrappers
  import opened VectorMath

  /** The JSON values an embedding column can hold. */
  datatype Json =
    | JNull
    | JNum(n: real)
    | JBool(b: bool)
    | JArr(items: seq<Json>)
    | JOther          // a string or object: never a vector

  datatype Stored =
    | Native(value: Json)
    | Text(json: string)
    | Blob(bytes: seq<bv8>)

  /** The foreign decoders: `json.loads` and `bytes.decode('utf-8')`. */
  datatype Codec = Codec(parseJson: string -> Option<Json>, decodeUtf8: seq<bv8> -> Option<string>)

  /** NumPy reads a JSON number as itself and a boolean as 1.0 or 0.0. */
  predicate IsNumeric(j: Json) {
    j.JNum? || j.JBool?
  }

  function NumericValue(j: Json): real
    requires IsNumeric(j)
  {
    if j.JNum? then j.n else if j.b then 1.0 else 0.0
  }

  predicate AllNumbers(items: seq<Json>) {
    forall k :: 0 <= k < |items| ==> IsNumeric(items[k])
  }

  /**
   * A JSON value read as a vector: a list whose elements are all numbers or
   * booleans, a boolean counting as 1.0 or 0.0.
   */
  function AsVector(j: Json): (r: Option<Vector>)
    ensures r.Some? <==> j.JArr? && AllNumbers(j.items)
    ensures r.Some? ==> |r.value| == |j.items|
                        && forall k :: 0 <= k < |j.items| ==>
                             match j.items[k]
                             case JNum(n) => r.value[k] == n
                             case JBool(b) => r.value[k] == (if b then 1.0 else 0.0)
                             case _ => false
  {
    if j.JArr? && AllNumbers(j.items) then
      Some(seq(|j.items|, k requires 0 <= k < |j.items| => NumericValue(j.items[k])))
    else
      None
  }

  /** A list mixing booleans and numbers reads as numbers: `[true, 0.5]` is `[1.0, 0.5]`. */
  lemma BooleansReadAsNumbers()
    ensures AsVector(JArr([JBool(true), JNum(0.5), JBool(false)])) == Some([1.0, 0.5, 0.0])
  {
    var r := AsVector(JArr([JBool(true), JNum(0.5), JBool(false)]));
    assert r.Some?;
    assert r.value == [1.0, 0.5, 0.0];
  }

  /** The JSON list that stores a vector natively. */
  function ToJson(v: Vector): (j: Json)
    ensures j.JArr? && |j.items| == |v|
  {
    JArr(seq(|v|, k requires 0 <= k < |v| => JNum(v[k])))
  }

  /** Reading back a natively stored vector gives the vector itself. */
  lemma AsVectorToJson(v: Vector)
    ensures AsVector(ToJson(v)) == Some(v)
  {
    var j := ToJson(v);
    assert AllNumbers(j.items);
    assert AsVector(j).value == v;
  }

  /** The stored value as JSON, decoding text and bytes with the codec. */
  function ParseStored(c: Codec, s: Stored): Option<Json> {
    match s
    case Native(j) => Some(j)
    case Text(t) => c.parseJson(t)
    case Blob(b) =>
      match c.decodeUtf8(b)
      case None => None
      case Some(t) => c.parseJson(t)
  }

  /**
   * The relational-store reader of a visitor template: bytes and text go
   * through UTF-8 and JSON decoding, a native value is used as it is; any
   * value that does not end up as a list of numbers yields `None`.
   */
  function DecodeRelational(c: Codec, s: Stored): (r: Option<Vector>)
    ensures s.Native? ==> r == AsVector(s.value)
    ensures s.Text? ==> r == (match c.parseJson(s.json) case None => None case Some(j) => AsVector(j))
    ensures s.Blob? && c.decodeUtf8(s.bytes).None? ==> r.None?
    ensures s.Blob? && c.decodeUtf8(s.bytes).Some? ==>
              r == (match c.parseJson(c.decodeUtf8(s.bytes).value) case None => None case Some(j) => AsVector(j))
  {
    match ParseStored(c, s)
    case None => None
    case Some(j) => AsVector(j)
  }

  /**
   * The document-store reader of a visitor template: only text goes through
   * JSON decoding; a byte blob is not decoded and so never yields a vector.
   */
  function DecodeDocument(c: Codec, s: Stored): (r: Option<Vector>)
    ensures s.Blob? ==> r.None?
    ensures s.Native? ==> r == AsVector(s.value)
    ensures s.Text? ==> r == (match c.parseJson(s.json) case None => None case Some(j) => AsVector(j))
  {
    match s
    case Native(j) => AsVector(j)
    case Text(t) => (match c.parseJson(t) case None => None case Some(j) => AsVector(j))
    case Blob(_) => None
  }

  /**
   * JSON text and the native list it parses to decode to the same vector,
   * in both readers.
   */
  lemma TextDecodesLikeNative(c: Codec, t: string, j: Json)
    requires c.parseJson(t) == Some(j)
    ensures DecodeDocument(c, Text(t)) == DecodeDocument(c, Native(j))
    ensures DecodeRelational(c, Text(t)) == DecodeRelational(c, Native(j))
  {
  }

  /**
   * Python truthiness of the stored column value: `None`, `0`, `False`, an
   * empty list, an empty string and empty bytes are all false.
   */
  predicate Falsy(s: Stored) {
    match s
    case Native(j) => j == JNull || j == JNum(0.0) || j == JBool(false) || j == JArr([])
    case Text(t) => |t| == 0
    case Blob(b) => |b| == 0
  }
}
