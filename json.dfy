/**
 * The JSON values the server builds and sends (Python dicts, lists, str,
 * int, float, bool and None), and `sanitize_for_json`, which replaces every
 * NaN or infinite float with None so that the value can be serialised as
 * strict JSON.
 */
module Json {
  import opened Bytes
  import opened Wrappers

  /**
   * A Python float. `Single` is a value that came out of an IEEE-754 binary32
   * field of a device frame, kept as its 32 raw bits; `Decimal` is any other
   * finite float (a quotient such as `t_ms / 1000.0`, or a number the client
   * sent); `NaN` and `Infinity` are the non-finite values a client may send.
   */
  datatype Float =
    | Single(bits: u32)
    | Decimal(value: real)
    | NaN
    | Infinity(negative: bool)

  /** The 8-bit exponent field of binary32 bits. */
  function ExponentField(bits: nat): (e: nat)
    ensures e < 256
  {
    (bits / 0x80_0000) % 256
  }

  /** `not (math.isnan(f) or math.isinf(f))`: a binary32 value is NaN or infinite exactly when its exponent field is all ones. */
  predicate IsFinite(f: Float) {
    match f
    case Single(bits) => ExponentField(bits) != 0xFF
    case Decimal(_) => true
    case NaN => false
    case Infinity(_) => false
  }

  datatype JValue =
    | JNull
    | JBool(b: bool)
    | JInt(i: int)
    | JFloat(f: Float)
    | JStr(s: string)
    | JList(items: seq<JValue>)
    | JObject(fields: map<string, JValue>)

  /** No NaN or infinite float occurs anywhere in `v`. */
  predicate Clean(v: JValue) {
    match v
    case JFloat(f) => IsFinite(f)
    case JList(items) => forall i :: 0 <= i < |items| ==> Clean(items[i])
    case JObject(fields) => forall k :: k in fields ==> Clean(fields[k])
    case _ => true
  }

  /**
   * `sanitize_for_json`: rebuilds dicts and lists with every element
   * sanitised, turns a non-finite float into None and returns every other
   * value as it is.
   */
  function Sanitize(v: JValue): (r: JValue)
    ensures Clean(r)
    ensures v.JList? ==> r.JList? && |r.items| == |v.items|
    ensures v.JObject? ==> r.JObject? && r.fields.Keys == v.fields.Keys
    ensures v.JList? ==> forall i :: 0 <= i < |v.items| ==> r.items[i] == Sanitize(v.items[i])
    ensures v.JObject? ==> forall k :: k in v.fields ==> r.fields[k] == Sanitize(v.fields[k])
    ensures v.JFloat? && !IsFinite(v.f) ==> r == JNull
    ensures v.JFloat? && IsFinite(v.f) ==> r == v
    ensures !v.JFloat? && !v.JList? && !v.JObject? ==> r == v
  {
    match v
    case JObject(fields) =>
      JObject(map k | k in fields :: Sanitize(fields[k]))
    case JList(items) =>
      JList(seq(|items|, i requires 0 <= i < |items| => Sanitize(items[i])))
    case JFloat(f) =>
      if IsFinite(f) then v else JNull
    case _ => v
  }

  /** A value without NaN or infinities is left exactly as it is. */
  lemma {:induction false} SanitizeClean(v: JValue)
    requires Clean(v)
    ensures Sanitize(v) == v
  {
    match v
    case JObject(fields) =>
      forall k | k in fields
        ensures Sanitize(fields[k]) == fields[k]
      {
        SanitizeClean(fields[k]);
      }
      assert Sanitize(v).fields == fields;
    case JList(items) =>
      forall i | 0 <= i < |items|
        ensures Sanitize(items[i]) == items[i]
      {
        SanitizeClean(items[i]);
      }
      assert Sanitize(v).items == items;
    case _ =>
  }

  /** One step into a JSON value: a list index or a dict key. */
  datatype PathStep = Index(i: nat) | Key(k: string)

  /** The value found by following `path` into `v`, None when the path leaves the value. */
  function At(v: JValue, path: seq<PathStep>): Option<JValue>
    decreases |path|
  {
    if path == [] then Some(v)
    else match path[0]
      case Index(i) => if v.JList? && i < |v.items| then At(v.items[i], path[1..]) else None
      case Key(k) => if v.JObject? && k in v.fields then At(v.fields[k], path[1..]) else None
  }

  /**
   * Sanitising keeps the shape of a value: every position of the original
   * exists in the result and no other does, and what the result holds there
   * is the sanitised original.
   */
  lemma {:induction false} SanitizeAt(v: JValue, path: seq<PathStep>)
    ensures At(Sanitize(v), path).Some? <==> At(v, path).Some?
    ensures At(v, path).Some? ==> At(Sanitize(v), path) == Some(Sanitize(At(v, path).value))
    decreases |path|
  {
    if path != [] {
      match path[0]
      case Index(i) =>
        if v.JList? && i < |v.items| {
          SanitizeAt(v.items[i], path[1..]);
        }
      case Key(k) =>
        if v.JObject? && k in v.fields {
          SanitizeAt(v.fields[k], path[1..]);
        }
    }
  }

  /**
   * At any depth, a NaN or infinite float becomes None and every other
   * scalar (a finite float included) is left exactly as it is.
   */
  lemma SanitizeLeaf(v: JValue, path: seq<PathStep>)
    requires At(v, path).Some? && !At(v, path).value.JList? && !At(v, path).value.JObject?
    ensures var x := At(v, path).value;
      At(Sanitize(v), path) == Some(if x.JFloat? && !IsFinite(x.f) then JNull else x)
  {
    SanitizeAt(v, path);
  }

  /** Sanitising twice is the same as sanitising once. */
  lemma SanitizeIdempotent(v: JValue)
    ensures Sanitize(Sanitize(v)) == Sanitize(v)
  {
    SanitizeClean(Sanitize(v));
  }
}
