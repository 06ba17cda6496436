/** JavaScript values as the library sees them: the primitive kinds, plain
    objects, arrays, functions and regular expressions, with the handful of
    lodash type tests and property operations the library relies on. */
module Js {

  datatype Option<+T> = None | Some(value: T)

  /** A JavaScript value. Finite numbers are modelled by integers. Functions
      and regular expressions are identified by an opaque number; their
      behaviour is supplied separately where it matters. */
  datatype JVal =
    | Undefined
    | Null
    | Bool(b: bool)
    | Num(n: int)
    | NaN
    | Infinity(negative: bool)
    | Str(s: string)
    | Obj(props: map<string, JVal>)
    | Arr(elems: seq<JVal>)
    | Fn(fid: nat)
    | RegExp(rid: nat)

  /** An Error instance: its own properties (an own `message` among them when
      it was built with one). */
  datatype ErrorObj = ErrorObj(props: map<string, JVal>)

  /** `new Error(msg)` */
  function NewError(msg: string): (e: ErrorObj)
    ensures e.props.Keys == {"message"} && e.props["message"] == Str(msg)
  {
    ErrorObj(map["message" := Str(msg)])
  }

  /** `error.message`: the own property, else the empty string inherited
      from `Error.prototype`. */
  function MessageOf(e: ErrorObj): JVal
  {
    if "message" in e.props then e.props["message"] else Str("")
  }

  /** JavaScript truthiness. */
  predicate Truthy(v: JVal)
  {
    match v
    case Undefined => false
    case Null => false
    case Bool(b) => b
    case Num(n) => n != 0
    case NaN => false
    case Infinity(_) => true
    case Str(s) => s != ""
    case _ => true
  }

  /** lodash `isObject`: objects, arrays, functions and regular expressions. */
  predicate IsObject(v: JVal)
  {
    v.Obj? || v.Arr? || v.Fn? || v.RegExp?
  }

  /** lodash `isFinite`: a primitive finite number. */
  predicate IsFinite(v: JVal)
  {
    v.Num?
  }

  /** `typeof v` */
  function TypeOf(v: JVal): string
  {
    match v
    case Undefined => "undefined"
    case Bool(_) => "boolean"
    case Num(_) => "number"
    case NaN => "number"
    case Infinity(_) => "number"
    case Str(_) => "string"
    case Fn(_) => "function"
    case _ => "object"
  }

  /** The decimal digits of a natural number, as `String(n)` prints it. */
  function NatToString(n: nat): (s: string)
    ensures |s| >= 1
    decreases n
  {
    var d := ['0', '1', '2', '3', '4', '5', '6', '7', '8', '9'][n % 10];
    if n < 10 then [d] else NatToString(n / 10) + [d]
  }

  /** The names every plain object inherits from `Object.prototype`. */
  const ProtoKeys: set<string> := {"constructor", "hasOwnProperty", "isPrototypeOf",
    "propertyIsEnumerable", "toLocaleString", "toString", "valueOf", "__proto__",
    "__defineGetter__", "__defineSetter__", "__lookupGetter__", "__lookupSetter__"}

  /** The property key a value is converted to when used as `obj[key]`:
      `String(key)`. A plain object gives `"[object Object]"` and an array
      the keys of its elements joined with commas; functions and regular
      expressions are not modelled as keys (None). */
  function PropertyKey(v: JVal): Option<string>
    decreases v, 1
  {
    match v
    case Str(s) => Some(s)
    case Undefined => Some("undefined")
    case Null => Some("null")
    case Bool(b) => Some(if b then "true" else "false")
    case Num(n) => Some(if n < 0 then "-" + NatToString(-n) else NatToString(n))
    case NaN => Some("NaN")
    case Infinity(neg) => Some(if neg then "-Infinity" else "Infinity")
    case Obj(_) => Some("[object Object]")
    case Arr(_) => JoinKeys(v, 0)
    case _ => None
  }

  /** The key an array element contributes to the join: `null` and
      `undefined` contribute the empty string. */
  function ElementKey(x: JVal): Option<string>
    decreases x, 2
  {
    if x.Undefined? || x.Null? then Some("") else PropertyKey(x)
  }

  /** `Array.prototype.join(",")` from element `i` on. */
  function JoinKeys(whole: JVal, i: nat): Option<string>
    requires whole.Arr? && i <= |whole.elems|
    decreases whole, 0, |whole.elems| - i
  {
    var e := whole.elems;
    if i == |e| then Some("")
    else
      assert e[i] in e;
      var k := ElementKey(e[i]);
      var rest := JoinKeys(whole, i + 1);
      if k.None? || rest.None? then None
      else Some(k.value + (if i + 1 < |e| then "," + rest.value else ""))
  }

  /** Two keys joined with a comma; None when either is not modelled. */
  function Comma(a: Option<string>, b: Option<string>): Option<string>
  {
    if a.Some? && b.Some? then Some(a.value + "," + b.value) else None
  }

  /** The empty array is the empty key, and a one-element array is the key
      of its element (so `[id]` and `id` name the same property). */
  lemma ShortArrayKeys(x: JVal)
    ensures PropertyKey(Arr([])) == Some("")
    ensures PropertyKey(Arr([x])) == ElementKey(x)
  {
    var w := Arr([x]);
    assert JoinKeys(w, 1) == Some("");
    if ElementKey(x).Some? {
      assert ElementKey(x).value + "" == ElementKey(x).value;
    }
  }

  /** Appending an element to a non-empty array appends a comma and the
      element's key to the array's key. */
  lemma ArrayKeySnoc(a: seq<JVal>, x: JVal)
    requires a != []
    ensures PropertyKey(Arr(a + [x])) == Comma(PropertyKey(Arr(a)), ElementKey(x))
  {
    JoinSnoc(a, x, 0);
  }

  lemma {:induction false} JoinSnoc(a: seq<JVal>, x: JVal, i: nat)
    requires i < |a|
    ensures JoinKeys(Arr(a + [x]), i) == Comma(JoinKeys(Arr(a), i), ElementKey(x))
    decreases |a| - i
  {
    var w, w' := Arr(a), Arr(a + [x]);
    assert w'.elems[i] == a[i];
    var k := ElementKey(a[i]);
    if i + 1 == |a| {
      assert w'.elems[i + 1] == x;
      assert JoinKeys(w', i + 2) == Some("");
      assert JoinKeys(w, i + 1) == Some("");
      var ex := ElementKey(x);
      if k.Some? {
        assert JoinKeys(w, i) == Some(k.value + "");
        assert k.value + "" == k.value;
        if ex.Some? {
          assert JoinKeys(w', i + 1) == Some(ex.value + "");
          assert ex.value + "" == ex.value;
          assert JoinKeys(w', i) == Some(k.value + ("," + ex.value));
          assert k.value + ("," + ex.value) == k.value + "," + ex.value;
        }
      }
    } else {
      JoinSnoc(a, x, i + 1);
      var r, r' := JoinKeys(w, i + 1), JoinKeys(w', i + 1);
      if k.Some? && r.Some? && ElementKey(x).Some? {
        assert r' == Some(r.value + "," + ElementKey(x).value);
        assert k.value + ("," + (r.value + "," + ElementKey(x).value)) ==
               (k.value + ("," + r.value)) + "," + ElementKey(x).value;
      }
    }
  }

  /** The index-keyed properties `"0"`, `"1"`, ... of a list of values. */
  function IndexProps(elems: seq<JVal>): (m: map<string, JVal>)
    ensures |elems| > 0 ==> NatToString(|elems| - 1) in m
  {
    if elems == [] then map[]
    else IndexProps(elems[..|elems| - 1])[NatToString(|elems| - 1) := elems[|elems| - 1]]
  }

  function Chars(s: string): seq<JVal>
  {
    seq(|s|, i requires 0 <= i < |s| => Str([s[i]]))
  }

  /** The own property names and values (`Object.getOwnPropertyNames`) of an
      object value; built-in properties of functions are not modelled. */
  function OwnProps(v: JVal): map<string, JVal>
  {
    match v
    case Obj(p) => p
    case Arr(e) => IndexProps(e)["length" := Num(|e|)]
    case RegExp(_) => map["lastIndex" := Num(0)]
    case _ => map[]
  }

  /** The own enumerable properties that `Object.assign` copies from a source
      value: nothing from `null`, `undefined`, numbers and booleans. */
  function EnumProps(v: JVal): map<string, JVal>
  {
    match v
    case Obj(p) => p
    case Arr(e) => IndexProps(e)
    case Str(s) => IndexProps(Chars(s))
    case _ => map[]
  }

  /** `Object.assign(target, source)` on a plain record target. */
  function Assign(target: map<string, JVal>, source: JVal): (r: map<string, JVal>)
    ensures r.Keys == target.Keys + EnumProps(source).Keys
    ensures forall k :: k in EnumProps(source) ==> r[k] == EnumProps(source)[k]
    ensures forall k :: k in target && k !in EnumProps(source) ==> r[k] == target[k]
  {
    target + EnumProps(source)
  }

  /** The data property `key` of a value, `undefined` when absent. Only
      record properties are read; the built-in properties of strings, arrays
      and functions (`length` and the like) are not modelled. */
  function Field(v: JVal, key: string): JVal
  {
    if v.Obj? && key in v.props then v.props[key] else Undefined
  }
}
