/** The library's small helpers: `override` (the first value a test accepts)
    and `serializeError` (an error turned into a plain record that can cross
    the wire). */
module Util {
  import opened Js

  /** The message a thrown value that is not an object is reported with. */
  const InternalError: string := "Internal error."

  /** The first argument of `override`: a testing function, or the name of
      a `typeof` type. */
  datatype TypeTest = Predicate(p: JVal -> bool) | TypeName(name: string)

  predicate Passes(t: TypeTest, v: JVal)
  {
    match t
    case Predicate(p) => p(v)
    case TypeName(n) => TypeOf(v) == n
  }

  /** `override(type, ...values)`: `values.find(test)`. */
  function Override(t: TypeTest, values: seq<JVal>): (r: JVal)
    ensures (forall i :: 0 <= i < |values| ==> !Passes(t, values[i])) ==> r == Undefined
    ensures (exists i :: 0 <= i < |values| && Passes(t, values[i])) ==>
              exists i :: 0 <= i < |values| && Passes(t, values[i]) && r == values[i] &&
                forall j :: 0 <= j < i ==> !Passes(t, values[j])
    decreases |values|
  {
    if values == [] then Undefined
    else if Passes(t, values[0]) then values[0]
    else
      var r := Override(t, values[1..]);
      assert forall i :: 1 <= i < |values| ==> values[i] == values[1..][i - 1];
      r
  }

  /** `serializeError(error)`: an object is copied property by property into
      a fresh record; anything else becomes `{message: 'Internal error.'}`. */
  function SerializeError(error: JVal): (r: JVal)
    ensures r.Obj?
    ensures IsObject(error) ==> r.props == OwnProps(error)
    ensures !IsObject(error) ==> r.props == map["message" := Str(InternalError)]
  {
    if IsObject(error) then Obj(OwnProps(error))
    else Obj(map["message" := Str(InternalError)])
  }

  /** A thrown `Error(m)` (an object whose own `message` is `m`) serializes
      to a record that still carries `message: m` and loses no property. */
  lemma SerializedErrorKeepsMessage(props: map<string, JVal>, m: string)
    requires "message" in props && props["message"] == Str(m)
    ensures SerializeError(Obj(props)) == Obj(props)
    ensures Field(SerializeError(Obj(props)), "message") == Str(m)
  {
  }
}
