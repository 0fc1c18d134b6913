/** The snap's RPC handler `onRpcRequest` (packages/snap/src/onUserInput.tsx):
    it checks its parameters in a fixed order and then dispatches on the
    method name.  JavaScript values are modelled by `JsValue`; the caller's
    origin is not read and is left out. */
module Snap {
  import opened Text

  /** The JavaScript values a caller can pass as parameters.  Numbers are
      integers here (there is no NaN), and an object is a map from property
      names to values. */
  datatype JsValue =
    | Undefined
    | Null
    | Bool(b: bool)
    | Number(n: int)
    | Str(s: string)
    | Array(items: seq<JsValue>)
    | Object(properties: map<string, JsValue>)

  /** JavaScript truthiness. */
  predicate IsTruthy(v: JsValue) {
    match v
    case Undefined => false
    case Null => false
    case Bool(b) => b
    case Number(n) => n != 0
    case Str(s) => s != ""
    case Array(_) => true
    case Object(_) => true
  }

  /** `typeof v === 'object'` (true of `null` as well). */
  predicate IsObjectType(v: JsValue) {
    v.Null? || v.Array? || v.Object?
  }

  /** A property read: absent properties read as `undefined`. */
  function Property(v: JsValue, name: string): JsValue
    requires v.Object?
  {
    if name in v.properties then v.properties[name] else Undefined
  }

  /** Why the handler threw. */
  datatype Failure = InvalidParams | InvalidUserInput | InvalidInterfaceId | UnknownMethod(name: string)

  /** The handler either returns `{ status, message }` or throws an `Error`. */
  datatype Outcome = Returned(status: string, message: string) | Threw(failure: Failure)

  const UnknownPrefix: string := "Unknown method: "
  const Confirmed: string := "GitHub handle confirmed"
  const EditStarted: string := "GitHub handle editing initiated"

  /** The message of the thrown `Error`. */
  function ErrorMessage(f: Failure): string {
    match f
    case InvalidParams => "Invalid parameters: expected an object"
    case InvalidUserInput => "Invalid user input"
    case InvalidInterfaceId => "Invalid interface ID"
    case UnknownMethod(name) => UnknownPrefix + name
  }

  /** Each failure has its own message, so a caller can tell from the message
      which check failed, and which method was unknown. */
  lemma ErrorMessageInjective(f: Failure, g: Failure)
    ensures ErrorMessage(f) == ErrorMessage(g) <==> f == g
  {
    var m, n := ErrorMessage(f), ErrorMessage(g);
    if f.UnknownMethod? {
      assert m[0] == 'U' && m[|UnknownPrefix|..] == f.name;
    }
    if g.UnknownMethod? {
      assert n[0] == 'U' && n[|UnknownPrefix|..] == g.name;
    }
  }

  /** Lines 15-17: the parameters must be a non-null, non-array object. */
  predicate ParamsOk(params: JsValue) {
    IsTruthy(params) && IsObjectType(params) && !params.Array?
  }

  /** Lines 22-24: `userInput` must be a string with something besides white
      space. */
  predicate UserInputOk(userInput: JsValue) {
    IsTruthy(userInput) && userInput.Str? && Trim(userInput.s) != []
  }

  /** Lines 25-27: `interfaceId` must be a non-empty string. */
  predicate InterfaceIdOk(interfaceId: JsValue) {
    IsTruthy(interfaceId) && interfaceId.Str?
  }

  /** `onRpcRequest({ origin, request: { method, params } })`. */
  function OnRpcRequest(methodName: string, params: JsValue): (r: Outcome)
    ensures r == Threw(InvalidParams) <==> !params.Object?
    ensures r == Threw(InvalidUserInput) <==>
      params.Object? && !(Property(params, "userInput").Str? && !IsBlank(Property(params, "userInput").s))
    ensures r == Threw(InvalidInterfaceId) <==>
      && params.Object?
      && Property(params, "userInput").Str? && !IsBlank(Property(params, "userInput").s)
      && !(Property(params, "interfaceId").Str? && Property(params, "interfaceId").s != "")
    ensures r.Returned? ==> r.status == "success"
    ensures r == Returned("success", Confirmed) <==> Valid(params) && methodName == "confirm"
    ensures r == Returned("success", EditStarted) <==> Valid(params) && methodName == "edit"
    ensures r == Threw(UnknownMethod(methodName)) <==> Valid(params) && methodName != "confirm" && methodName != "edit"
  {
    if !ParamsOk(params) then Threw(InvalidParams)
    else
      var userInput := Property(params, "userInput");
      var interfaceId := Property(params, "interfaceId");
      TrimEmptyIffBlank(if userInput.Str? then userInput.s else "");
      if !UserInputOk(userInput) then Threw(InvalidUserInput)
      else if !InterfaceIdOk(interfaceId) then Threw(InvalidInterfaceId)
      else if methodName == "confirm" then Returned("success", Confirmed)
      else if methodName == "edit" then Returned("success", EditStarted)
      else Threw(UnknownMethod(methodName))
  }

  /** The parameters pass all three checks: an object whose `userInput` is a
      string that is not blank and whose `interfaceId` is a non-empty
      string. */
  ghost predicate Valid(params: JsValue) {
    && params.Object?
    && Property(params, "userInput").Str? && !IsBlank(Property(params, "userInput").s)
    && Property(params, "interfaceId").Str? && Property(params, "interfaceId").s != ""
  }

  /** Validation comes before dispatch: with parameters that fail a check the
      method does not matter, even one the handler does not know. */
  lemma ValidationFirst(methodName: string, methodName': string, params: JsValue)
    requires !Valid(params)
    ensures OnRpcRequest(methodName, params) == OnRpcRequest(methodName', params)
    ensures OnRpcRequest(methodName, params).Threw?
  {
  }

  /** Only the two known methods with valid parameters succeed; every other
      method fails with its own message. */
  lemma DispatchSpec(methodName: string, methodName': string, params: JsValue)
    requires Valid(params)
    ensures OnRpcRequest(methodName, params).Returned? <==> methodName == "confirm" || methodName == "edit"
    ensures OnRpcRequest(methodName, params).Threw? && OnRpcRequest(methodName', params).Threw?
      && ErrorMessage(OnRpcRequest(methodName, params).failure) == ErrorMessage(OnRpcRequest(methodName', params).failure)
      ==> methodName == methodName'
  {
    var r, r' := OnRpcRequest(methodName, params), OnRpcRequest(methodName', params);
    if r.Threw? && r'.Threw? {
      ErrorMessageInjective(r.failure, r'.failure);
    }
  }
}
