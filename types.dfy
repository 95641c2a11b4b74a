/** Values shared by the backend: optional values, JSON values as JSON.parse
    produces them, and the record shapes the backend declares for users and cars. */
module Types {

  datatype Option<+T> = None | Some(value: T) {
    function GetOr(default: T): T {
      match this
      case Some(v) => v
      case None => default
    }
  }

  /** A JSON value. A number is an exact `real`. JSON.parse rounds to
      binary64: `1e400` overflows to Infinity (which JSON.stringify writes
      as null), and `1e-400` underflows to 0. Neither rounding is modelled. */
  datatype Json =
    | JNull
    | JBool(b: bool)
    | JNum(n: real)
    | JStr(s: string)
    | JArr(items: seq<Json>)
    | JObj(fields: map<string, Json>)

  /** A JSON object: what the record files hold, what a request body is,
      and what a signed token carries. */
  type Object = map<string, Json>

  /** JavaScript truthiness of a JSON value: null, false, 0 and "" are falsy. */
  predicate Truthy(v: Json) {
    match v
    case JNull => false
    case JBool(b) => b
    case JNum(n) => n != 0.0
    case JStr(s) => s != ""
    case JArr(_) => true
    case JObj(_) => true
  }

  /** Truthiness of `o.f`: an absent field reads as `undefined`, which is falsy. */
  predicate FieldTruthy(o: Object, f: string) {
    f in o && Truthy(o[f])
  }

  predicate IsString(o: Object, f: string) {
    f in o && o[f].JStr?
  }

  predicate IsNumber(o: Object, f: string) {
    f in o && o[f].JNum?
  }

  /** `Role = "admin" | "user"` */
  predicate IsRole(v: Json) {
    v == JStr("admin") || v == JStr("user")
  }

  /** The declared shape of a user record: id, username and password are
      strings, role is a Role, balance and refreshVersion are numbers. */
  predicate IsUser(o: Object) {
    && IsString(o, "id")
    && IsString(o, "username")
    && IsString(o, "password")
    && "role" in o && IsRole(o["role"])
    && IsNumber(o, "balance")
    && IsNumber(o, "refreshVersion")
  }

  /** A partial user: every user field it does carry has its declared type. */
  predicate IsUserPatch(o: Object) {
    && ("id" in o ==> o["id"].JStr?)
    && ("username" in o ==> o["username"].JStr?)
    && ("password" in o ==> o["password"].JStr?)
    && ("role" in o ==> IsRole(o["role"]))
    && ("balance" in o ==> o["balance"].JNum?)
    && ("refreshVersion" in o ==> o["refreshVersion"].JNum?)
  }

  /** The declared shape of a car record: id, model and ownerId are strings,
      price is a number. */
  predicate IsCar(o: Object) {
    && IsString(o, "id")
    && IsString(o, "model")
    && IsNumber(o, "price")
    && IsString(o, "ownerId")
  }

  /** A partial car: every car field it does carry has its declared type. */
  predicate IsCarPatch(o: Object) {
    && ("id" in o ==> o["id"].JStr?)
    && ("model" in o ==> o["model"].JStr?)
    && ("price" in o ==> o["price"].JNum?)
    && ("ownerId" in o ==> o["ownerId"].JStr?)
  }
}
