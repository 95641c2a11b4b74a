/** The users and cars handlers of the REST router. Each handler loads a whole
    record list, changes it and saves it back; the two lists are the fields of
    a `Store`, and a handler's reply is a `Reply` value. */
module Routes {
  import opened Types
  import opened Seqs

  /** What a handler sends back: a status with a JSON body, or a status alone. */
  datatype Reply = WithBody(status: nat, body: Object) | Empty(status: nat)

  const UserNotFound := "User not found"
  const CarNotFound := "Car not found"
  const MissingCarFields := "Missing model, price or ownerId"

  /** `{ error: message }` */
  function ErrorBody(message: string): (b: Object)
    ensures b.Keys == {"error"} && b["error"] == JStr(message)
  {
    map["error" := JStr(message)]
  }

  /** `r.id === id` for a path parameter `id`: strict equality holds only for
      a string field with the same text; an absent field is `undefined`. */
  predicate HasId(r: Object, id: string) {
    "id" in r && r["id"] == JStr(id)
  }

  /** No record among `rs` carries `id`. */
  predicate NoneHasId(rs: seq<Object>, id: string) {
    forall j :: 0 <= j < |rs| ==> !HasId(rs[j], id)
  }

  // ---------------------------------------------------------------------
  // findIndex
  // ---------------------------------------------------------------------

  /** `rs.findIndex(r => r.id === id)`, searching from index `k` on. */
  function FindFrom(rs: seq<Object>, id: string, k: nat): (i: int)
    requires k <= |rs|
    ensures i == -1 || k <= i < |rs|
    ensures i == -1 <==> forall j :: k <= j < |rs| ==> !HasId(rs[j], id)
    ensures 0 <= i ==> HasId(rs[i], id) && forall j :: k <= j < i ==> !HasId(rs[j], id)
    decreases |rs| - k
  {
    if k == |rs| then -1
    else if HasId(rs[k], id) then k
    else FindFrom(rs, id, k + 1)
  }

  /** `rs.findIndex(r => r.id === id)`: the first index whose record carries
      `id`, or -1 when there is none. */
  function FirstIndexOf(rs: seq<Object>, id: string): (i: int)
    ensures -1 <= i < |rs|
    ensures i == -1 <==> NoneHasId(rs, id)
    ensures 0 <= i ==> HasId(rs[i], id) && NoneHasId(rs[..i], id)
  {
    var i := FindFrom(rs, id, 0);
    assert 0 <= i ==> forall j :: 0 <= j < i ==> rs[..i][j] == rs[j];
    i
  }

  /** A record appended after a list without `id`, and carrying it, is found
      at the old length. */
  lemma FirstIndexOfAppend(rs: seq<Object>, r: Object, id: string)
    requires NoneHasId(rs, id) && HasId(r, id)
    ensures FirstIndexOf(rs + [r], id) == |rs|
  {
    var s := rs + [r];
    assert forall j :: 0 <= j < |rs| ==> s[j] == rs[j];
    assert s[|rs|] == r;
  }

  // ---------------------------------------------------------------------
  // spreading: { ...base, ...patch }
  // ---------------------------------------------------------------------

  /** `{ ...base, ...patch }`: every field of either, the patch's value
      winning where both have one. */
  function Merge(base: Object, patch: Object): (m: Object)
    ensures m.Keys == base.Keys + patch.Keys
    ensures forall k :: k in patch ==> m[k] == patch[k]
    ensures forall k :: k in base && k !in patch ==> m[k] == base[k]
  {
    base + patch
  }

  /** Patching a user with fields of the declared types keeps it a user. */
  lemma MergeUserPatch(u: Object, patch: Object)
    requires IsUser(u) && IsUserPatch(patch)
    ensures IsUser(Merge(u, patch))
  {
  }

  /** Patching a car with fields of the declared types keeps it a car. */
  lemma MergeCarPatch(c: Object, patch: Object)
    requires IsCar(c) && IsCarPatch(patch)
    ensures IsCar(Merge(c, patch))
  {
  }

  // ---------------------------------------------------------------------
  // the list changes a handler makes
  // ---------------------------------------------------------------------

  /** The list a PUT writes back, or None when no record carries `id` and
      nothing is written. */
  function Patched(rs: seq<Object>, id: string, patch: Object): (r: Option<seq<Object>>)
    ensures r.None? <==> NoneHasId(rs, id)
  {
    var i := FirstIndexOf(rs, id);
    if i == -1 then None else Some(rs[i := Merge(rs[i], patch)])
  }

  /** A PUT merges the body into the first record carrying `id` and into no
      other: every other index, including later records with the same id,
      is left as it was. */
  lemma PatchedFirstOnly(rs: seq<Object>, id: string, patch: Object)
    requires !NoneHasId(rs, id)
    ensures var i := FirstIndexOf(rs, id);
      && Patched(rs, id, patch).Some?
      && var s := Patched(rs, id, patch).value;
      && |s| == |rs|
      && s[i] == Merge(rs[i], patch)
      && (forall k :: k in patch ==> s[i][k] == patch[k])
      && (forall k :: k in rs[i] && k !in patch ==> s[i][k] == rs[i][k])
      && (forall j :: 0 <= j < |rs| && j != i ==> s[j] == rs[j])
  {
  }

  /** Patching a list of users with a well-typed patch leaves a list of users. */
  lemma PatchedUsers(rs: seq<Object>, id: string, patch: Object)
    requires forall j :: 0 <= j < |rs| ==> IsUser(rs[j])
    requires IsUserPatch(patch) && !NoneHasId(rs, id)
    ensures var s := Patched(rs, id, patch).value;
      forall j :: 0 <= j < |s| ==> IsUser(s[j])
  {
    MergeUserPatch(rs[FirstIndexOf(rs, id)], patch);
  }

  /** Patching a list of cars with a well-typed patch leaves a list of cars. */
  lemma PatchedCars(rs: seq<Object>, id: string, patch: Object)
    requires forall j :: 0 <= j < |rs| ==> IsCar(rs[j])
    requires IsCarPatch(patch) && !NoneHasId(rs, id)
    ensures var s := Patched(rs, id, patch).value;
      forall j :: 0 <= j < |s| ==> IsCar(s[j])
  {
    MergeCarPatch(rs[FirstIndexOf(rs, id)], patch);
  }

  /** `rs.filter(r => r.id !== id)` */
  function WithoutId(rs: seq<Object>, id: string): (r: seq<Object>)
    ensures |r| <= |rs|
  {
    if rs == [] then []
    else (if HasId(rs[0], id) then [] else [rs[0]]) + WithoutId(rs[1..], id)
  }

  /** A record survives a delete exactly when it was there and does not carry
      the id: after a delete no record with the id remains. */
  lemma {:induction false} WithoutIdMembers(rs: seq<Object>, id: string)
    ensures forall r :: r in WithoutId(rs, id) <==> r in rs && !HasId(r, id)
  {
    if rs != [] {
      WithoutIdMembers(rs[1..], id);
      assert rs == [rs[0]] + rs[1..];
    }
  }

  /** Filtering a concatenation filters each part: the survivors keep their
      relative order. */
  lemma {:induction false} WithoutIdConcat(a: seq<Object>, b: seq<Object>, id: string)
    ensures WithoutId(a + b, id) == WithoutId(a, id) + WithoutId(b, id)
    decreases |a|
  {
    if a == [] {
      assert a + b == b;
    } else {
      var t := a[1..];
      assert a + b == [a[0]] + (t + b);
      assert (a + b)[1..] == t + b;
      WithoutIdConcat(t, b, id);
      var h: seq<Object> := if HasId(a[0], id) then [] else [a[0]];
      AppendAssoc(h, WithoutId(t, id), WithoutId(b, id));
    }
  }

  /** A delete of an id no record carries writes back the same list. */
  lemma {:induction false} WithoutIdAbsent(rs: seq<Object>, id: string)
    requires NoneHasId(rs, id)
    ensures WithoutId(rs, id) == rs
  {
    if rs != [] {
      assert NoneHasId(rs[1..], id) by {
        forall j | 0 <= j < |rs| - 1 ensures !HasId(rs[1..][j], id) {
          assert rs[1..][j] == rs[j + 1];
        }
      }
      WithoutIdAbsent(rs[1..], id);
      assert [rs[0]] + rs[1..] == rs;
    }
  }

  /** Nothing in a filtered list carries the id. */
  lemma WithoutIdNone(rs: seq<Object>, id: string)
    ensures NoneHasId(WithoutId(rs, id), id)
  {
    var w := WithoutId(rs, id);
    WithoutIdMembers(rs, id);
    forall j | 0 <= j < |w| ensures !HasId(w[j], id) {
      assert w[j] in w;
    }
  }

  /** Deleting twice writes back the same list as deleting once. */
  lemma WithoutIdIdempotent(rs: seq<Object>, id: string)
    ensures WithoutId(WithoutId(rs, id), id) == WithoutId(rs, id)
  {
    WithoutIdNone(rs, id);
    WithoutIdAbsent(WithoutId(rs, id), id);
  }

  /** A delete of an id some record carries shortens the list. */
  lemma {:induction false} WithoutIdShrinks(rs: seq<Object>, id: string)
    requires !NoneHasId(rs, id)
    ensures |WithoutId(rs, id)| < |rs|
  {
    if !HasId(rs[0], id) {
      assert !NoneHasId(rs[1..], id) by {
        var j :| 0 <= j < |rs| && HasId(rs[j], id);
        assert rs[1..][j - 1] == rs[j];
      }
      WithoutIdShrinks(rs[1..], id);
    }
  }

  // ---------------------------------------------------------------------
  // the records a POST builds
  // ---------------------------------------------------------------------

  /** `{ id: nanoid(), balance: 0, role: "user", ...body }` */
  function NewUser(freshId: string, body: Object): Object {
    Merge(map["id" := JStr(freshId), "balance" := JNum(0.0), "role" := JStr("user")], body)
  }

  /** A new user has an id, a balance and a role, each taken from the body
      when the body has it and defaulted to the fresh id, 0 and "user"
      otherwise; every other field of the body is copied as it is and no
      other field is added. */
  lemma NewUserFields(freshId: string, body: Object)
    ensures var u := NewUser(freshId, body);
      && u.Keys == {"id", "balance", "role"} + body.Keys
      && u["id"] == (if "id" in body then body["id"] else JStr(freshId))
      && u["balance"] == (if "balance" in body then body["balance"] else JNum(0.0))
      && u["role"] == (if "role" in body then body["role"] else JStr("user"))
      && forall k :: k in body ==> u[k] == body[k]
  {
  }

  /** The created user is stored under the fresh id unless the body names
      another one. */
  lemma NewUserHasFreshId(freshId: string, body: Object)
    ensures HasId(NewUser(freshId, body), freshId) <==> "id" !in body || body["id"] == JStr(freshId)
  {
  }

  /** A body without `refreshVersion` gives a record outside the declared user
      shape: the handler adds no such field. */
  lemma NewUserLacksRefreshVersion(freshId: string, body: Object)
    requires "refreshVersion" !in body
    ensures !IsUser(NewUser(freshId, body))
  {
  }

  /** A well-typed body carrying username, password and refreshVersion gives a
      record of the declared user shape. */
  lemma NewUserIsUser(freshId: string, body: Object)
    requires IsUserPatch(body)
    requires "username" in body && "password" in body && "refreshVersion" in body
    ensures IsUser(NewUser(freshId, body))
  {
  }

  /** `!model || !price || !ownerId` fails: the three fields are present and
      truthy. */
  predicate CarFieldsPresent(body: Object) {
    FieldTruthy(body, "model") && FieldTruthy(body, "price") && FieldTruthy(body, "ownerId")
  }

  /** `{ id: nanoid(), model, price, ownerId }` */
  function NewCar(freshId: string, body: Object): (c: Object)
    requires CarFieldsPresent(body)
    ensures c.Keys == {"id", "model", "price", "ownerId"}
    ensures c["id"] == JStr(freshId) && HasId(c, freshId)
    ensures c["model"] == body["model"] && c["price"] == body["price"] && c["ownerId"] == body["ownerId"]
  {
    map["id" := JStr(freshId), "model" := body["model"], "price" := body["price"], "ownerId" := body["ownerId"]]
  }

  /** A car of price 0 is refused, whatever its other fields. */
  lemma ZeroPriceRefused(body: Object)
    requires "price" in body && body["price"] == JNum(0.0)
    ensures !CarFieldsPresent(body)
  {
  }

  /** The check tests truthiness, not type: a string price such as "0" passes
      it, and the car stored is then outside the declared car shape. */
  lemma StringPriceAccepted(freshId: string, model: string, ownerId: string)
    requires model != "" && ownerId != ""
    ensures var body := map["model" := JStr(model), "price" := JStr("0"), "ownerId" := JStr(ownerId)];
      && CarFieldsPresent(body)
      && !IsCar(NewCar(freshId, body))
  {
  }

  /** A created car has the declared car shape exactly when the body's model
      and ownerId are strings and its price a number. */
  lemma NewCarIsCar(freshId: string, body: Object)
    requires CarFieldsPresent(body)
    ensures IsCar(NewCar(freshId, body)) <==>
      body["model"].JStr? && body["price"].JNum? && body["ownerId"].JStr?
  {
  }

  // ---------------------------------------------------------------------
  // the handlers
  // ---------------------------------------------------------------------

  /** The two record files, each loaded and saved as a whole list. */
  class Store {
    var users: seq<Object>
    var cars: seq<Object>

    constructor(users0: seq<Object>, cars0: seq<Object>)
      ensures users == users0 && cars == cars0
    {
      users := users0;
      cars := cars0;
    }

    /** POST /users */
    method PostUser(freshId: string, body: Object) returns (reply: Reply)
      modifies this
      ensures users == old(users) + [NewUser(freshId, body)]
      ensures cars == old(cars)
      ensures reply == WithBody(201, NewUser(freshId, body))
    {
      var rs := users;
      var newUser := NewUser(freshId, body);
      rs := rs + [newUser];
      users := rs;
      reply := WithBody(201, newUser);
    }

    /** PUT /users/:id */
    method PutUser(id: string, body: Object) returns (reply: Reply)
      modifies this
      ensures cars == old(cars)
      ensures NoneHasId(old(users), id) ==>
        users == old(users) && reply == WithBody(404, ErrorBody(UserNotFound))
      ensures !NoneHasId(old(users), id) ==>
        && users == Patched(old(users), id, body).value
        && reply == WithBody(200, users[FirstIndexOf(old(users), id)])
    {
      var rs := users;
      var idx := FirstIndexOf(rs, id);
      if idx == -1 {
        return WithBody(404, ErrorBody(UserNotFound));
      }
      rs := rs[idx := Merge(rs[idx], body)];
      users := rs;
      reply := WithBody(200, rs[idx]);
    }

    /** DELETE /users/:id */
    method DeleteUser(id: string) returns (reply: Reply)
      modifies this
      ensures users == WithoutId(old(users), id)
      ensures cars == old(cars)
      ensures reply == Empty(204)
    {
      var filtered := WithoutId(users, id);
      users := filtered;
      reply := Empty(204);
    }

    /** POST /cars */
    method PostCar(freshId: string, body: Object) returns (reply: Reply)
      modifies this
      ensures users == old(users)
      ensures !CarFieldsPresent(body) ==>
        cars == old(cars) && reply == WithBody(400, ErrorBody(MissingCarFields))
      ensures CarFieldsPresent(body) ==>
        cars == old(cars) + [NewCar(freshId, body)] && reply == WithBody(201, NewCar(freshId, body))
    {
      var rs := cars;
      if !CarFieldsPresent(body) {
        return WithBody(400, ErrorBody(MissingCarFields));
      }
      var newCar := NewCar(freshId, body);
      rs := rs + [newCar];
      cars := rs;
      reply := WithBody(201, newCar);
    }

    /** PUT /cars/:id */
    method PutCar(id: string, body: Object) returns (reply: Reply)
      modifies this
      ensures users == old(users)
      ensures NoneHasId(old(cars), id) ==>
        cars == old(cars) && reply == WithBody(404, ErrorBody(CarNotFound))
      ensures !NoneHasId(old(cars), id) ==>
        && cars == Patched(old(cars), id, body).value
        && reply == WithBody(200, cars[FirstIndexOf(old(cars), id)])
    {
      var rs := cars;
      var idx := FirstIndexOf(rs, id);
      if idx == -1 {
        return WithBody(404, ErrorBody(CarNotFound));
      }
      rs := rs[idx := Merge(rs[idx], body)];
      cars := rs;
      reply := WithBody(200, rs[idx]);
    }

    /** DELETE /cars/:id */
    method DeleteCar(id: string) returns (reply: Reply)
      modifies this
      ensures cars == WithoutId(old(cars), id)
      ensures users == old(users)
      ensures reply == Empty(204)
    {
      var filtered := WithoutId(cars, id);
      cars := filtered;
      reply := Empty(204);
    }
  }

  /** A car created under an id no stored car carries is the one later
      requests find under that id, at the end of the list. */
  lemma PostedCarFound(cars: seq<Object>, freshId: string, body: Object)
    requires NoneHasId(cars, freshId) && CarFieldsPresent(body)
    ensures FirstIndexOf(cars + [NewCar(freshId, body)], freshId) == |cars|
  {
    FirstIndexOfAppend(cars, NewCar(freshId, body), freshId);
  }

  /** Likewise for a user, when the body does not name an id of its own. */
  lemma PostedUserFound(users: seq<Object>, freshId: string, body: Object)
    requires NoneHasId(users, freshId) && "id" !in body
    ensures FirstIndexOf(users + [NewUser(freshId, body)], freshId) == |users|
  {
    NewUserHasFreshId(freshId, body);
    FirstIndexOfAppend(users, NewUser(freshId, body), freshId);
  }
}
