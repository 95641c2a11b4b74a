# Car marketplace backend: cookies, tokens and record handlers

This project models the core of a small Express backend for a car marketplace and proves properties of that model. The model has two parts.

- **`backend/auth.ts`**: session cookies and JSON Web Tokens.
  - `setAuthCookies` sets two cookies on a response: `auth` holds an access token that lasts 15 minutes, and `refresh` holds a refresh token that lasts 7 days.
  - `clearAuthCookies` sets both cookies to empty values that expire at once.
  - `parseCookies` reads a request's `Cookie` header back into a name-to-value map, and `getAccessFromReq` verifies the access cookie.
- **`backend/routes.ts`**: the create, update and delete handlers for users and cars.
  - Each handler loads a whole JSON list, changes it, and saves it back.

The Dafny modules are:

- `Types`: `Option`, JSON values, JavaScript truthiness, and the `User`/`Car` shapes declared in `backend/types.ts:1-17`.
- `Seqs`: general facts about sequences, which the other modules' proofs call as hints for the solver.
- `Strings`: the JavaScript string built-ins the cookie code uses: `indexOf`, `split`, `join`, `trim`, and number-to-decimal rendering.
- `Auth`: tokens, `buildCookie`, setting and clearing the cookies on a `Response` class, and `parseCookies` as split, trim, filter and then a fold.
- `CookieFacts`: what the parser makes of headers, including the round trip from `Set-Cookie` values back through a `Cookie` header into a map and then to verified claims.
- `Routes`: `findIndex`, object spread, `filter`, the records a POST builds, and a `Store` class whose `users` and `cars` fields the handler methods reassign.

Environment values and library calls are modelled as follows:

- **The JWT library** is an abstract `Jwt`, a pair of `sign` and `verify` functions. Its one property, `Sound`, is taken as a precondition: verifying a signed token either fails or returns the signed claims, possibly with extra registered claims.
- **`COOKIE_SECURE`** is the parameter `secure`.
- **`nanoid()`** is the parameter `freshId`.
- **The JSON files** are the two sequences of the `Store`.

## Model

| member | source | states |
|---|---|---|
| Auth.VerifyAccess | backend/auth.ts:38-45 | accepts exactly the tokens the library verifies whose `typ` is "access", returns the library's claims unchanged, and gives None for every failure |
| Auth.VerifyRefresh | backend/auth.ts:47-54 | accepts exactly the verified tokens whose `typ` is "refresh" and whose `rv` is a number |
| Auth.TokenKindsDisjoint | backend/auth.ts:38-54 | no token passes both the access check and the refresh check |
| Auth.AccessIsNotRefresh | backend/auth.ts:28-54 | a signed access token is never accepted as a refresh token |
| Auth.RefreshIsNotAccess | backend/auth.ts:33-45 | a signed refresh token is never accepted as an access token |
| Auth.AccessRoundTrip | backend/auth.ts:28-45 | verifying a signed access token fails only where the library fails, and the result names the user it was signed for |
| Auth.RefreshRoundTrip | backend/auth.ts:33-54 | a verified refresh token carries the user and the refresh version `rv` it was signed with |
| Auth.BuildCookie | backend/auth.ts:57-67 | the `Set-Cookie` value; `Auth.BuildCookieText` gives its exact text, `Auth.BuildCookieSecure` its `Secure` flag, and `CookieFacts.CookiePairOfBuild` its leading `name=value` pair |
| Strings.Join | backend/auth.ts:66 | `parts.join(sep)`; `Strings.JoinCons`, `Strings.JoinFive` and `Strings.JoinSix` spell out a join, and `Strings.JoinSplit` and `Strings.SplitJoin` make it the inverse of `Strings.Split` |
| Strings.NatToString | backend/auth.ts:62 | the template-string rendering of `maxAgeSec`: non-empty decimal digits with no leading zero, which `Strings.NatToStringValue` reads back as the number |
| Auth.AuthCookies | backend/auth.ts:70-73 | the access cookie (name `auth`, 900 s) followed by the refresh cookie (name `refresh`, 604800 s); `CookieFacts.EchoAuthCookies` reads both tokens back |
| Auth.ClearedCookies | backend/auth.ts:77-80 | both cookies with empty values and `Max-Age=0`; `CookieFacts.EchoClearedCookies` shows that neither authenticates |
| Auth.SignAccess | backend/auth.ts:28-31 | signs the claims `{sub, typ: "access"}` for 900 s; `Auth.AccessRoundTrip` and `Auth.AccessIsNotRefresh` state what verifying the result gives |
| Auth.SignRefresh | backend/auth.ts:33-36 | signs the claims `{sub, typ: "refresh", rv}` for 604800 s; `Auth.RefreshRoundTrip` and `Auth.RefreshIsNotAccess` state what verifying the result gives |
| Auth.BuildCookieText | backend/auth.ts:57-67 | the exact cookie text: `name=value; HttpOnly; Path=/; Max-Age=<n>; SameSite=Lax`, followed by `; Secure` only in production |
| Auth.BuildCookieSecure | backend/auth.ts:65 | the cookie ends in `; Secure` if and only if `secure` holds |
| Strings.NatToStringValue | backend/auth.ts:62 | the decimal text of `Max-Age` reads back as the number of seconds |
| Auth.SetAuthCookies | backend/auth.ts:69-74 | the `Set-Cookie` header becomes the access cookie (900 s) and then the refresh cookie (604800 s); the other headers are unchanged |
| Auth.ClearAuthCookies | backend/auth.ts:76-81 | the `Set-Cookie` header becomes both cookies with empty values and `Max-Age=0`; the other headers are unchanged |
| Auth.Response.SetHeader | backend/auth.ts:70 | setting a header replaces that header's earlier value and nothing else |
| Strings.IndexOf | backend/auth.ts:90 | the first position of the character, or -1 exactly when it is absent |
| Strings.Split | backend/auth.ts:86 | `header.split(";")`: always at least one piece; `Strings.SplitPieces`, `Strings.JoinSplit`, `Strings.SplitJoin` and `Strings.SplitConcat` determine the pieces |
| Strings.JoinSplit | backend/auth.ts:86 | splitting on a character and joining with it gives the string back |
| Strings.SplitJoin | backend/auth.ts:86 | splitting a join of pieces that do not contain the separator gives the pieces back |
| Strings.SplitConcat | backend/auth.ts:86 | splitting `a;b` gives the pieces of `a` followed by the pieces of `b` |
| Strings.SplitPieces | backend/auth.ts:86 | no piece of a split contains the separator |
| Strings.Trim | backend/auth.ts:87 | the result has no white space at either end, and only white space was removed from each end |
| Strings.TrimPadding | backend/auth.ts:87 | trimming a trimmed string padded with white space gives that string back |
| Strings.TrimEmpty | backend/auth.ts:87-88 | a string trims to "" if and only if it is all white space |
| Auth.TrimEach | backend/auth.ts:87 | each part is trimmed, position by position, into a new list of the same length |
| Auth.DropEmptyMembers | backend/auth.ts:88 | `filter(Boolean)` keeps exactly the non-empty parts |
| Auth.DropEmpty | backend/auth.ts:88 | `filter(Boolean)`; `Auth.DropEmptyMembers` states what it keeps and `CookieFacts.DropEmptyConcat` that it keeps the order |
| Auth.Parts | backend/auth.ts:85-88 | split on `;`, trim each part, drop the empty ones; `Auth.PartsWellFormed`, `CookieFacts.PartsConcat`, `CookieFacts.PartsOfBlank` and `CookieFacts.PartsOfJoined` state what the parts are |
| Auth.PartsWellFormed | backend/auth.ts:85-88 | every part that reaches the fold is non-empty, trimmed and free of `;` |
| CookieFacts.PartsConcat | backend/auth.ts:85-88 | the parts of `a;b` are the parts of `a` followed by the parts of `b` |
| CookieFacts.PartsOfBlank | backend/auth.ts:84-88 | a header made only of `;` and white space has no parts |
| CookieFacts.PartsOfJoined | backend/auth.ts:85-88 | joining well-formed parts with "; " and splitting again gives the same parts |
| Auth.Entry | backend/auth.ts:90-95 | a part contributes an entry exactly when it has an `=` that is not its first character; it splits the part at the first `=` |
| Auth.EntryOfPair | backend/auth.ts:90-94 | a key without `=` joined to any value by `=` reads back as that key and that value, even if the value contains `=` |
| Auth.Entries | backend/auth.ts:89-97 | the entry of every part, in order and one per part |
| Auth.AddEntry | backend/auth.ts:91-96 | one step of the `reduce`: an entry overwrites the key it binds, and a part without an entry leaves the map as it is |
| Auth.Fold | backend/auth.ts:89-97 | the `reduce` over the first `n` entries; `Auth.FoldLastWins` states its result key by key |
| Auth.Collect | backend/auth.ts:89-97 | the `reduce` over the parts of a header; `Auth.CollectLastWins` states its result key by key |
| Auth.LastBinding | backend/auth.ts:89-97 | the position of the last entry that binds a key, or -1 when no entry does |
| Auth.FoldLastWins | backend/auth.ts:89-97 | the fold binds a key exactly when some entry binds it; the value is that of the last such entry |
| Auth.CollectLastWins | backend/auth.ts:89-97 | for the parts of a header: a key is present exactly when some part binds it, and the last such part wins |
| Auth.ParseCookies | backend/auth.ts:83-98 | every key of the result is a non-empty name with no `=` or `;` and no leading white space |
| CookieFacts.ParseBlankHeader | backend/auth.ts:84 | an absent header, or one of only `;` and white space, gives the empty map |
| CookieFacts.ParseJoined | backend/auth.ts:83-98 | parsing well-formed parts joined by "; " is the fold over those parts |
| CookieFacts.PaddedTwoParts | backend/auth.ts:85-88 | a header made of two well-formed parts, with white space before and after each and an empty part between them, has exactly those two parts |
| CookieFacts.ParsePaddedParts | backend/auth.ts:85-88 | for two parts: white space before and after each part, and an empty part between them, do not change the result |
| CookieFacts.ParseSinglePair | backend/auth.ts:83-98 | the header `name=value` parses to exactly that one binding |
| CookieFacts.ParseNoKey | backend/auth.ts:91 | a part without `=` and a part starting with `=` add nothing |
| CookieFacts.ParseDuplicate | backend/auth.ts:94 | of two parts with the same name, the later value wins |
| CookieFacts.CookiePairOfBuild | backend/auth.ts:57-66 | the text before the first `;` of a built cookie is its `name=value` pair |
| CookieFacts.EchoTwoCookies | backend/auth.ts:57-98 | a browser echoing two built cookies with distinct names produces a header that parses to exactly those two bindings |
| CookieFacts.EchoAuthCookies | backend/auth.ts:69-105 | sending back the cookies `setAuthCookies` sets gives back both tokens; the access claims read back are those that `verifyAccess` gives for the token, or none for an empty token |
| CookieFacts.EchoClearedCookies | backend/auth.ts:76-105 | a request without the cookies, which is what a browser sends once the `Max-Age=0` cookies are deleted, has no access claims; a client that ignores the expiry and sends back the cleared values sends two empty values, and also has no access claims |
| CookieFacts.SessionAccessRoundTrip | backend/auth.ts:100-105 | claims read back from the cookie of a freshly signed access token name its user |
| CookieFacts.SessionRefreshRoundTrip | backend/auth.ts:47-54 | the refresh cookie read back verifies, when it does, to the signed user and refresh version |
| Auth.GetAccessFromReq | backend/auth.ts:100-105 | a present, non-empty `auth` cookie gives exactly what `verifyAccess` gives for it; claims come back only from such a cookie, and they have `typ` "access" |
| Routes.HasId | backend/routes.ts:29 | `r.id === id` for a string path parameter: the record has an `id` field holding that exact string |
| Routes.FirstIndexOf | backend/routes.ts:29 | `findIndex` returns the first index whose record has the id, or -1 exactly when no record has it |
| Routes.FindFrom | backend/routes.ts:29 | the same search, starting from a given index |
| Routes.FirstIndexOfAppend | backend/routes.ts:22-29 | a record appended to a list without its id is found at the old length |
| Routes.Merge | backend/routes.ts:31 | spreading gives the union of the keys; the body's values win and fields absent from the body are kept |
| Routes.MergeUserPatch | backend/routes.ts:31 | patching a user with fields of the declared types keeps a `User` |
| Routes.MergeCarPatch | backend/routes.ts:75 | patching a car with fields of the declared types keeps a `Car` |
| Routes.Patched | backend/routes.ts:29-31 | nothing is written exactly when no record has the id |
| Routes.PatchedFirstOnly | backend/routes.ts:29-31 | only the first matching index is merged and every other index is unchanged, including later duplicates |
| Routes.PatchedUsers | backend/routes.ts:31 | a list of users patched with a well-typed body is still a list of users |
| Routes.PatchedCars | backend/routes.ts:75 | a list of cars patched with a well-typed body is still a list of cars |
| Routes.WithoutId | backend/routes.ts:38 | the filter never lengthens the list |
| Routes.WithoutIdMembers | backend/routes.ts:38 | a record survives a delete exactly when it was present and does not have the id |
| Routes.WithoutIdNone | backend/routes.ts:38 | after a delete, no record has the id |
| Routes.WithoutIdConcat | backend/routes.ts:38 | the filter distributes over concatenation, so the surviving records keep their relative order |
| Routes.WithoutIdAbsent | backend/routes.ts:38 | deleting an id that no record has leaves the list unchanged |
| Routes.WithoutIdIdempotent | backend/routes.ts:38 | deleting twice gives the same list as deleting once |
| Routes.WithoutIdShrinks | backend/routes.ts:38 | deleting an id that some record has shortens the list |
| Routes.NewUser | backend/routes.ts:21 | the record POST /users builds; `Routes.NewUserFields`, `Routes.NewUserHasFreshId`, `Routes.NewUserLacksRefreshVersion` and `Routes.NewUserIsUser` state its fields and shape |
| Routes.NewUserFields | backend/routes.ts:21 | a new user takes id, balance and role from the body when the body has them, and otherwise gets the fresh id, 0 and "user"; every body field is copied and nothing else is added |
| Routes.NewUserHasFreshId | backend/routes.ts:21 | the new user has the fresh id exactly when the body names no other id |
| Routes.NewUserLacksRefreshVersion | backend/routes.ts:21 | a body without `refreshVersion` gives a record outside the declared `User` shape |
| Routes.NewUserIsUser | backend/routes.ts:21 | a well-typed body with username, password and refreshVersion gives a `User` |
| Routes.CarFieldsPresent | backend/routes.ts:55 | none of `!model`, `!price` and `!ownerId` holds, so the request passes the check: all three fields are present and truthy; `Routes.ZeroPriceRefused` and `Routes.StringPriceAccepted` show that it tests truthiness, not type |
| Routes.NewCar | backend/routes.ts:59-64 | a new car has exactly the keys id, model, price and ownerId; the id is the fresh id and the other values are the body's |
| Routes.ZeroPriceRefused | backend/routes.ts:55 | a price of 0 fails the falsy-field check |
| Routes.StringPriceAccepted | backend/routes.ts:55-64 | the string price "0" passes the check, and the stored car is then outside the declared `Car` shape |
| Routes.NewCarIsCar | backend/routes.ts:59-64 | a created car is a `Car` exactly when model and ownerId are strings and price is a number |
| Routes.PostedCarFound | backend/routes.ts:59-73 | a car created under an unused id is the one later found under it, at the end of the list |
| Routes.PostedUserFound | backend/routes.ts:21-29 | likewise for a user whose body names no id |
| Routes.Store.PostUser | backend/routes.ts:19-25 | appends exactly the new user, leaves the cars unchanged, and replies 201 with the user |
| Routes.Store.PutUser | backend/routes.ts:27-34 | an unknown id replies 404 "User not found" and changes nothing; otherwise the list is the patched list and the reply is 200 with the merged record |
| Routes.Store.DeleteUser | backend/routes.ts:36-41 | the users become the filtered list, the cars are unchanged, and the reply is 204 |
| Routes.Store.PostCar | backend/routes.ts:51-69 | a falsy model, price or ownerId replies 400 and changes nothing; otherwise exactly the new car is appended and the reply is 201 |
| Routes.Store.PutCar | backend/routes.ts:71-78 | the same not-found and first-match rules as for users, with 404 "Car not found" |
| Routes.Store.DeleteCar | backend/routes.ts:80-85 | the cars become the filtered list, the users are unchanged, and the reply is 204 |

## Left out

- **GET /users and GET /cars** (`backend/routes.ts:14-17,46-49`) only return the loaded list.
- **`backend/index.ts`** is a bare HTTP server used for I/O.
- **`backend/db.ts`**: the file reads and writes and the JSON text encoding are I/O. A list is saved exactly as the handler leaves it.
- **The frontend** (`frontend/main.js`) is DOM, networking and timers.
- **The JWT library's cryptography, secret and expiry clock** are replaced by the abstract `Jwt` and its `Sound` property.
- **Concurrent requests** (two handlers interleaving their load and save) are not modelled; each handler runs alone.
- **Request bodies that are not JSON objects** are not modelled: a body is always an object.
- **Numbers** are exact reals, so the model does not capture binary64 rounding in `JSON.parse`. That includes overflow: `1e400` becomes Infinity, which `JSON.stringify` saves as `null`. It also includes underflow: `1e-400` becomes 0, so POST /cars refuses a body with `price: 1e-400`, while the model accepts it.
- Strings.NatToString: renders every natural number as plain decimal digits. JavaScript switches to exponent notation from 1e21 on, but the source only renders the cookie lifetimes 0, 900 and 604800, so this difference never arises.
- Routes.Merge: request bodies with a key named `__proto__` are out of scope. The model treats such a key like any other key. How JavaScript treats it depends on how the spread is compiled: native object spread defines an own property, while a downlevel `Object.assign` goes through the prototype setter.
- Auth.ParseCookies: the same `__proto__` caveat applies to cookie names.
- **Header-name case**: the `Cookie` header is taken as already looked up.
- Auth.Response.SetHeader: Node matches header names without regard to case, but the model's `headers` map uses exact names. So `SetHeader("Set-Cookie", …)` in the model would not replace an earlier `set-cookie`. Every call in the source uses the spelling `Set-Cookie`, so the modelled calls are unaffected.
- **Trimming**: `Strings.IsSpace` lists the ECMAScript white-space and line-terminator code points, and `Strings.Trim` strips exactly those. Surrogate pairs and other encodings are not treated separately.
- Auth.SetAuthCookies and Auth.ClearAuthCookies: these take the response as a `Response` object holding headers. Writing the headers to the network is not modelled.
- **Round trips stated with parameters**: the cookie and header round trips are stated for arbitrary names and values of the required shape, rather than for concrete example strings.
- **Auth.SignAccess and Auth.SignRefresh** have no contract of their own. What is promised about them is the token round trips.
- Routes.Store.PostUser: the record stored for a body without `refreshVersion` does not match the declared `User` shape. The handler adds no such field, so the model keeps this behaviour; `Routes.NewUserLacksRefreshVersion` states it.
