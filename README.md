# SharpCooking cookie helper, modelled in Dafny

SharpCooking's `Cookies` class is a static helper for one web request. It
writes values into cookies and reads them back. It covers:

- primitives, stored through their string form;
- objects, stored as URL-encoded JSON with every `;` removed;
- a process-wide default lifetime in minutes, where 0 means 60;
- a 4000-byte limit on what one cookie may hold.

Underneath the ASP.NET calls, the helper works on two tables keyed by
cookie name: the request cookies and the response cookies.

The model has two modules.

- `CookieRules` (`cookie_rules.dfy`) states the rules on values. A `Jar`
  holds the two tables and the stored expiry setting. There is one function
  per operation (`SetCookieSpec`, `GetCookieSpec`, `RemoveCookieSpec`,
  `RawValue`), plus the pure checks (`EffectiveExpire`, `Fits`,
  `StripSemicolons`, `IsJsonShaped`, `Decide`). The lemmas there relate
  several operations to each other.
- `SharpCooking` (`cookies.dfy`) holds class `Cookies<Obj>`. Its fields are
  `request: map<string, string>`, `response: map<string, ResponseCookie>`
  and `storedExpire` (the static `_ExpireTime`). Its methods update these
  fields in place and follow the source's branches: new cookie versus
  existing cookie, and response entry present versus absent.
  - `SetCookie`, `RemoveCookie` and `GetCookie` are proved to leave exactly
    the state and the outcome of `SetCookieSpec`, `RemoveCookieSpec` and
    `GetCookieSpec`, and `Store` the state of `Write`.
  - `SetExpireTime` states its new state directly: only the setting changes.
  - `GetCookiePrimitiveType` (tied to `RawValue`) and `GetCookieCollection`
    change nothing and state what they return.

The framework services (`UrlEncode`, `UrlDecode`, `Serialize`,
`Deserialize<T>`) are the function fields of a `Codec`, and nothing is
assumed about them beyond their types. Both JSON directions return an
`Option`, so `Serialize` may fail (a circular reference, `MaxJsonLength`,
`RecursionLimit`) and so may `Deserialize<T>`. The clock is an integer
`now`, in minutes, passed to the operations that stamp or back-date an
expiry (`SetCookie`, `RemoveCookie`, `GetCookie`). Minutes values are C#
`int`, modelled as `int32`.

What `Cookies.cs` does, and the model with it:

- an oversized value is refused and not split across cookies;
- a read looks only at the request cookies;
- the `catch` in `SetCookie` stays. It can only fire on the null-value
  path, and that path fails anyway.

## Model

| member | source | states |
|---|---|---|
| `SharpCooking.Cookies.ExpireTime` | SharpCooking/SharpCooking/Cookies.cs:22-29 | the getter on the object's state: never 0, the stored setting when it is non-zero, 60 when it is 0 |
| `CookieRules.EffectiveExpire` | SharpCooking/SharpCooking/Cookies.cs:22-31 | the global expiry is never 0: a stored 0 reads as 60, any other stored value as itself |
| `SharpCooking.Cookies.SetExpireTime` | SharpCooking/SharpCooking/Cookies.cs:14-17 | stores the minutes and nothing else; afterwards the effective expiry is the argument, or 60 when the argument is 0 |
| `CookieRules.ResolveMinutes` | SharpCooking/SharpCooking/Cookies.cs:46-47 | a per-call 0 is replaced by the global effective expiry, any other per-call value is kept, so a write never stamps a zero lifetime |
| `CookieRules.StripSemicolons` | SharpCooking/SharpCooking/Cookies.cs:86 | `Replace(";", "")`: the result holds no `;`, is no longer than the input, keeps the count of every other character, and is the input itself when it had no `;` |
| `CookieRules.StripSemicolonsConcat` | SharpCooking/SharpCooking/Cookies.cs:86 | removing `;` distributes over concatenation, so it acts on each character separately and keeps the order of the rest |
| `CookieRules.Payload` | SharpCooking/SharpCooking/Cookies.cs:53-86 | the stored string of a value that has one: a primitive's own string form (`objString`, line 56), or for an object the serialiser accepts the `;`-free URL-encoded JSON (`jsonObject`, lines 85-86) |
| `CookieRules.AsciiBytes` | SharpCooking/SharpCooking/Cookies.cs:58 | `Encoding.ASCII.GetBytes`: one byte per character, every byte below 128, an ASCII character kept as its code and any other replaced by `?` |
| `CookieRules.FitsCountsAsciiBytes` | SharpCooking/SharpCooking/Cookies.cs:58-61 | the size check `Fits` used by both branches (lines 58 and 88) passes exactly when the ASCII byte count is not over 4000, the negation of the test that throws |
| `CookieRules.ObjectPayload` | SharpCooking/SharpCooking/Cookies.cs:85-86 | the object-branch payload of a serialisable object has no `;`, is no longer than the URL-encoded JSON it came from, and keeps the count of every other character |
| `CookieRules.Write` | SharpCooking/SharpCooking/Cookies.cs:63-80 | a successful write creates or overwrites key `k` in both tables: the request value and the response value are the payload, the response expiry is the given one, and every other key and the expiry setting are unchanged |
| `CookieRules.SetCookieSpec` | SharpCooking/SharpCooking/Cookies.cs:39-112 | a write succeeds exactly when the value is non-null, serialises (always for a primitive) and its payload fits 4000 bytes. An object the serialiser rejects fails with `SerializeFailed`, and an oversized payload with `SizeExceeded`, both with the state unchanged. A null value fails with a null reference after the RemoveCookie effect. Success is `Write` with expiry `now` plus the resolved minutes |
| `SharpCooking.Cookies.SetCookie` | SharpCooking/SharpCooking/Cookies.cs:39-112 | the in-place write leaves the state and the outcome of `SetCookieSpec`. On success `request[k]` and `response[k]` hold the payload, with expiry `now` plus the resolved minutes. On failure with a non-null value (serialiser rejection or oversize) neither table changes |
| `CookieRules.WriteOfUnserializable` | SharpCooking/SharpCooking/Cookies.cs:84-86 | an object the serialiser rejects makes SetCookie fail with `SerializeFailed` before either table is touched |
| `SharpCooking.Cookies.Store` | SharpCooking/SharpCooking/Cookies.cs:63-80 | the shared table update goes through the new-key branch, or the existing-key branch with the response entry present or absent. Whichever branch runs, it leaves exactly the state `Write` describes |
| `CookieRules.ObjectWriteHasNoSemicolon` | SharpCooking/SharpCooking/Cookies.cs:85-110 | a successful object write stores a value without `;` in both tables |
| `CookieRules.WriteIsIdempotent` | SharpCooking/SharpCooking/Cookies.cs:63-110 | writing the same value under the same key twice leaves the same state and outcome as writing it once, whether the write succeeds, fails, or (for null) back-dates the response cookie |
| `CookieRules.RemoveCookieSpec` | SharpCooking/SharpCooking/Cookies.cs:165-168 | remove succeeds exactly when `k` is in the response table. It then sets only `response[k].expires` to `now` minus one day, keeping the value, the request table, the other keys and the setting. Without a response entry it fails with a null reference and changes nothing |
| `SharpCooking.Cookies.RemoveCookie` | SharpCooking/SharpCooking/Cookies.cs:165-168 | the in-place remove leaves the state and the outcome of `RemoveCookieSpec` and never touches the request table or the setting |
| `CookieRules.WriteAfterRemove` | SharpCooking/SharpCooking/Cookies.cs:165-168 | a successful write after a remove gives the same state as the write alone: the back-dated expiry is overwritten |
| `CookieRules.StartsWith` | SharpCooking/SharpCooking/Cookies.cs:136-137 | `StartsWith`, taken as ordinal: the prefix is no longer than the text and matches its first characters one by one |
| `CookieRules.EndsWith` | SharpCooking/SharpCooking/Cookies.cs:136-137 | `EndsWith`, taken as ordinal: the suffix is no longer than the text and matches its last characters one by one |
| `CookieRules.IsJsonShaped` | SharpCooking/SharpCooking/Cookies.cs:136-137 | the StartsWith/EndsWith test holds exactly when the text has at least two characters and its first and last are `{` and `}`, or `[` and `]` |
| `CookieRules.Decide` | SharpCooking/SharpCooking/Cookies.cs:136-143 | bracketed text goes to the deserialiser, and a rejection there is a `DeserializeFailed` failure. Other text is returned itself when `T` is a reference type a string converts to (`string`, `object`, `IComparable`, ...), and null for any other class |
| `CookieRules.GetCookieSpec` | SharpCooking/SharpCooking/Cookies.cs:129-146 | an absent or empty request value gives null and no write. Otherwise the decoded text is written back with the default expiry and then interpreted by `Decide`. A decoded text over 4000 bytes fails with nothing changed |
| `SharpCooking.Cookies.GetCookie` | SharpCooking/SharpCooking/Cookies.cs:129-146 | the in-place read, which calls `SetCookie`, leaves the state and returns the result of `GetCookieSpec` |
| `CookieRules.RepeatedReadDecodesAgain` | SharpCooking/SharpCooking/Cookies.cs:133-134 | a read whose decoded text fits stores that text as the request value, whether or not deserialising it then fails, so a second read of the same cookie works on the value decoded twice |
| `CookieRules.RawValue` | SharpCooking/SharpCooking/Cookies.cs:153-159 | the raw read returns the request value when it is present and non-empty, and null exactly otherwise |
| `SharpCooking.Cookies.GetCookiePrimitiveType` | SharpCooking/SharpCooking/Cookies.cs:153-159 | returns the undecoded request value exactly when it is present and non-empty, changing nothing |
| `CookieRules.WriteThenRawRead` | SharpCooking/SharpCooking/Cookies.cs:153-159 | right after a successful write, the raw read returns the stored payload (null only for an empty payload) |
| `SharpCooking.Cookies.GetCookieCollection` | SharpCooking/SharpCooking/Cookies.cs:118-121 | returns exactly the names in the request table |
| `CookieRules.CollectionAfterOperations` | SharpCooking/SharpCooking/Cookies.cs:118-121 | a successful write adds its key to the listed names. A failed write, a remove and a read leave the names as they were |

## Left out

- `HttpContext.Current`: the ambient request and response are the fields of one `Cookies` object.
- `HttpCookieCollection` semantics: duplicate names from `Add`, and the response indexer creating a missing cookie, are not modelled. Each collection is a map, so a missing entry reads as null. `RemoveCookie` on a name without a response cookie therefore fails with a null reference.
- `Request[cookieKey]` (line 84) also searches the query string, the form and the server variables. The model looks only at the request cookies.
- `Server.UrlEncode`, `Server.UrlDecode` and `JavaScriptSerializer` are foreign library calls. They are uninterpreted `Codec` functions, and no round trip through them is claimed. The reasons `Serialize` or `Deserialize<T>` throw are not told apart: each is one `SerializeFailed` or `DeserializeFailed` outcome. `Deserialize<T>` yields one object type whatever `T` is.
- `DateTime.Now`, `AddMinutes` and `AddDays` are replaced by an integer minute clock. The `ArgumentOutOfRangeException` that `DateTime` arithmetic throws at the edge of its range is not modelled.
- Browser-side expiry is outside the helper. No read in the model consults an expiry.
- AsciiBytes: counts one byte per character. A Dafny character is a Unicode scalar value, while .NET replaces a character outside the Basic Multilingual Plane (a UTF-16 surrogate pair) by two `?` bytes, so such characters are undercounted by one each.
- `Convert.GetTypeCode` and `as T` become tags: `Value` (null, primitive, object) and `Target` (`AcceptsString` for a reference type a string converts to, such as `string`, `object` or `IComparable`; `RejectsString` for any other class). Culture-sensitive comparison in `StartsWith` and `EndsWith` is taken as ordinal.
- `GetCookieCollection`: the order of `AllKeys` is not kept, because the names are returned as a set.
- A null value (lines 43-44, 53-56) runs RemoveCookie's effect and then fails with a null reference. No removal semantics is given to it.
- Chunking across several cookies does not appear in `Cookies.cs` and is not modelled.
