/**
  The rules behind the SharpCooking cookie helper, stated on values.

  The helper works on two ambient cookie collections of the current web
  request: the incoming request cookies and the outgoing response cookies.
  Here both are maps keyed by cookie name, gathered with the process-wide
  expiry setting into one `Jar`.  The class in module SharpCooking updates
  the same three things in place and is proved to follow the functions of
  this module, which say what each operation does to a `Jar`.

  The framework services the helper calls (URL encoding and decoding, JSON
  serialisation) are not modelled: they are the function fields of a
  `Codec`, about which nothing is assumed beyond their types; either JSON
  direction may fail.  Time is a whole number of
  minutes, `now`, supplied by the caller.
 */
module CookieRules {

  /** The C# `int` used for every minutes value. */
  newtype int32 = x: int | -0x8000_0000 <= x < 0x8000_0000

  /** The expiry used when the process-wide setting holds 0. */
  const DefaultExpireMinutes: int32 := 60

  /** The largest payload, in ASCII bytes, that a write accepts. */
  const MaxCookieBytes: nat := 4000

  /** `AddDays(-1)` expressed on the minute clock. */
  const MinutesPerDay: int := 24 * 60

  /** The expiry of a freshly constructed cookie (`DateTime.MinValue`). */
  const SessionExpiry: int := 0

  datatype Option<T> = None | Some(value: T)

  /** The exceptions the helper lets escape to its caller. */
  datatype Error =
    | SizeExceeded          // the "Maximum value of 4KB" exception
    | NullReference         // a member access on null
    | SerializeFailed       // the JSON serialiser rejected the object
    | DeserializeFailed     // the JSON deserialiser rejected the text

  datatype Result<T> = Success(value: T) | Failure(error: Error)

  /** A cookie of the response collection: its value and its expiry (minutes). */
  datatype ResponseCookie = ResponseCookie(value: string, expires: int)

  /** The state the helper reads and writes. */
  datatype Jar = Jar(
    request: map<string, string>,
    response: map<string, ResponseCookie>,
    storedExpire: int32)

  /** What a caller hands to SetCookie: null, a value whose type code is not
      Object (stored through its string form), or an object (stored as JSON). */
  datatype Value<Obj> = Null | Primitive(text: string) | Structured(obj: Obj)

  /** The type argument T of GetCookie<T>, as far as `tempValue as T` sees it:
      a reference type a string converts to (string, object, IComparable,
      IEnumerable<char>, ...), for which the cast yields the text, or any
      other class, for which it yields null. */
  datatype Target = AcceptsString | RejectsString

  /** What GetCookie<T> returns: C# null, the decoded text, or a deserialised object. */
  datatype ReadValue<Obj> = NoValue | Raw(text: string) | Parsed(obj: Obj)

  /** The framework services, left uninterpreted.  Either JSON direction may
      fail: `None` stands for the exception the serialiser or the
      deserialiser throws. */
  datatype Codec<!Obj> = Codec(
    urlEncode: string -> string,
    urlDecode: string -> string,
    serialize: Obj -> Option<string>,
    deserialize: string -> Option<Obj>)

  /** The state after an operation, and what the operation returned or threw. */
  datatype Step<T> = Step(jar: Jar, result: Result<T>)

  // ---------------------------------------------------------------------
  // Expiry

  /** The `ExpireTime` getter: the stored minutes, with 0 read as 60. */
  function EffectiveExpire(stored: int32): (m: int32)
    ensures m != 0
    ensures stored != 0 ==> m == stored
    ensures stored == 0 ==> m == DefaultExpireMinutes
  {
    if stored == 0 then DefaultExpireMinutes else stored
  }

  /** The lifetime a write stamps: the per-call minutes, or the global
      expiry when the caller passed 0.  It is never 0. */
  function ResolveMinutes(expireMinutes: int32, stored: int32): (m: int32)
    ensures m != 0
    ensures expireMinutes != 0 ==> m == expireMinutes
    ensures expireMinutes == 0 ==> m == EffectiveExpire(stored)
  {
    if expireMinutes == 0 then EffectiveExpire(stored) else expireMinutes
  }

  // ---------------------------------------------------------------------
  // Payloads and the size limit

  /** `Replace(";", "")`: every semicolon removed, every other character kept. */
  function StripSemicolons(s: string): (r: string)
    ensures ';' !in r
    ensures |r| <= |s|
    ensures forall c :: c != ';' ==> multiset(r)[c] == multiset(s)[c]
    ensures ';' !in s ==> r == s
  {
    if s == [] then []
    else
      assert s == [s[0]] + s[1..];
      if s[0] == ';' then StripSemicolons(s[1..])
      else [s[0]] + StripSemicolons(s[1..])
  }

  /** The payload the object branch stores: the URL-encoded JSON, without ';'. */
  function ObjectPayload<Obj>(codec: Codec<Obj>, obj: Obj): (p: string)
    requires codec.serialize(obj).Some?
    ensures ';' !in p
    ensures |p| <= |codec.urlEncode(codec.serialize(obj).value)|
    ensures forall c :: c != ';' ==> multiset(p)[c] == multiset(codec.urlEncode(codec.serialize(obj).value))[c]
  {
    StripSemicolons(codec.urlEncode(codec.serialize(obj).value))
  }

  /** A value has a string form: a primitive always, an object when the
      JSON serialiser accepts it. */
  predicate Serializes<Obj>(codec: Codec<Obj>, v: Value<Obj>) {
    v.Primitive? || (v.Structured? && codec.serialize(v.obj).Some?)
  }

  /** The string a value is stored as: a primitive's own string form
      (`objString`), an object's `;`-free URL-encoded JSON (`jsonObject`). */
  function Payload<Obj>(codec: Codec<Obj>, v: Value<Obj>): (p: string)
    requires Serializes(codec, v)
    ensures v.Primitive? ==> p == v.text
    ensures v.Structured? ==> p == ObjectPayload(codec, v.obj) && ';' !in p
  {
    match v
    case Primitive(text) => text
    case Structured(obj) => ObjectPayload(codec, obj)
  }

  /** `Encoding.ASCII.GetBytes`, one byte per character: an ASCII character
      becomes its code, any other character is replaced by '?'. */
  function AsciiBytes(s: string): (bytes: seq<bv8>)
    ensures |bytes| == |s|
    ensures forall i :: 0 <= i < |s| ==> bytes[i] < 128
    ensures forall i :: 0 <= i < |s| && s[i] < 128 as char ==> bytes[i] == s[i] as int as bv8
    ensures forall i :: 0 <= i < |s| && s[i] >= 128 as char ==> bytes[i] == '?' as int as bv8
  {
    seq(|s|, i requires 0 <= i < |s| => if s[i] < 128 as char then s[i] as int as bv8 else '?' as int as bv8)
  }

  /** The 4000-byte check a payload must pass before anything is written. */
  predicate Fits(s: string) {
    |s| <= MaxCookieBytes
  }

  /** `Fits` is the negation of the `GetBytes(...).Length > 4000` test that
      throws: the ASCII encoding has one byte per character. */
  lemma FitsCountsAsciiBytes(s: string)
    ensures Fits(s) <==> !(|AsciiBytes(s)| > MaxCookieBytes)
  {
  }

  // ---------------------------------------------------------------------
  // The table updates

  /** A successful write: the entry for `k` is created or overwritten in both
      collections, the response entry stamped with `expires`. */
  function Write(j: Jar, k: string, payload: string, expires: int): (j': Jar)
    ensures j'.request.Keys == j.request.Keys + {k}
    ensures j'.response.Keys == j.response.Keys + {k}
    ensures j'.request[k] == payload
    ensures j'.response[k] == ResponseCookie(payload, expires)
    ensures forall k' :: k' != k && k' in j.request ==> j'.request[k'] == j.request[k']
    ensures forall k' :: k' != k && k' in j.response ==> j'.response[k'] == j.response[k']
    ensures j'.storedExpire == j.storedExpire
  {
    j.(request := j.request[k := payload],
       response := j.response[k := ResponseCookie(payload, expires)])
  }

  /** RemoveCookie: back-date the response entry by a day.  Without a
      response entry the assignment dereferences null. */
  function RemoveCookieSpec(j: Jar, k: string, now: int): (s: Step<()>)
    ensures s.result.Success? <==> k in j.response
    ensures s.result.Failure? ==> s.result.error == NullReference && s.jar == j
    ensures s.jar.request == j.request && s.jar.storedExpire == j.storedExpire
    ensures s.jar.response.Keys == j.response.Keys
    ensures k in j.response ==>
      s.jar.response[k] == ResponseCookie(j.response[k].value, now - MinutesPerDay)
    ensures forall k' :: k' != k && k' in j.response ==> s.jar.response[k'] == j.response[k']
  {
    if k in j.response then
      Step(j.(response := j.response[k := j.response[k].(expires := now - MinutesPerDay)]), Success(()))
    else
      Step(j, Failure(NullReference))
  }

  /** SetCookie.  A null value first runs RemoveCookie (whose exception is
      swallowed) and then fails when its string form is taken.  Any other
      value fails, before either collection is touched, when the serialiser
      rejects it or its payload is oversized, and otherwise is written with
      the resolved lifetime. */
  function SetCookieSpec<Obj>(codec: Codec<Obj>, j: Jar, v: Value<Obj>, k: string,
                              expireMinutes: int32, now: int): (s: Step<()>)
    ensures s.result.Success? <==> Serializes(codec, v) && Fits(Payload(codec, v))
    ensures s.result.Failure? && !v.Null? ==> s.jar == j
    ensures v.Structured? && codec.serialize(v.obj).None? ==> s.result == Failure(SerializeFailed)
    ensures Serializes(codec, v) && !Fits(Payload(codec, v)) ==> s.result == Failure(SizeExceeded)
    ensures v.Null? ==> s.result == Failure(NullReference) && s.jar == RemoveCookieSpec(j, k, now).jar
    ensures s.result.Success? ==>
      s.jar == Write(j, k, Payload(codec, v), now + ResolveMinutes(expireMinutes, j.storedExpire) as int)
    ensures s.jar.storedExpire == j.storedExpire
  {
    if v.Null? then
      Step(RemoveCookieSpec(j, k, now).jar, Failure(NullReference))
    else if !Serializes(codec, v) then
      Step(j, Failure(SerializeFailed))
    else if !Fits(Payload(codec, v)) then
      Step(j, Failure(SizeExceeded))
    else
      Step(Write(j, k, Payload(codec, v), now + ResolveMinutes(expireMinutes, j.storedExpire) as int), Success(()))
  }

  /** SetCookieSpec on a value whose payload exists and fits, unfolded. */
  lemma WriteOfFitting<Obj>(codec: Codec<Obj>, j: Jar, v: Value<Obj>, k: string,
                            expireMinutes: int32, now: int)
    requires Serializes(codec, v) && Fits(Payload(codec, v))
    ensures SetCookieSpec(codec, j, v, k, expireMinutes, now)
            == Step(Write(j, k, Payload(codec, v), now + ResolveMinutes(expireMinutes, j.storedExpire) as int),
                    Success(()))
  {
  }

  /** SetCookieSpec on a value whose payload is too long, unfolded. */
  lemma WriteOfOversized<Obj>(codec: Codec<Obj>, j: Jar, v: Value<Obj>, k: string,
                              expireMinutes: int32, now: int)
    requires Serializes(codec, v) && !Fits(Payload(codec, v))
    ensures SetCookieSpec(codec, j, v, k, expireMinutes, now) == Step(j, Failure(SizeExceeded))
  {
  }

  /** SetCookieSpec on an object the serialiser rejects, unfolded. */
  lemma WriteOfUnserializable<Obj>(codec: Codec<Obj>, j: Jar, obj: Obj, k: string,
                                   expireMinutes: int32, now: int)
    requires codec.serialize(obj).None?
    ensures SetCookieSpec(codec, j, Structured(obj), k, expireMinutes, now) == Step(j, Failure(SerializeFailed))
  {
  }

  // ---------------------------------------------------------------------
  // Reads

  /** `string.StartsWith` for an ordinal prefix: the first characters of
      `s` are those of `prefix`, one by one. */
  function StartsWith(s: string, prefix: string): (b: bool)
    ensures b <==> |prefix| <= |s| && forall i :: 0 <= i < |prefix| ==> s[i] == prefix[i]
  {
    |prefix| <= |s| && s[..|prefix|] == prefix
  }

  /** `string.EndsWith` for an ordinal suffix: the last characters of `s`
      are those of `suffix`, one by one. */
  function EndsWith(s: string, suffix: string): (b: bool)
    ensures b <==> |suffix| <= |s| && forall i :: 0 <= i < |suffix| ==> s[|s| - |suffix| + i] == suffix[i]
  {
    |suffix| <= |s| && s[|s| - |suffix|..] == suffix
  }

  /** The test that sends a decoded value to the JSON deserialiser: it is
      wrapped in braces or in brackets, which takes at least two characters. */
  function IsJsonShaped(d: string): (b: bool)
    ensures b <==> |d| >= 2 && ((d[0] == '{' && d[|d| - 1] == '}') || (d[0] == '[' && d[|d| - 1] == ']'))
  {
    SingleCharAffix(d, '{');
    SingleCharAffix(d, '}');
    SingleCharAffix(d, '[');
    SingleCharAffix(d, ']');
    (StartsWith(d, "{") && EndsWith(d, "}")) || (StartsWith(d, "[") && EndsWith(d, "]"))
  }

  /** A one-character prefix or suffix is a test of the first or last character. */
  lemma SingleCharAffix(s: string, c: char)
    ensures StartsWith(s, [c]) <==> |s| >= 1 && s[0] == c
    ensures EndsWith(s, [c]) <==> |s| >= 1 && s[|s| - 1] == c
  {
  }

  /** What GetCookie<T> returns for a decoded value `d`. */
  function Decide<Obj>(codec: Codec<Obj>, d: string, target: Target): (r: Result<ReadValue<Obj>>)
    ensures r.Success? && r.value.Parsed? ==> IsJsonShaped(d) && codec.deserialize(d) == Some(r.value.obj)
    ensures r.Success? && r.value.Raw? ==> !IsJsonShaped(d) && target == AcceptsString && r.value.text == d
    ensures r.Failure? ==> IsJsonShaped(d) && codec.deserialize(d).None? && r.error == DeserializeFailed
    ensures IsJsonShaped(d) && codec.deserialize(d).Some? ==> r.Success? && r.value.Parsed?
    ensures IsJsonShaped(d) && codec.deserialize(d).None? ==> r == Failure(DeserializeFailed)
    ensures !IsJsonShaped(d) ==> r.Success? && (r.value.NoValue? <==> target == RejectsString)
  {
    if IsJsonShaped(d) then
      match codec.deserialize(d)
      case Some(obj) => Success(Parsed(obj))
      case None => Failure(DeserializeFailed)
    else
      match target
      case AcceptsString => Success(Raw(d))
      case RejectsString => Success(NoValue)  // `tempValue as T` is null
  }

  /** GetCookie<T>: an absent or empty request value gives null and writes
      nothing; otherwise the value is URL-decoded, written back as a
      primitive with the default lifetime, and handed to `Decide`. */
  function GetCookieSpec<Obj>(codec: Codec<Obj>, j: Jar, k: string, target: Target, now: int)
    : (s: Step<ReadValue<Obj>>)
    ensures (k !in j.request || j.request[k] == "") ==> s == Step(j, Success(NoValue))
    ensures k in j.request && j.request[k] != "" && !Fits(codec.urlDecode(j.request[k])) ==>
      s == Step(j, Failure(SizeExceeded))
    ensures k in j.request && j.request[k] != "" && Fits(codec.urlDecode(j.request[k])) ==>
      var d := codec.urlDecode(j.request[k]);
      && s.jar == Write(j, k, d, now + EffectiveExpire(j.storedExpire) as int)
      && s.result == Decide(codec, d, target)
  {
    if k !in j.request || j.request[k] == "" then
      Step(j, Success(NoValue))
    else
      var d := codec.urlDecode(j.request[k]);
      var w := SetCookieSpec(codec, j, Primitive(d), k, 0, now);
      if w.result.Failure? then Step(w.jar, Failure(w.result.error))
      else Step(w.jar, Decide(codec, d, target))
  }

  /** GetCookiePrimitiveType: the raw request value when it is non-empty. */
  function RawValue(j: Jar, k: string): (r: Option<string>)
    ensures r.Some? <==> k in j.request && j.request[k] != ""
    ensures r.Some? ==> r.value == j.request[k]
  {
    if k in j.request && j.request[k] != "" then Some(j.request[k]) else None
  }

  // ---------------------------------------------------------------------
  // Properties relating several operations

  /** Removing semicolons is the character-by-character map that drops ';'
      and keeps everything else, so it distributes over concatenation. */
  lemma {:induction false} StripSemicolonsConcat(a: string, b: string)
    ensures StripSemicolons(a + b) == StripSemicolons(a) + StripSemicolons(b)
  {
    if a == [] {
      assert a + b == b;
    } else {
      assert (a + b)[0] == a[0];
      assert (a + b)[1..] == a[1..] + b;
      StripSemicolonsConcat(a[1..], b);
    }
  }

  /** Writing the same value twice in a row leaves what one write leaves. */
  lemma WriteIsIdempotent<Obj>(codec: Codec<Obj>, j: Jar, v: Value<Obj>, k: string,
                               expireMinutes: int32, now: int)
    ensures var once := SetCookieSpec(codec, j, v, k, expireMinutes, now);
            SetCookieSpec(codec, once.jar, v, k, expireMinutes, now) == once
  {
  }

  /** A successful write is visible at once to GetCookiePrimitiveType, which
      returns the stored payload unless it is empty. */
  lemma WriteThenRawRead<Obj>(codec: Codec<Obj>, j: Jar, v: Value<Obj>, k: string,
                              expireMinutes: int32, now: int)
    requires SetCookieSpec(codec, j, v, k, expireMinutes, now).result.Success?
    ensures var p := Payload(codec, v);
            RawValue(SetCookieSpec(codec, j, v, k, expireMinutes, now).jar, k)
              == if p == "" then None else Some(p)
  {
  }

  /** A successful write after a remove undoes the back-dating: the result
      is that of the write alone. */
  lemma WriteAfterRemove<Obj>(codec: Codec<Obj>, j: Jar, v: Value<Obj>, k: string,
                              expireMinutes: int32, removedAt: int, now: int)
    requires Serializes(codec, v) && Fits(Payload(codec, v))
    ensures SetCookieSpec(codec, RemoveCookieSpec(j, k, removedAt).jar, v, k, expireMinutes, now)
            == SetCookieSpec(codec, j, v, k, expireMinutes, now)
  {
  }

  /** The names GetCookieCollection lists: a successful write adds its key,
      and nothing else (a failed write, a remove, a read) changes them. */
  lemma CollectionAfterOperations<Obj>(codec: Codec<Obj>, j: Jar, v: Value<Obj>, k: string,
                                       expireMinutes: int32, target: Target, now: int)
    ensures var w := SetCookieSpec(codec, j, v, k, expireMinutes, now);
            w.jar.request.Keys == if w.result.Success? then j.request.Keys + {k} else j.request.Keys
    ensures RemoveCookieSpec(j, k, now).jar.request.Keys == j.request.Keys
    ensures GetCookieSpec(codec, j, k, target, now).jar.request.Keys == j.request.Keys
  {
  }

  /** The object branch never stores a semicolon. */
  lemma ObjectWriteHasNoSemicolon<Obj>(codec: Codec<Obj>, j: Jar, obj: Obj, k: string,
                                       expireMinutes: int32, now: int)
    requires SetCookieSpec(codec, j, Structured(obj), k, expireMinutes, now).result.Success?
    ensures var s := SetCookieSpec(codec, j, Structured(obj), k, expireMinutes, now);
            ';' !in s.jar.request[k] && ';' !in s.jar.response[k].value
  {
  }

  /** GetCookie writes back the DECODED text, so the next read of the same
      cookie decodes it a second time. */
  lemma RepeatedReadDecodesAgain<Obj>(codec: Codec<Obj>, j: Jar, k: string, target: Target,
                                      now: int, later: int)
    requires k in j.request && j.request[k] != ""
    requires Fits(codec.urlDecode(j.request[k]))
    requires codec.urlDecode(j.request[k]) != ""
    ensures var first := GetCookieSpec(codec, j, k, target, now);
            var twice := codec.urlDecode(codec.urlDecode(j.request[k]));
            && first.jar.request[k] == codec.urlDecode(j.request[k])
            && GetCookieSpec(codec, first.jar, k, target, later)
               == if Fits(twice)
                  then Step(Write(first.jar, k, twice, later + EffectiveExpire(j.storedExpire) as int),
                            Decide(codec, twice, target))
                  else Step(first.jar, Failure(SizeExceeded))
  {
    var d := codec.urlDecode(j.request[k]);
    ReadOfPresent(codec, j, k, target, now);
    var j2 := Write(j, k, d, now + EffectiveExpire(j.storedExpire) as int);
    assert GetCookieSpec(codec, j, k, target, now).jar == j2;
    assert j2.request[k] == d && j2.storedExpire == j.storedExpire;
    ReadOfPresent(codec, j2, k, target, later);
  }

  /** GetCookieSpec on a present, non-empty request value, unfolded. */
  lemma ReadOfPresent<Obj>(codec: Codec<Obj>, j: Jar, k: string, target: Target, now: int)
    requires k in j.request && j.request[k] != ""
    ensures var d := codec.urlDecode(j.request[k]);
            GetCookieSpec(codec, j, k, target, now)
              == if Fits(d)
                 then Step(Write(j, k, d, now + EffectiveExpire(j.storedExpire) as int), Decide(codec, d, target))
                 else Step(j, Failure(SizeExceeded))
  {
  }
}
