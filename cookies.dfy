/**
  The static `Cookies` helper of SharpCooking as a class over its state:
  the request and response cookie collections of the current web request,
  and the process-wide expiry setting `_ExpireTime`.  Each method changes
  the fields in place, branch by branch as the helper does, and is proved
  to leave the state that the matching function of CookieRules describes.
 */
module SharpCooking {
  import opened CookieRules

  class Cookies<!Obj> {
    /** The framework's URL-encoding and JSON services. */
    const codec: Codec<Obj>
    /** The request cookie collection: name to value. */
    var request: map<string, string>
    /** The response cookie collection: name to value and expiry. */
    var response: map<string, ResponseCookie>
    /** The static `_ExpireTime` backing field. */
    var storedExpire: int32

    /** The state as a value, for the functions of CookieRules. */
    ghost function State(): Jar
      reads this
    {
      Jar(request, response, storedExpire)
    }

    /** A request arrives carrying `incoming`, with nothing yet in the
        response and the process-wide setting at `stored`. */
    constructor (codec: Codec<Obj>, incoming: map<string, string>, stored: int32)
      ensures this.codec == codec
      ensures request == incoming && response == map[] && storedExpire == stored
    {
      this.codec := codec;
      request := incoming;
      response := map[];
      storedExpire := stored;
    }

    /** The `ExpireTime` getter: the stored setting, with 0 read as 60. */
    function ExpireTime(): (m: int32)
      reads this
      ensures m != 0
      ensures storedExpire != 0 ==> m == storedExpire
      ensures storedExpire == 0 ==> m == DefaultExpireMinutes
    {
      EffectiveExpire(storedExpire)
    }

    /** SetExpireTime: store the global default, read back with 0 as 60. */
    method SetExpireTime(minutes: int32)
      modifies this
      ensures storedExpire == minutes
      ensures request == old(request) && response == old(response)
      ensures ExpireTime() == if minutes != 0 then minutes else DefaultExpireMinutes
    {
      storedExpire := minutes;
    }

    /** RemoveCookie: back-date the response cookie `k` by one day. */
    method RemoveCookie(k: string, now: int) returns (outcome: Result<()>)
      modifies this
      ensures State() == RemoveCookieSpec(old(State()), k, now).jar
      ensures outcome == RemoveCookieSpec(old(State()), k, now).result
      ensures request == old(request) && storedExpire == old(storedExpire)
    {
      if k !in response {
        return Failure(NullReference);
      }
      response := response[k := response[k].(expires := now - MinutesPerDay)];
      outcome := Success(());
    }

    /** SetCookie: write `v` under `k` in both collections, expiring
        `expireMinutes` from `now` (the global expiry when 0). */
    method SetCookie(v: Value<Obj>, k: string, expireMinutes: int32, now: int) returns (outcome: Result<()>)
      modifies this
      ensures State() == SetCookieSpec(codec, old(State()), v, k, expireMinutes, now).jar
      ensures outcome == SetCookieSpec(codec, old(State()), v, k, expireMinutes, now).result
      ensures outcome.Success? ==>
        && request == old(request)[k := Payload(codec, v)]
        && response == old(response)[k := ResponseCookie(Payload(codec, v),
             now + ResolveMinutes(expireMinutes, old(storedExpire)) as int)]
      ensures outcome.Failure? && !v.Null? ==> request == old(request) && response == old(response)
    {
      ghost var before := State();
      var minutes := expireMinutes;
      if v.Null? {
        // The exception RemoveCookie may throw is caught; taking the
        // string form of null afterwards is not.
        var _ := RemoveCookie(k, now);
        return Failure(NullReference);
      }
      if minutes == 0 {
        minutes := ExpireTime();
      }
      var payload: string;
      if v.Primitive? {
        payload := v.text;
      } else {
        var json := codec.serialize(v.obj);
        if json.None? {
          WriteOfUnserializable(codec, before, v.obj, k, expireMinutes, now);
          return Failure(SerializeFailed);
        }
        payload := StripSemicolons(codec.urlEncode(json.value));
      }
      assert Serializes(codec, v) && payload == Payload(codec, v);
      assert minutes == ResolveMinutes(expireMinutes, before.storedExpire);
      if !Fits(payload) {
        WriteOfOversized(codec, before, v, k, expireMinutes, now);
        return Failure(SizeExceeded);
      }
      WriteOfFitting(codec, before, v, k, expireMinutes, now);
      Store(k, payload, now + minutes as int);
      outcome := Success(());
    }

    /** The table update both branches of SetCookie share: create the cookie
        `k` in both collections or overwrite its value in place, then stamp
        the response cookie's expiry. */
    method Store(k: string, payload: string, expires: int)
      modifies this
      ensures State() == Write(old(State()), k, payload, expires)
    {
      ghost var before := State();
      if k !in request {
        response := response[k := ResponseCookie(payload, SessionExpiry)];
        request := request[k := payload];
      } else {
        if k !in response {
          response := response[k := ResponseCookie(payload, SessionExpiry)];
        } else {
          response := response[k := response[k].(value := payload)];
        }
        request := request[k := payload];
      }
      assert request == before.request[k := payload];
      response := response[k := response[k].(expires := expires)];
      assert response == before.response[k := ResponseCookie(payload, expires)];
    }

    /** GetCookie<T>: read, decode, refresh and interpret the cookie `k`. */
    method GetCookie(k: string, target: Target, now: int) returns (r: Result<ReadValue<Obj>>)
      modifies this
      ensures State() == GetCookieSpec(codec, old(State()), k, target, now).jar
      ensures r == GetCookieSpec(codec, old(State()), k, target, now).result
    {
      if k !in request || request[k] == "" {
        return Success(NoValue);
      }
      var decoded := codec.urlDecode(request[k]);
      var written := SetCookie(Primitive(decoded), k, 0, now);
      if written.Failure? {
        return Failure(written.error);
      }
      if IsJsonShaped(decoded) {
        match codec.deserialize(decoded)
        case Some(obj) => r := Success(Parsed(obj));
        case None => r := Failure(DeserializeFailed);
      } else if target == AcceptsString {
        r := Success(Raw(decoded));
      } else {
        r := Success(NoValue);
      }
    }

    /** GetCookiePrimitiveType: the raw request value, undecoded, or null. */
    method GetCookiePrimitiveType(k: string) returns (r: Option<string>)
      ensures r.Some? <==> k in request && request[k] != ""
      ensures r.Some? ==> r.value == request[k]
      ensures r == RawValue(State(), k)
    {
      if k in request && request[k] != "" {
        r := Some(request[k]);
      } else {
        r := None;
      }
    }

    /** GetCookieCollection: the names of the request cookies. */
    method GetCookieCollection() returns (names: set<string>)
      ensures forall k :: k in names <==> k in request
    {
      names := request.Keys;
    }
  }

  /** A short session: the setting defaults to 60 minutes, a write is seen
      by the raw read, a remove back-dates it and leaves the value. */
  method Session<Obj>(codec: Codec<Obj>, now: int)
  {
    var jar := new Cookies(codec, map[], 0);
    var ok := jar.SetCookie(Primitive("dark"), "theme", 0, now);
    assert ok.Success?;
    assert jar.response["theme"] == ResponseCookie("dark", now + 60);
    var raw := jar.GetCookiePrimitiveType("theme");
    assert raw == Some("dark");
    var removed := jar.RemoveCookie("theme", now);
    assert removed.Success? && jar.response["theme"] == ResponseCookie("dark", now - MinutesPerDay);
    var missing := jar.RemoveCookie("lang", now);
    assert missing == Failure(NullReference);
    jar.SetExpireTime(15);
    ok := jar.SetCookie(Primitive("en"), "lang", 0, now);
    assert jar.response["lang"].expires == now + 15;
    var names := jar.GetCookieCollection();
    assert names == {"theme", "lang"};
  }
}
