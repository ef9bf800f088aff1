/** The verifier of the identity tokens and its cache (src/access_identity.cpp): with a clock that does not go back, the
    cached verifier answers like the one without a cache. */
module AccessIdentity {
  import opened Common
  import opened Base64
  import opened AccessOptions

  const MAX_TOKEN_BYTES := 16384
  const MAX_SUBJECT_BYTES := 256

  datatype KeyType = Ed25519 | P256
  datatype IdentityKey = IdentityKey(kind: KeyType, kid: string, number: nat)

  /** A value of a JSON object, as far as the verifier looks at it. */
  datatype Value = Text(text: string) | Whole(n: int) | Fraction(r: real) | List(items: seq<Value>) | OtherValue
  type Members = map<string, Value>

  /** `parse` gives the object of a part of a token (its base64url text is well spelled), `signed` checks a signature,
      `digest` is the key of the cache. */
  datatype Options = Options(issuer: string, audience: string, maxAgeMs: nat, keys: seq<IdentityKey>, clockSkew: int,
                             cacheEntries: nat, parse: string -> Option<Members>,
                             signed: (IdentityKey, string, string) -> bool, digest: string -> string)

  datatype Reason = Missing | Malformed | Algorithm | Kid | Signature | Issuer | Audience | Expired | NotYetValid
                  | MaxAge
                  | Subject
  datatype Identity = Accepted(subject: string, expiresAt: int) | Refused(reason: Reason)

  /** A NumericDate (section 2 of RFC 7519): whole seconds of 64 bits, or a fraction that is rounded down. */
  function NumericDate(v: Value): Option<int> {
    match v
    case Whole(n) => if -0x8000_0000_0000_0000 <= n < 0x8000_0000_0000_0000 then Some(n) else None
    case Fraction(r) => if -9000000000000000.0 <= r <= 9000000000000000.0 then Some(r.Floor) else None
    case _ => None
  }

  predicate HasControl(text: string) {
    exists c | c in text :: c as int < 0x20 || c as int == 0x7F
  }

  predicate SignedBy(o: Options, kind: KeyType, kid: Option<string>, input: string, signature: string) {
    exists key | key in o.keys ::
      key.kind == kind && (kid.Some? ==> key.kid == kid.value) && o.signed(key, input, signature)
  }

  /** The checks of the header and of the signature; the claims when all hold. */
  function Authentic(o: Options, token: string): Result<Members> {
    var parts := Split(token, '.');
    if |parts| != 3 then Stop(Malformed)
    else
      var header, payload, signature := parts[0], parts[1], parts[2];
      if header == "" || payload == "" || !WellSpelled(header, true) || !WellSpelled(payload, true)
         || !WellSpelled(signature, true)
      then Stop(Malformed)
      else
        var members := o.parse(header);
        if members.None? then Stop(Malformed) else Headed(o, members.value, header + "." + payload, signature, payload)
  }

  datatype Result<+T> = Go(value: T) | Stop(reason: Reason)

  function Headed(o: Options, header: Members, input: string, signature: string, payload: string): Result<Members> {
    if "alg" !in header || (header["alg"] != Text("Ed25519") && header["alg"] != Text("ES256")) then Stop(Algorithm)
    else if "crit" in header then Stop(Malformed)
    else if "typ" !in header || header["typ"] != Text("JWT") then Stop(Malformed)
    else if "kid" in header && !header["kid"].Text? then Stop(Malformed)
    else
      var kid := if "kid" in header then Some(header["kid"].text) else None;
      var kind := if header["alg"] == Text("Ed25519") then Ed25519 else P256;
      if kid.Some? && !(exists key | key in o.keys :: key.kid == kid.value) then Stop(Kid)
      else if !SignedBy(o, kind, kid, input, signature) then Stop(Signature)
      else
        var claims := o.parse(payload);
        if claims.None? then Stop(Malformed) else Named(o, claims.value)
  }

  /** The issuer and the audience. */
  function Named(o: Options, claims: Members): Result<Members> {
    if "iss" !in claims || claims["iss"] != Text(o.issuer) then Stop(Issuer)
    else if "aud" !in claims then Stop(Audience)
    else if !(claims["aud"] == Text(o.audience) || (claims["aud"].List? && Text(o.audience) in claims["aud"].items))
    then Stop(Audience)
    else Go(claims)
  }

  /** The time claims (sections 4.1.4 to 4.1.6 of RFC 7519), then the subject. */
  function Timed(o: Options, claims: Members, now: int): Identity {
    if "exp" !in claims || "iat" !in claims then Refused(MaxAge)
    else
      var exp, iat := NumericDate(claims["exp"]), NumericDate(claims["iat"]);
      if exp.None? || iat.None? then Refused(Malformed)
      else if now - o.clockSkew > exp.value then Refused(Expired)
      else if iat.value > now + o.clockSkew then Refused(NotYetValid)
      else if exp.value < iat.value || exp.value - iat.value > o.maxAgeMs / 1000 then Refused(MaxAge)
      else if "nbf" in claims && NumericDate(claims["nbf"]).None? then Refused(Malformed)
      else if "nbf" in claims && NumericDate(claims["nbf"]).value > now + o.clockSkew then Refused(NotYetValid)
      else if "sub" !in claims || !claims["sub"].Text? then Refused(Subject)
      else
        var subject := claims["sub"].text;
        if subject == "" || |subject| > MAX_SUBJECT_BYTES || HasControl(subject) then Refused(Subject)
        else Accepted(subject, exp.value)
  }

  function VerifyUncached(o: Options, token: string, now: int): Identity {
    var claims := Authentic(o, token);
    if claims.Stop? then Refused(claims.reason) else Timed(o, claims.value, now)
  }

  /** The verifier without a cache. */
  function VerifyPlain(o: Options, token: string, now: int): Identity {
    if token == "" then Refused(Missing)
    else if |token| > MAX_TOKEN_BYTES then Refused(Malformed)
    else VerifyUncached(o, token, now)
  }

  // ---- time ----

  /** The answer that a kept token gets. */
  function KeptAnswer(o: Options, subject: string, expiresAt: int, now: int): Identity {
    if now - o.clockSkew <= expiresAt then Accepted(subject, expiresAt) else Refused(Expired)
  }

  /** The latest of iat and nbf. */
  function Starts(claims: Members): int
    requires "iat" in claims && NumericDate(claims["iat"]).Some?
  {
    var iat := NumericDate(claims["iat"]).value;
    if "nbf" in claims && NumericDate(claims["nbf"]).Some? then Max(iat, NumericDate(claims["nbf"]).value) else iat
  }

  lemma AcceptedClaims(o: Options, token: string, at: int)
    requires VerifyUncached(o, token, at).Accepted?
    ensures Authentic(o, token).Go?
    ensures var claims := Authentic(o, token).value;
            "iat" in claims && NumericDate(claims["iat"]).Some? && Starts(claims) <= at + o.clockSkew
  {
    hide Authentic, NumericDate;
  }

  /** A token that was accepted once has its kept answer at another time exactly when that time is past its end, or not
      before its start. */
  lemma KeptAnswerExactly(o: Options, token: string, at: int, now: int)
    requires VerifyUncached(o, token, at).Accepted? && Authentic(o, token).Go?
    requires var claims := Authentic(o, token).value; "iat" in claims && NumericDate(claims["iat"]).Some?
    ensures var kept, starts := VerifyUncached(o, token, at), Starts(Authentic(o, token).value);
            KeptAnswer(o, kept.subject, kept.expiresAt, now) == VerifyUncached(o, token, now) <==>
              now - o.clockSkew > kept.expiresAt || starts <= now + o.clockSkew
  {
    hide Authentic, NumericDate, HasControl;
  }

  /** So with a clock that does not go back the kept answer is right. */
  lemma KeptAnswerIsRight(o: Options, token: string, at: int, now: int)
    requires VerifyUncached(o, token, at).Accepted? && at <= now
    ensures var kept := VerifyUncached(o, token, at);
            KeptAnswer(o, kept.subject, kept.expiresAt, now) == VerifyUncached(o, token, now)
  {
    hide Authentic, NumericDate, VerifyUncached;
    AcceptedClaims(o, token, at);
    KeptAnswerExactly(o, token, at, now);
  }

  // ---- the cache ----

  datatype Cached = Cached(subject: string, expiresAt: int)
  /** When and for which token an entry was made. */
  datatype Origin = Origin(token: string, at: int)

  /** Different tokens have different digests. */
  ghost predicate Injective(digest: string -> string) {
    forall a, b :: digest(a) == digest(b) ==> a == b
  }

  predicate Backed(o: Options, key: string, c: Cached, origin: Origin) {
    && o.digest(origin.token) == key
    && origin.token != "" && |origin.token| <= MAX_TOKEN_BYTES
    && VerifyUncached(o, origin.token, origin.at) == Accepted(c.subject, c.expiresAt)
  }

  /** Every entry is the accepted answer to its token at an earlier time. */
  predicate AllBacked(o: Options, cache: map<string, Cached>, origins: map<string, Origin>) {
    forall key | key in cache :: key in origins && Backed(o, key, cache[key], origins[key])
  }

  /** The entries that are not expired. */
  function Unexpired(cache: map<string, Cached>, earliest: int): map<string, Cached> {
    map key | key in cache && cache[key].expiresAt >= earliest :: cache[key]
  }

  /** What is left of a cache before one more entry comes: all of it while there is room, else the entries that are not
      expired, and nothing when these are still too many. */
  function RoomMade(cache: map<string, Cached>, entries: nat, earliest: int): map<string, Cached> {
    if |cache| < entries then cache
    else if |Unexpired(cache, earliest)| < entries then Unexpired(cache, earliest)
    else map[]
  }

  /** What the cache answers for a token. */
  function FromEntry(o: Options, cache: map<string, Cached>, token: string, now: int): Option<Identity> {
    var key := o.digest(token);
    if key !in cache then None else Some(KeptAnswer(o, cache[key].subject, cache[key].expiresAt, now))
  }

  class IdentityVerifier {
    const options: Options
    var cache: map<string, Cached>
    ghost var origins: map<string, Origin>

    ghost predicate Valid()
      reads this
    {
      && Injective(options.digest)
      && AllBacked(options, cache, origins)
      && |cache| <= options.cacheEntries
    }

    /** No entry was made later than `now`: the clock did not go back. */
    ghost predicate NoneLater(now: int)
      reads this
    {
      forall key | key in cache && key in origins :: origins[key].at <= now
    }

    constructor (options: Options)
      requires Injective(options.digest)
      ensures Valid() && cache == map[] && this.options == options
    {
      this.options, cache, origins := options, map[], map[];
    }

    /** The first region of verify: a kept token is answered from its entry, and an expired entry goes. */
    method Lookup(token: string, now: int) returns (found: Option<Identity>)
      requires Valid() && NoneLater(now) && token != "" && |token| <= MAX_TOKEN_BYTES
      modifies `cache
      ensures Valid() && NoneLater(now)
      ensures found.Some? <==> options.digest(token) in old(cache)
      ensures found.Some? ==> found.value == VerifyPlain(options, token, now)
      ensures found == FromEntry(options, old(cache), token, now)
      ensures cache == if found == Some(Refused(Expired)) then old(cache) - {options.digest(token)} else old(cache)
    {
      hide VerifyUncached, Injective;
      var key := options.digest(token);
      found := None;
      if key in cache {
        var c := cache[key];
        SameToken(options, origins[key].token, token);
        assert Backed(options, key, c, origins[key]);
        KeptAnswerIsRight(options, token, origins[key].at, now);
        if now - options.clockSkew <= c.expiresAt {
          found := Some(Accepted(c.subject, c.expiresAt));
        } else {
          FewerEntries(cache, key);
          cache := cache - {key};
          found := Some(Refused(Expired));
        }
      }
    }

    /** The entries that are not expired. */
    method Evict(now: int)
      requires Valid()
      modifies `cache
      ensures Valid() && cache == Unexpired(old(cache), now - options.clockSkew)
    {
      hide Backed, Injective;
      var all := cache;
      var keep := map key | key in all && all[key].expiresAt >= now - options.clockSkew :: all[key];
      Submap(keep, all);
      cache := keep;
    }

    /** Room for one more entry: the expired ones go first, and if that is not enough all of them. */
    method MakeRoom(now: int)
      requires Valid() && NoneLater(now) && options.cacheEntries > 0
      modifies `cache
      ensures Valid() && NoneLater(now) && |cache| < options.cacheEntries
      ensures cache == RoomMade(old(cache), options.cacheEntries, now - options.clockSkew)
    {
      hide Backed, Injective;
      if |cache| >= options.cacheEntries {
        Evict(now);
        if |cache| >= options.cacheEntries {
          cache := map[];
        }
      }
    }

    /** The second region: an accepted token is kept, after an eviction when the cache is full. */
    method Store(token: string, result: Identity, now: int)
      requires Valid() && NoneLater(now) && token != "" && |token| <= MAX_TOKEN_BYTES
      requires result == VerifyUncached(options, token, now)
      modifies this
      ensures Valid() && NoneLater(now)
      ensures cache ==
              if result.Accepted? && options.cacheEntries > 0
              then RoomMade(old(cache), options.cacheEntries, now - options.clockSkew)
                     [options.digest(token) := Cached(result.subject, result.expiresAt)]
              else old(cache)
    {
      hide VerifyUncached, Injective, AllBacked;
      if result.Accepted? && options.cacheEntries > 0 {
        var key := options.digest(token);
        MakeRoom(now);
        BackedNext(options, cache, origins, token, result, now);
        cache := cache[key := Cached(result.subject, result.expiresAt)];
        origins := origins[key := Origin(token, now)];
      }
    }

    /** The token is kept, with its answer, exactly when it is accepted; a kept answer changes nothing. */
    ghost predicate KeptWhenAccepted(before: map<string, Cached>, token: string, result: Identity)
      reads this
    {
      var key := options.digest(token);
      && (result.Accepted? ==> key in cache && cache[key] == Cached(result.subject, result.expiresAt))
      && (!result.Accepted? ==> cache == before - {key})
      && (result.Accepted? && key in before ==> cache == before)
    }

    /** A call of verify: the answer of the verifier without a cache, whatever was evicted. */
    method Verify(token: string, now: int) returns (result: Identity)
      requires Valid() && NoneLater(now)
      modifies this
      ensures Valid() && NoneLater(now)
      ensures result == VerifyPlain(options, token, now)
      ensures if options.cacheEntries > 0 && 0 < |token| <= 16384 then KeptWhenAccepted(old(cache), token, result)
              else cache == old(cache)
    {
      hide VerifyUncached, Injective, AllBacked, RoomMade;
      if token == "" {
        result := Refused(Missing);
      } else if |token| > MAX_TOKEN_BYTES {
        result := Refused(Malformed);
      } else {
        var found: Option<Identity> := None;
        if options.cacheEntries > 0 {
          found := Lookup(token, now);
        }
        if found.Some? {
          result := found.value;
        } else {
          result := VerifyUncached(options, token, now);
          if result.Accepted? && options.cacheEntries > 0 {
            Store(token, result, now);
          }
        }
      }
    }

    /** Any sequence of calls at times that do not go back gives the answers of the verifier without a cache. */
    method VerifyAll(calls: seq<(string, int)>) returns (results: seq<Identity>)
      requires Valid() && (calls != [] ==> NoneLater(calls[0].1))
      requires forall i, j | 0 <= i < j < |calls| :: calls[i].1 <= calls[j].1
      modifies this
      ensures Valid() && |results| == |calls|
      ensures forall i | 0 <= i < |calls| :: results[i] == VerifyPlain(options, calls[i].0, calls[i].1)
    {
      hide VerifyPlain, Injective, AllBacked;
      results := [];
      for i := 0 to |calls|
        invariant Valid() && |results| == i && (i < |calls| ==> NoneLater(calls[i].1))
        invariant forall k | 0 <= k < i :: results[k] == VerifyPlain(options, calls[k].0, calls[k].1)
      {
        var result := Verify(calls[i].0, calls[i].1);
        results := results + [result];
      }
    }
  }

  lemma BackedNext(o: Options, cache: map<string, Cached>, origins: map<string, Origin>, token: string,
                   result: Identity, now: int)
    requires AllBacked(o, cache, origins) && token != "" && |token| <= MAX_TOKEN_BYTES
    requires result == VerifyUncached(o, token, now) && result.Accepted?
    ensures AllBacked(o, cache[o.digest(token) := Cached(result.subject, result.expiresAt)],
                      origins[o.digest(token) := Origin(token, now)])
  {
    hide VerifyUncached;
  }

  lemma SameToken(o: Options, a: string, b: string)
    requires Injective(o.digest) && o.digest(a) == o.digest(b)
    ensures a == b
  {
  }

  lemma FewerEntries(cache: map<string, Cached>, key: string)
    requires key in cache
    ensures |cache - {key}| == |cache| - 1
  {
    assert (cache - {key}).Keys == cache.Keys - {key};
  }

  lemma Submap(some: map<string, Cached>, all: map<string, Cached>)
    requires some.Keys <= all.Keys
    ensures |some| <= |all|
  {
    var rest := all.Keys - some.Keys;
    assert all.Keys == some.Keys + rest;
  }
}
