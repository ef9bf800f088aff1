/** Whom the identity verifier accepts (IdentityVerifier::verify, src/access_identity.cpp): the rules of a token in
    their order, each on the token itself; a token is accepted exactly when it keeps all of them, and refused for the
    first one that it breaks. */
module IdentityRules {
  import opened Common
  import opened Base64
  import opened AccessIdentity
  import opened AccessOptions

  // ---- the parts of a token ----

  /** The three parts between the two dots. */
  datatype Parts = Parts(header: string, payload: string, signature: string)

  predicate HasParts(token: string, p: Parts) {
    && token == p.header + "." + p.payload + "." + p.signature
    && '.' !in p.header && '.' !in p.payload && '.' !in p.signature
  }

  ghost predicate InThreeParts(token: string) {
    exists p :: HasParts(token, p)
  }

  function Joined(pieces: seq<string>): string {
    if pieces == [] then "" else if |pieces| == 1 then pieces[0] else pieces[0] + "." + Joined(pieces[1..])
  }

  lemma {:induction false} SplitJoins(text: string)
    ensures Joined(Split(text, '.')) == text
    ensures forall i | 0 <= i < |Split(text, '.')| :: '.' !in Split(text, '.')[i]
    decreases |text|
  {
    hide IndexOf;
    var i := IndexOf(text, '.');
    if i < |text| {
      SplitJoins(text[i + 1..]);
      assert Split(text, '.')[1..] == Split(text[i + 1..], '.');
      assert text == text[..i] + "." + text[i + 1..];
    } else {
      assert text[..i] == text;
    }
  }

  lemma PartsAreSplit(token: string, p: Parts)
    requires HasParts(token, p)
    ensures Split(token, '.') == [p.header, p.payload, p.signature]
  {
    SplitOne(p.header, '.');
    SplitAppend(p.header, p.payload, '.');
    SplitAppend(p.header + "." + p.payload, p.signature, '.');
  }

  lemma SplitInThree(token: string) returns (p: Parts)
    requires |Split(token, '.')| == 3
    ensures HasParts(token, p)
  {
    hide Split;
    SplitJoins(token);
    var pieces := Split(token, '.');
    p := Parts(pieces[0], pieces[1], pieces[2]);
    assert pieces[1..][1..] == [pieces[2]] && Joined([pieces[2]]) == pieces[2];
    assert Joined(pieces[1..]) == pieces[1] + "." + pieces[2];
    assert Joined(pieces) == pieces[0] + "." + Joined(pieces[1..]);
    assert token == p.header + "." + p.payload + "." + p.signature;
  }

  // ---- the members of a part ----

  predicate HasValue(m: Option<Members>, name: string, v: Value) {
    m.Some? && name in m.value && m.value[name] == v
  }

  predicate HasMember(m: Option<Members>, name: string) {
    m.Some? && name in m.value
  }

  /** A number of whole seconds of 64 bits, or one that is rounded down, not more than 9e15 away from 0. */
  ghost predicate Date(m: Option<Members>, name: string, n: int) {
    || (HasValue(m, name, Whole(n)) && -0x8000_0000_0000_0000 <= n < 0x8000_0000_0000_0000)
    || exists r: real :: HasValue(m, name, Fraction(r)) && -9000000000000000.0 <= r <= 9000000000000000.0
         && n as real <= r < n as real + 1.0
  }

  predicate GoodSubject(subject: string) {
    1 <= |subject| <= 256 && forall c | c in subject :: 0x20 <= c as int && c as int != 0x7F
  }

  // ---- the rules ----

  /** A key of the kind that "alg" names, with the "kid" if there is one, signed the first two parts. */
  ghost predicate Signed(o: Options, p: Parts) {
    exists key | key in o.keys ::
      && (key.kind == Ed25519 ==> HasValue(o.parse(p.header), "alg", Text("Ed25519")))
      && (key.kind == P256 ==> HasValue(o.parse(p.header), "alg", Text("ES256")))
      && (HasMember(o.parse(p.header), "kid") ==> HasValue(o.parse(p.header), "kid", Text(key.kid)))
      && o.signed(key, p.header + "." + p.payload, p.signature)
  }

  ghost predicate ForThisAudience(o: Options, claims: Option<Members>) {
    || HasValue(claims, "aud", Text(o.audience))
    || exists items :: HasValue(claims, "aud", List(items)) && Text(o.audience) in items
  }

  ghost predicate HasText(m: Option<Members>, name: string) {
    exists text :: HasValue(m, name, Text(text))
  }

  /** The rules of a token in three parts, in the order in which they are looked at, and the reason of each. */
  const REASONS: seq<Reason> :=
    [Malformed, Malformed, Algorithm, Malformed, Malformed, Malformed, Kid, Signature, Malformed, Issuer, Audience,
     MaxAge, Malformed, Expired, NotYetValid, MaxAge, Malformed, NotYetValid, Subject]

  ghost predicate HeaderRule(o: Options, p: Parts, k: nat) {
    var h := o.parse(p.header);
    match k
    case 0 => p.header != "" && p.payload != "" && WellSpelled(p.header, true) && WellSpelled(p.payload, true)
              && WellSpelled(p.signature, true)
    case 1 => h.Some?
    case 2 => HasValue(h, "alg", Text("Ed25519")) || HasValue(h, "alg", Text("ES256"))
    case 3 => !HasMember(h, "crit")
    case 4 => HasValue(h, "typ", Text("JWT"))
    case 5 => HasMember(h, "kid") ==> HasText(h, "kid")
    case 6 => HasMember(h, "kid") ==> exists key | key in o.keys :: HasValue(h, "kid", Text(key.kid))
    case _ => Signed(o, p)
  }

  ghost predicate ClaimsRule(o: Options, c: Option<Members>, now: int, k: nat) {
    match k
    case 8 => c.Some?
    case 9 => HasValue(c, "iss", Text(o.issuer))
    case 10 => ForThisAudience(o, c)
    case 11 => HasMember(c, "exp") && HasMember(c, "iat")
    case 12 => (exists exp :: Date(c, "exp", exp)) && exists iat :: Date(c, "iat", iat)
    case 13 => forall exp | Date(c, "exp", exp) :: now <= exp + o.clockSkew
    case 14 => forall iat | Date(c, "iat", iat) :: iat <= now + o.clockSkew
    case 15 => forall exp, iat | Date(c, "exp", exp) && Date(c, "iat", iat) :: 0 <= exp - iat <= o.maxAgeMs / 1000
    case 16 => HasMember(c, "nbf") ==> exists nbf :: Date(c, "nbf", nbf)
    case 17 => forall nbf | Date(c, "nbf", nbf) :: nbf <= now + o.clockSkew
    case _ => exists subject :: HasValue(c, "sub", Text(subject)) && GoodSubject(subject)
  }

  ghost predicate Rule(o: Options, p: Parts, now: int, k: nat) {
    if k < 8 then HeaderRule(o, p, k) else ClaimsRule(o, o.parse(p.payload), now, k)
  }

  ghost predicate KeepsAll(o: Options, p: Parts, now: int) {
    forall k: nat | k < |REASONS| :: Rule(o, p, now, k)
  }

  /** Rule k is the first one that is broken. */
  ghost predicate FirstBroken(o: Options, p: Parts, now: int, k: nat) {
    && k < |REASONS| && !Rule(o, p, now, k)
    && forall j: nat | j < k :: Rule(o, p, now, j)
  }

  // ---- the verifier keeps to the rules ----

  lemma DateIs(m: Option<Members>, name: string)
    ensures HasMember(m, name) ==>
              forall n :: Date(m, name, n) <==> NumericDate(m.value[name]) == Some(n)
    ensures HasMember(m, name) && NumericDate(m.value[name]).Some? ==>
              Date(m, name, NumericDate(m.value[name]).value)
    ensures !HasMember(m, name) ==> forall n :: !Date(m, name, n)
  {
    if HasMember(m, name) && m.value[name].Fraction? {
      var r := m.value[name].r;
      assert HasValue(m, name, Fraction(r));
      forall n ensures Date(m, name, n) <==> NumericDate(m.value[name]) == Some(n) {
        FloorIs(r, n);
      }
    }
  }

  lemma FloorIs(r: real, n: int)
    ensures n as real <= r < n as real + 1.0 <==> n == r.Floor
  {
  }

  lemma SubjectIs(subject: string)
    ensures GoodSubject(subject) <==> subject != "" && |subject| <= MAX_SUBJECT_BYTES && !HasControl(subject)
  {
  }

  lemma SignedIs(o: Options, p: Parts, header: Members)
    requires o.parse(p.header) == Some(header)
    requires "alg" in header && (header["alg"] == Text("Ed25519") || header["alg"] == Text("ES256"))
    requires "kid" in header ==> header["kid"].Text?
    ensures var kid := if "kid" in header then Some(header["kid"].text) else None;
            var kind := if header["alg"] == Text("Ed25519") then Ed25519 else P256;
            SignedBy(o, kind, kid, p.header + "." + p.payload, p.signature) <==> Signed(o, p)
  {
  }

  /** The rules of the header, the signature, the issuer and the audience: the first one that is broken, or the
      claims. */
  lemma HeaderStage(o: Options, token: string, p: Parts, now: int) returns (k: nat)
    requires HasParts(token, p)
    ensures k <= 11 && forall j: nat | j < k :: Rule(o, p, now, j)
    ensures k < 11 ==> !Rule(o, p, now, k) && Authentic(o, token) == Stop(REASONS[k])
    ensures k == 11 ==> o.parse(p.payload).Some? && Authentic(o, token) == Go(o.parse(p.payload).value)
  {
    hide Split, Signed, SignedBy, WellSpelled, ForThisAudience;
    PartsAreSplit(token, p);
    if !HeaderRule(o, p, 0) {
      k := 0;
    } else if !HeaderRule(o, p, 1) {
      k := 1;
    } else {
      var header := o.parse(p.header).value;
      k := AfterTheHeader(o, p, header, now);
    }
  }

  lemma AfterTheHeader(o: Options, p: Parts, header: Members, now: int) returns (k: nat)
    requires Rule(o, p, now, 0) && o.parse(p.header) == Some(header)
    ensures k <= 11 && forall j: nat | j < k :: Rule(o, p, now, j)
    ensures var result := Headed(o, header, p.header + "." + p.payload, p.signature, p.payload);
            && (k < 11 ==> !Rule(o, p, now, k) && result == Stop(REASONS[k]))
            && (k == 11 ==> o.parse(p.payload).Some? && result == Go(o.parse(p.payload).value))
  {
    hide Signed, SignedBy, WellSpelled, ForThisAudience, Named;
    if !HeaderRule(o, p, 2) {
      k := 2;
    } else if !HeaderRule(o, p, 3) {
      k := 3;
    } else if !HeaderRule(o, p, 4) {
      k := 4;
    } else if !HeaderRule(o, p, 5) {
      k := 5;
    } else {
      k := AfterTheForm(o, p, header, now);
    }
  }

  lemma AfterTheForm(o: Options, p: Parts, header: Members, now: int) returns (k: nat)
    requires o.parse(p.header) == Some(header) && forall j: nat | j < 6 :: HeaderRule(o, p, j)
    ensures 6 <= k <= 11 && forall j: nat | j < k :: Rule(o, p, now, j)
    ensures var result := Headed(o, header, p.header + "." + p.payload, p.signature, p.payload);
            && (k < 11 ==> !Rule(o, p, now, k) && result == Stop(REASONS[k]))
            && (k == 11 ==> o.parse(p.payload).Some? && result == Go(o.parse(p.payload).value))
  {
    hide Signed, SignedBy, WellSpelled, ForThisAudience, Named;
    assert HeaderRule(o, p, 2) && HeaderRule(o, p, 3) && HeaderRule(o, p, 4) && HeaderRule(o, p, 5);
    SignedIs(o, p, header);
    if !HeaderRule(o, p, 6) {
      k := 6;
    } else if !HeaderRule(o, p, 7) {
      k := 7;
    } else if o.parse(p.payload).None? {
      k := 8;
    } else {
      var claims := o.parse(p.payload).value;
      NamedIs(o, claims);
      k := if !ClaimsRule(o, Some(claims), now, 9) then 9 else if !ClaimsRule(o, Some(claims), now, 10) then 10 else 11;
    }
  }

  lemma NamedIs(o: Options, claims: Members)
    ensures var issuer, audience := HasValue(Some(claims), "iss", Text(o.issuer)), ForThisAudience(o, Some(claims));
            Named(o, claims) == if !issuer then Stop(Issuer) else if !audience then Stop(Audience) else Go(claims)
  {
    if "aud" in claims && claims["aud"].List? {
      assert HasValue(Some(claims), "aud", List(claims["aud"].items));
    }
  }

  /** The rules of the times and of the subject. */
  lemma ClaimsStage(o: Options, claims: Members, now: int) returns (k: nat)
    ensures 11 <= k <= 19 && forall j: nat | 11 <= j < k :: ClaimsRule(o, Some(claims), now, j)
    ensures k < 19 ==> !ClaimsRule(o, Some(claims), now, k) && Timed(o, claims, now) == Refused(REASONS[k])
    ensures k == 19 ==>
              && Timed(o, claims, now).Accepted?
              && HasValue(Some(claims), "sub", Text(Timed(o, claims, now).subject))
              && Date(Some(claims), "exp", Timed(o, claims, now).expiresAt)
  {
    hide NumericDate, Date, GoodSubject, HasControl;
    var c := Some(claims);
    DateIs(c, "exp");
    DateIs(c, "iat");
    DateIs(c, "nbf");
    if "sub" in claims && claims["sub"].Text? {
      SubjectIs(claims["sub"].text);
    }
    if !ClaimsRule(o, c, now, 11) {
      k := 11;
    } else if !ClaimsRule(o, c, now, 12) {
      k := 12;
    } else if !ClaimsRule(o, c, now, 13) {
      k := 13;
    } else if !ClaimsRule(o, c, now, 14) {
      k := 14;
    } else if !ClaimsRule(o, c, now, 15) {
      k := 15;
    } else if !ClaimsRule(o, c, now, 16) {
      k := 16;
    } else if !ClaimsRule(o, c, now, 17) {
      k := 17;
    } else if !ClaimsRule(o, c, now, 18) {
      k := 18;
    } else {
      k := 19;
    }
  }

  /** A token in three parts is accepted exactly when it keeps every rule, with its subject and its end, and refused
      for the reason of the first rule that it breaks. */
  lemma AcceptedByTheRules(o: Options, token: string, p: Parts, now: int)
    requires HasParts(token, p) && |token| <= 16384
    ensures var result := VerifyPlain(o, token, now);
            && (result.Accepted? <==> KeepsAll(o, p, now))
            && (result.Accepted? ==>
                  && HasValue(o.parse(p.payload), "sub", Text(result.subject))
                  && Date(o.parse(p.payload), "exp", result.expiresAt))
            && (result.Refused? ==> exists k: nat :: FirstBroken(o, p, now, k) && result.reason == REASONS[k])
  {
    assert token != "";
    hide Authentic, Timed, HasParts, HeaderRule, ClaimsRule, Date;
    var k := HeaderStage(o, token, p, now);
    if k == 11 {
      var claims := o.parse(p.payload).value;
      assert o.parse(p.payload) == Some(claims) && |REASONS| == 19;
      var m := ClaimsStage(o, claims, now);
      forall j: nat | j < m ensures Rule(o, p, now, j) {
      }
      if m < 19 {
        assert FirstBroken(o, p, now, m);
      }
    } else {
      assert FirstBroken(o, p, now, k);
    }
  }

  /** Every other token is refused: an empty one as missing, any other as malformed. */
  lemma RefusedWithoutParts(o: Options, token: string, now: int)
    requires token == "" || |token| > 16384 || !InThreeParts(token)
    ensures VerifyPlain(o, token, now) == Refused(if token == "" then Missing else Malformed)
  {
    hide Split;
    if |Split(token, '.')| == 3 {
      var p := SplitInThree(token);
    }
  }
}
