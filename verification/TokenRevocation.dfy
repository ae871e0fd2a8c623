/** Signing, parsing and destroying tokens (authn/jwt/jwt.go), over a clock, a
    store with expiry times, and operations that other work can interleave. */
module TokenRevocation {
  import opened Optional

  /** Times and durations are in nanoseconds. */
  const SECOND := 1_000_000_000

  /** Registered claims; dates are whole seconds, absent ones are None. */
  datatype Claims = Claims(exp: Option<int>, nbf: Option<int>, iat: Option<int>)

  /** What the JWT library reads from a token string. */
  datatype Decoded =
    | Malformed
    | Decoded(verifiable: bool, signatureOk: bool, sameMethod: bool, claims: Claims)

  datatype AuthError = TokenInvalid | TokenExpired | ParseFailed | WrongMethod | StoreFailed

  datatype Result<+T> = Ok(value: T) | Err(error: AuthError)

  /** The authenticator's fixed surroundings. slack is how much earlier than asked
      the store may forget a key: 0 for an exact store. */
  datatype Config = Config(decode: string -> Decoded, hash: string -> string, hasStore: bool, slack: nat)

  // ------------------------------------------------------------------- signing

  function WholeSeconds(t: int): int {
    t - t % SECOND
  }

  /** The claims of a token signed at a time. */
  function SignedClaims(now: int, expired: int): Claims {
    Claims(Some(WholeSeconds(now + expired)), Some(WholeSeconds(now)), Some(WholeSeconds(now)))
  }

  /** The expiry reported to the caller, in seconds. */
  function ReportedExpiry(now: int, expired: int): int {
    (now + expired) / SECOND
  }

  // ------------------------------------------------------------------- parsing

  predicate InDate(c: Claims, now: int) {
    (c.exp.Some? ==> now < c.exp.value) && (c.nbf.Some? ==> c.nbf.value <= now)
  }

  predicate NotFromFuture(c: Claims, now: int) {
    c.iat.Some? ==> c.iat.value <= now
  }

  /** parseToken */
  function ParseToken(d: Decoded, now: int): Result<Claims> {
    match d
    case Malformed => Err(TokenInvalid)
    case Decoded(verifiable, signatureOk, sameMethod, claims) =>
      if !verifiable then Err(ParseFailed)
      else if !InDate(claims, now) then Err(TokenExpired)
      else if !NotFromFuture(claims, now) || !signatureOk then Err(ParseFailed)
      else if !sameMethod then Err(WrongMethod)
      else Ok(claims)
  }

  /** Which tokens are accepted, and which failure is reported first: an expired
      token is called expired even when its signature is wrong as well. */
  lemma ParseTokenExact(d: Decoded, now: int)
    ensures ParseToken(d, now).Ok? <==>
            && d.Decoded? && d.verifiable && d.signatureOk && d.sameMethod
            && (d.claims.exp.Some? ==> now < d.claims.exp.value)
            && (d.claims.nbf.Some? ==> d.claims.nbf.value <= now)
            && (d.claims.iat.Some? ==> d.claims.iat.value <= now)
    ensures ParseToken(d, now).Ok? ==> ParseToken(d, now).value == d.claims
    ensures ParseToken(d, now) == Err(TokenInvalid) <==> d.Malformed?
    ensures ParseToken(d, now) == Err(TokenExpired) <==>
            && d.Decoded? && d.verifiable
            && ((d.claims.exp.Some? && now >= d.claims.exp.value) || (d.claims.nbf.Some? && d.claims.nbf.value > now))
    ensures ParseToken(d, now) == Err(WrongMethod) ==> d.signatureOk && !d.sameMethod && InDate(d.claims, now)
  {
  }

  /** The three times signed into a token, each cut down to its second. */
  lemma SignedTimes(now: int, expired: int)
    ensures var c := SignedClaims(now, expired);
            && c.exp.Some? && c.nbf.Some? && c.iat.Some? && c.nbf == c.iat
            && c.iat.value % SECOND == 0 && c.iat.value <= now < c.iat.value + SECOND
            && c.exp.value % SECOND == 0 && c.exp.value <= now + expired < c.exp.value + SECOND
            && c.exp.value == ReportedExpiry(now, expired) * SECOND
  {
  }

  /** A signed token is accepted, at any time whatever, exactly from the second it was
      signed in to its reported expiry; before and after it is refused as expired. */
  lemma SignedLifetime(now: int, expired: int, t: int)
    ensures var r := ParseToken(Decoded(true, true, true, SignedClaims(now, expired)), t);
            && (r.Ok? <==> t / SECOND >= now / SECOND && t < ReportedExpiry(now, expired) * SECOND)
            && (r.Err? ==> r.error == TokenExpired)
  {
    SignedTimes(now, expired);
  }

  lemma AcceptedAtOnceExact(expired: int)
    ensures (forall now: int :: ParseToken(Decoded(true, true, true, SignedClaims(now, expired)), now).Ok?) <==>
            expired >= SECOND
  {
    if expired < SECOND {
      SignedLifetime(0, expired, 0);
      assert !ParseToken(Decoded(true, true, true, SignedClaims(0, expired)), 0).Ok?;
    } else {
      forall now: int ensures ParseToken(Decoded(true, true, true, SignedClaims(now, expired)), now).Ok? {
        SignedLifetime(now, expired, now);
      }
    }
  }

  // --------------------------------------------------- the second halves, as values

  datatype Ending = Done | Refused(error: AuthError) | NilDereference

  /** The keys held, each with the time up to which the store was asked to keep it. */
  type Keys = map<string, int>

  /** The end of Destroy, once the token has parsed. */
  function EndDestroy(cfg: Config, raw: string, claims: Claims, now: int, works: bool, keys: Keys): (Ending, Keys) {
    if !cfg.hasStore then (Done, keys)
    else if claims.exp.None? then (NilDereference, keys)
    else
      var ttl := claims.exp.value - now;
      if ttl <= 0 then (Done, keys)
      else if !works then (Refused(StoreFailed), keys)
      else (Done, keys[cfg.hash(raw) := now + ttl])
  }

  /** Destroying a token that was valid at parsedAt, at any later time: whatever the
      delay, an entry that is written lasts to the token's expiry exactly; from the
      expiry on none is written and the call succeeds all the same; and the call
      dies on a nil expiry exactly when the token carries none. */
  lemma DestroyExact(cfg: Config, raw: string, parsedAt: int, storedAt: int, works: bool, keys: Keys)
    requires cfg.hasStore && parsedAt <= storedAt && ParseToken(cfg.decode(raw), parsedAt).Ok?
    ensures var c := ParseToken(cfg.decode(raw), parsedAt).value;
            var (r, ks) := EndDestroy(cfg, raw, c, storedAt, works, keys);
            && (r == NilDereference <==> c.exp.None?)
            && (c.exp.Some? ==> (r == Done <==> works || storedAt >= c.exp.value))
            && (c.exp.Some? ==> ks == if works && ParseToken(cfg.decode(raw), storedAt).Ok?
                                      then keys[cfg.hash(raw) := c.exp.value] else keys)
  {
    ParseTokenExact(cfg.decode(raw), parsedAt);
    ParseTokenExact(cfg.decode(raw), storedAt);
  }

  /** The end of ParseClaims. */
  function EndParse(cfg: Config, raw: string, works: bool, keys: Keys): Ending {
    if !cfg.hasStore then Done
    else if !works then Refused(StoreFailed)
    else if cfg.hash(raw) in keys then Refused(TokenInvalid)
    else Done
  }

  // --------------------------------------------------------------- the authenticator

  class TokenStore {
    var keys: Keys

    constructor ()
      ensures keys == map[]
    {
      keys := map[];
    }

    method Set(key: string, ttl: int, now: int, works: bool) returns (ok: bool)
      modifies this
      ensures ok == works && keys == if works then old(keys)[key := now + ttl] else old(keys)
    {
      if works {
        keys := keys[key := now + ttl];
      }
      return works;
    }

    method Check(key: string, works: bool) returns (ok: bool, found: bool)
      ensures ok == works && (ok ==> found == (key in keys))
    {
      return works, key in keys;
    }
  }

  class JWTAuth {
    const cfg: Config
    const store: TokenStore?

    ghost predicate Valid() {
      cfg.hasStore <==> store != null
    }

    constructor (cfg: Config, store: TokenStore?)
      requires cfg.hasStore <==> store != null
      ensures Valid() && this.cfg == cfg && this.store == store
    {
      this.cfg, this.store := cfg, store;
    }

    ghost function Keys(): Keys
      reads store
    {
      if store == null then map[] else store.keys
    }

    /** Destroy: parse at one time, write the blacklist at a later one. */
    method Destroy(raw: string, parsedAt: int, storedAt: int, works: bool) returns (r: Ending)
      requires Valid() && parsedAt <= storedAt
      modifies store
      ensures match ParseToken(cfg.decode(raw), parsedAt)
              case Err(e) => r == Refused(e) && Keys() == old(Keys())
              case Ok(claims) => (r, Keys()) == EndDestroy(cfg, raw, claims, storedAt, works, old(Keys()))
    {
      var parsed := ParseToken(cfg.decode(raw), parsedAt);
      if parsed.Err? {
        return Refused(parsed.error);
      }
      var tokenHash := cfg.hash(raw);
      if store != null {
        if parsed.value.exp.None? {
          return NilDereference;
        }
        var expired := parsed.value.exp.value - storedAt;
        if expired <= 0 {
          return Done;
        }
        var ok := store.Set(tokenHash, expired, storedAt, works);
        if !ok {
          return Refused(StoreFailed);
        }
      }
      return Done;
    }

    /** ParseClaims: parse at one time, look at the blacklist at a later one. */
    method ParseClaims(raw: string, parsedAt: int, works: bool) returns (r: Ending)
      requires Valid()
      ensures r == if raw == "" then Refused(TokenInvalid)
                   else match ParseToken(cfg.decode(raw), parsedAt)
                        case Err(e) => Refused(e)
                        case Ok(_) => EndParse(cfg, raw, works, Keys())
    {
      if raw == "" {
        return Refused(TokenInvalid);
      }
      var parsed := ParseToken(cfg.decode(raw), parsedAt);
      if parsed.Err? {
        return Refused(parsed.error);
      }
      var tokenHash := cfg.hash(raw);
      if store != null {
        var ok, found := store.Check(tokenHash, works);
        if !ok {
          return Refused(StoreFailed);
        }
        if found {
          return Refused(TokenInvalid);
        }
      }
      return Done;
    }
  }

  // ------------------------------------------------------------------------ runs

  /** An operation between its two halves. */
  datatype Op = Destroying(raw: string, claims: Claims) | Checking(raw: string, claims: Claims)

  /** revoked: the tokens of which some Destroy has ended without an error. */
  datatype State = State(now: int, keys: Keys, ops: map<nat, Op>, revoked: set<string>)

  datatype Event =
    | Tick(d: nat)
    | Evict(key: string)
    | DestroyStart(id: nat, raw: string)
    | DestroyEnd(id: nat, works: bool)
    | ParseStart(id: nat, raw: string)
    | ParseEnd(id: nat, works: bool)

  predicate Enabled(cfg: Config, s: State, e: Event) {
    match e
    case Tick(_) => true
    case Evict(key) => key in s.keys && s.now >= s.keys[key] - cfg.slack
    case DestroyStart(id, raw) => id !in s.ops && ParseToken(cfg.decode(raw), s.now).Ok?
    case DestroyEnd(id, _) => id in s.ops && s.ops[id].Destroying?
    case ParseStart(id, raw) => id !in s.ops && raw != "" && ParseToken(cfg.decode(raw), s.now).Ok?
    case ParseEnd(id, _) => id in s.ops && s.ops[id].Checking?
  }

  function Step(cfg: Config, s: State, e: Event): State
    requires Enabled(cfg, s, e)
  {
    match e
    case Tick(d) => s.(now := s.now + d)
    case Evict(key) => s.(keys := s.keys - {key})
    case DestroyStart(id, raw) => s.(ops := s.ops[id := Destroying(raw, ParseToken(cfg.decode(raw), s.now).value)])
    case DestroyEnd(id, works) =>
      var op := s.ops[id];
      var (r, keys) := EndDestroy(cfg, op.raw, op.claims, s.now, works, s.keys);
      s.(ops := s.ops - {id}, keys := keys, revoked := if r == Done then s.revoked + {op.raw} else s.revoked)
    case ParseStart(id, raw) => s.(ops := s.ops[id := Checking(raw, ParseToken(cfg.decode(raw), s.now).value)])
    case ParseEnd(id, works) => s.(ops := s.ops - {id})
  }

  predicate IsRun(cfg: Config, s: State, es: seq<Event>)
    decreases |es|
  {
    es == [] || (Enabled(cfg, s, es[0]) && IsRun(cfg, Step(cfg, s, es[0]), es[1..]))
  }

  function After(cfg: Config, s: State, es: seq<Event>): State
    requires IsRun(cfg, s, es)
    decreases |es|
  {
    if es == [] then s else After(cfg, Step(cfg, s, es[0]), es[1..])
  }

  function Initial(now: int): State {
    State(now, map[], map[], {})
  }

  /** No two of these tokens have the same hash. */
  predicate InjectiveOn(f: string -> string, tokens: set<string>) {
    forall a, b | a in tokens && b in tokens && f(a) == f(b) :: a == b
  }

  function ClaimsOf(cfg: Config, raw: string): Claims
    requires cfg.decode(raw).Decoded?
  {
    cfg.decode(raw).claims
  }

  /** The blacklist still blocks a token, or its time is up to the store's slack. */
  predicate Blocked(cfg: Config, s: State, raw: string) {
    && cfg.decode(raw).Decoded? && ClaimsOf(cfg, raw).exp.Some?
    && var exp := ClaimsOf(cfg, raw).exp.value;
       (cfg.hash(raw) in s.keys && s.keys[cfg.hash(raw)] >= exp) || s.now >= exp - cfg.slack
  }

  /** Operations carry their token's claims, every revoked token is blocked, and
      every key is there because its token was revoked. */
  ghost predicate Inv(cfg: Config, s: State) {
    && (forall id | id in s.ops :: cfg.decode(s.ops[id].raw).Decoded? && s.ops[id].claims == ClaimsOf(cfg, s.ops[id].raw))
    && (forall raw | raw in s.revoked :: Blocked(cfg, s, raw))
    && (forall key | key in s.keys :: IsRevokedKey(cfg, s, key))
  }

  ghost predicate IsRevokedKey(cfg: Config, s: State, key: string) {
    exists raw | raw in s.revoked :: cfg.hash(raw) == key
  }

  lemma DestroyEndKeepsInv(cfg: Config, s: State, id: nat, works: bool)
    requires cfg.hasStore && Inv(cfg, s) && Enabled(cfg, s, DestroyEnd(id, works))
    requires InjectiveOn(cfg.hash, Step(cfg, s, DestroyEnd(id, works)).revoked)
    ensures Inv(cfg, Step(cfg, s, DestroyEnd(id, works)))
  {
    var op, t := s.ops[id], Step(cfg, s, DestroyEnd(id, works));
    forall raw | raw in t.revoked ensures Blocked(cfg, t, raw) {
      if raw in s.revoked {
        assert Blocked(cfg, s, raw);
      }
    }
    forall key | key in t.keys ensures IsRevokedKey(cfg, t, key) {
      if key in s.keys {
        assert IsRevokedKey(cfg, s, key);
        var raw :| raw in s.revoked && cfg.hash(raw) == key;
        assert raw in t.revoked;
      } else {
        assert op.raw in t.revoked;
      }
    }
  }

  lemma StepKeepsInv(cfg: Config, s: State, e: Event)
    requires cfg.hasStore && Inv(cfg, s) && Enabled(cfg, s, e)
    requires InjectiveOn(cfg.hash, Step(cfg, s, e).revoked)
    ensures Inv(cfg, Step(cfg, s, e))
  {
    if e.DestroyEnd? {
      DestroyEndKeepsInv(cfg, s, e.id, e.works);
    } else {
      var t := Step(cfg, s, e);
      assert t.revoked == s.revoked;
      forall raw | raw in t.revoked ensures Blocked(cfg, t, raw) {
        assert Blocked(cfg, s, raw);
      }
      forall key | key in t.keys ensures IsRevokedKey(cfg, t, key) {
        assert IsRevokedKey(cfg, s, key);
      }
    }
  }

  lemma {:induction false} RunKeepsInv(cfg: Config, s: State, es: seq<Event>)
    requires cfg.hasStore && Inv(cfg, s) && IsRun(cfg, s, es)
    requires InjectiveOn(cfg.hash, After(cfg, s, es).revoked)
    ensures Inv(cfg, After(cfg, s, es))
    decreases |es|
  {
    if es != [] {
      RevokedForGood(cfg, Step(cfg, s, es[0]), es[1..]);
      StepKeepsInv(cfg, s, es[0]);
      RunKeepsInv(cfg, Step(cfg, s, es[0]), es[1..]);
    }
  }

  lemma {:induction false} RevokedForGood(cfg: Config, s: State, es: seq<Event>)
    requires IsRun(cfg, s, es)
    ensures s.revoked <= After(cfg, s, es).revoked && s.now <= After(cfg, s, es).now
    decreases |es|
  {
    if es != [] {
      RevokedForGood(cfg, Step(cfg, s, es[0]), es[1..]);
    }
  }

  lemma {:induction false} SplitRun(cfg: Config, s: State, first: seq<Event>, rest: seq<Event>)
    requires IsRun(cfg, s, first + rest)
    ensures IsRun(cfg, s, first) && IsRun(cfg, After(cfg, s, first), rest)
    ensures After(cfg, s, first + rest) == After(cfg, After(cfg, s, first), rest)
    decreases |first|
  {
    if first == [] {
      assert first + rest == rest;
    } else {
      assert (first + rest)[1..] == first[1..] + rest;
      SplitRun(cfg, Step(cfg, s, first[0]), first[1..], rest);
    }
  }

  /** Once a Destroy of a token has ended without an error, then in every further
      course of events a ParseClaims of that token that gets past the blacklist
      does so only at its expiry, give or take the store's slack; with an exact
      store it therefore fails unless time passed between its two halves. Only the
      destroyed tokens' own hashes have to differ. */
  lemma DestroyedStaysDestroyed(cfg: Config, start: int, first: seq<Event>, rest: seq<Event>, raw: string, works: bool)
    requires cfg.hasStore && IsRun(cfg, Initial(start), first + rest)
    requires InjectiveOn(cfg.hash, After(cfg, Initial(start), first + rest).revoked)
    requires IsRun(cfg, Initial(start), first) && raw in After(cfg, Initial(start), first).revoked
    ensures var s := After(cfg, Initial(start), first + rest);
            && cfg.decode(raw).Decoded? && ClaimsOf(cfg, raw).exp.Some?
            && (EndParse(cfg, raw, works, s.keys) == Done ==> s.now >= ClaimsOf(cfg, raw).exp.value - cfg.slack)
            && (cfg.slack == 0 && ParseToken(cfg.decode(raw), s.now).Ok? ==> EndParse(cfg, raw, works, s.keys) != Done)
  {
    SplitRun(cfg, Initial(start), first, rest);
    RevokedForGood(cfg, After(cfg, Initial(start), first), rest);
    RunKeepsInv(cfg, Initial(start), first + rest);
    assert Blocked(cfg, After(cfg, Initial(start), first + rest), raw);
  }

  /** Before its expiry, less the slack, a token is refused by a working blacklist
      exactly when it was destroyed: no other token is ever refused for it. */
  lemma BlacklistExact(cfg: Config, start: int, es: seq<Event>, raw: string)
    requires cfg.hasStore && IsRun(cfg, Initial(start), es)
    requires InjectiveOn(cfg.hash, After(cfg, Initial(start), es).revoked + {raw})
    requires cfg.decode(raw).Decoded? && ClaimsOf(cfg, raw).exp.Some?
    requires After(cfg, Initial(start), es).now < ClaimsOf(cfg, raw).exp.value - cfg.slack
    ensures var s := After(cfg, Initial(start), es);
            EndParse(cfg, raw, true, s.keys) == Refused(TokenInvalid) <==> raw in s.revoked
  {
    var s := After(cfg, Initial(start), es);
    RunKeepsInv(cfg, Initial(start), es);
    if raw in s.revoked {
      assert Blocked(cfg, s, raw);
    }
    if cfg.hash(raw) in s.keys {
      assert IsRevokedKey(cfg, s, cfg.hash(raw));
    }
  }

  /** Destroying has an effect exactly when a store is configured: without one,
      Destroy reports success and the token goes on being accepted. */
  lemma DestroyNeedsStore(cfg: Config, now: int, raw: string)
    requires ParseToken(cfg.decode(raw), now).Ok?
    requires ClaimsOf(cfg, raw).exp.Some?
    ensures var es := [DestroyStart(0, raw), DestroyEnd(0, true)];
            && IsRun(cfg, Initial(now), es)
            && raw in After(cfg, Initial(now), es).revoked
            && (EndParse(cfg, raw, true, After(cfg, Initial(now), es).keys) == Done <==> !cfg.hasStore)
  {
    var e0, e1 := DestroyStart(0, raw), DestroyEnd(0, true);
    var es := [e0, e1];
    assert es[1..] == [e1] && [e1][1..] == [];
    var s := Step(cfg, Initial(now), e0);
    assert Enabled(cfg, s, e1);
    assert IsRun(cfg, s, [e1]);
    var t := Step(cfg, s, e1);
    assert IsRun(cfg, t, []) && After(cfg, t, []) == t;
    assert After(cfg, s, [e1]) == After(cfg, t, [e1][1..]) == t;
    assert es[0] == e0 && After(cfg, Initial(now), es) == After(cfg, s, es[1..]) == t;
  }
}
