/** The store of authorization codes in flight (src/oauth/auth_codes_inner.rs and
    src/oauth/auth_codes.rs). */
module AuthCodes {
  import opened Prelude

  const AUTH_CODE_TTL_SEC := 300
  const MAX_CODES := 256

  /** What was agreed when the consent was given, held until the code is exchanged. */
  datatype AuthCode = AuthCode(
    redirectUri: string, codeChallenge: string, scope: string, resource: Option<string>, expiresAt: int)

  type Store = map<string, AuthCode>

  function Live(store: Store, now: int): (r: Store)
  {
    map c | c in store && store[c].expiresAt > now :: store[c]
  }

  ghost predicate IsOldest(store: Store, code: string)
  {
    code in store && forall c :: c in store ==> store[code].expiresAt <= store[c].expiresAt
  }

  /** Which code a full store gives up is left to the hash map among the oldest ones. */
  ghost predicate ValidVictim(store: Store, now: int, victim: string)
  {
    |Live(store, now)| >= MAX_CODES ==> IsOldest(Live(store, now), victim)
  }

  function Add(store: Store, now: int, victim: string, code: string, issued: AuthCode): (r: Store)
  {
    var live := Live(store, now);
    (if |live| >= MAX_CODES then live - {victim} else live)[code := issued]
  }

  function Take(store: Store, now: int, code: string): (r: (Store, Option<AuthCode>))
  {
    var live := Live(store, now);
    (live - {code}, if code in live then Some(live[code]) else None)
  }

  class AuthCodesInner {
    var codes: Store

    constructor ()
      ensures codes == map[]
    {
      codes := map[];
    }

    method RemoveExpired(now: int)
      modifies this
      ensures codes == Live(old(codes), now)
      ensures forall later, c :: now <= later ==> Take(codes, later, c) == Take(old(codes), later, c)
    {
      codes := map c | c in codes && codes[c].expiresAt > now :: codes[c];
      forall later, c | now <= later ensures Take(codes, later, c) == Take(old(codes), later, c) {
        RemovalIsInvisible(old(codes), now, later, c);
      }
    }

    /** Some code that expires first, found by one pass over the entries. */
    method OldestCode() returns (oldest: Option<string>)
      ensures oldest.None? <==> codes == map[]
      ensures oldest.Some? ==> IsOldest(codes, oldest.value)
    {
      oldest := None;
      var left := codes.Keys;
      while left != {}
        invariant left <= codes.Keys
        invariant oldest.None? ==> left == codes.Keys
        invariant oldest.Some? ==> oldest.value in codes
        invariant oldest.Some? ==> forall c :: c in codes && c !in left ==> codes[oldest.value].expiresAt <= codes[c].expiresAt
        decreases |left|
      {
        var c :| c in left;
        if oldest.None? || codes[c].expiresAt < codes[oldest.value].expiresAt {
          oldest := Some(c);
        }
        left := left - {c};
      }
    }

    method Issue(now: int, code: string, issued: AuthCode) returns (ghost victim: string)
      modifies this
      ensures ValidVictim(old(codes), now, victim)
      ensures codes == Add(old(codes), now, victim, code, issued)
    {
      RemoveExpired(now);
      victim := "";
      if |codes| >= MAX_CODES {
        var oldest := OldestCode();
        if oldest.Some? {
          victim := oldest.value;
          codes := codes - {oldest.value};
        }
      }
      codes := codes[code := issued];
    }

    method Redeem(now: int, code: string) returns (issued: Option<AuthCode>)
      modifies this
      ensures (codes, issued) == Take(old(codes), now, code)
    {
      RemoveExpired(now);
      if code !in codes {
        assert codes - {code} == codes;
        return None;
      }
      var found := codes[code];
      codes := codes - {code};
      if found.expiresAt <= now { return None; }
      issued := Some(found);
    }
  }

  /** Removing the expired codes changes nothing about any later redemption or addition. */
  lemma {:induction false} RemovalIsInvisible(store: Store, now: int, later: int, code: string)
    requires now <= later
    ensures Take(Live(store, now), later, code) == Take(store, later, code)
    ensures forall victim, issued :: Add(Live(store, now), later, victim, code, issued) == Add(store, later, victim, code, issued)
  {
    assert Live(Live(store, now), later) == Live(store, later);
  }

  lemma LiveNotLarger(store: Store, now: int)
    ensures |Live(store, now)| <= |store|
  {
    assert Live(store, now).Keys <= store.Keys;
    SubsetSize(Live(store, now).Keys, store.Keys);
  }

  lemma {:induction false} SubsetSize<T>(a: set<T>, b: set<T>)
    requires a <= b
    ensures |a| <= |b|
  {
    if a != {} {
      var x :| x in a;
      SubsetSize(a - {x}, b - {x});
    }
  }

  lemma RemovedIsSmaller(store: Store, victim: string)
    requires victim in store
    ensures |store - {victim}| == |store| - 1
  {
    assert (store - {victim}).Keys == store.Keys - {victim};
  }

  lemma PutAddsOne(store: Store, code: string, issued: AuthCode)
    ensures |store[code := issued]| <= |store| + 1
  {
    assert store[code := issued].Keys == store.Keys + {code};
  }

  /** The store never outgrows its bound. */
  lemma AddStaysBounded(store: Store, now: int, victim: string, code: string, issued: AuthCode)
    requires |store| <= MAX_CODES && ValidVictim(store, now, victim)
    ensures |Add(store, now, victim, code, issued)| <= MAX_CODES
  {
    LiveNotLarger(store, now);
    var live := Live(store, now);
    if |live| >= MAX_CODES {
      RemovedIsSmaller(live, victim);
      PutAddsOne(live - {victim}, code, issued);
    } else {
      PutAddsOne(live, code, issued);
    }
  }

  lemma TakeStaysBounded(store: Store, now: int, code: string)
    ensures |Take(store, now, code).0| <= |store|
  {
    assert Take(store, now, code).0.Keys <= store.Keys;
    SubsetSize(Take(store, now, code).0.Keys, store.Keys);
  }

  /** The codes, other than `c`, held by the store that expire no sooner than `c`. */
  ghost function NoSooner(store: Store, c: string): (r: set<string>)
    requires c in store
  {
    set d | d in store && d != c && store[d].expiresAt >= store[c].expiresAt
  }

  /** A live code that an insertion drops was the first to expire of a full store. */
  lemma DroppedOnlyWhenFull(store: Store, now: int, victim: string, code: string, issued: AuthCode, c: string)
    requires ValidVictim(store, now, victim)
    requires c in Live(store, now) && c !in Add(store, now, victim, code, issued)
    ensures |NoSooner(Live(store, now), c)| >= MAX_CODES - 1
  {
    var live := Live(store, now);
    assert c == victim && |live| >= MAX_CODES;
    assert NoSooner(live, c) == live.Keys - {c};
  }
}
