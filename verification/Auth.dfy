/** The bearer-token table of internal/auth/auth.go. Random tokens and clock readings are
    parameters; the background cleanup is a step that may happen at any moment. */
module Auth {
  import opened Common

  const TOKEN_LIFETIME: int := 24 * 60 * 60 * 1_000_000_000

  // The two maps of the authenticator.
  datatype Tokens = Tokens(users: map<string, string>, expires: map<string, int>)

  function Issue(t: Tokens, token: string, user: string, expiry: int): Tokens {
    Tokens(t.users[token := user], t.expires[token := expiry])
  }

  function Drop(t: Tokens, token: string): Tokens {
    Tokens(t.users - {token}, t.expires - {token})
  }

  // What cleanExpired leaves: an expired entry goes from both maps.
  function Clean(t: Tokens, now: int): Tokens {
    var gone := set token | token in t.expires && now > t.expires[token];
    Tokens(t.users - gone, t.expires - gone)
  }

  function Check(t: Tokens, token: string, now: int): Option<string> {
    if token !in t.users then None
    else if token in t.expires && now > t.expires[token] then None
    else Some(t.users[token])
  }

  class Authenticator {
    var tokens: map<string, string>
    var expires: map<string, int>

    ghost function State(): Tokens
      reads this
    {
      Tokens(tokens, expires)
    }

    constructor ()
      ensures State() == Tokens(map[], map[])
    {
      tokens := map[];
      expires := map[];
    }

    // `random` is the token drawn from the random source, if that did not fail; `now` the clock
    // read before the lock is taken.
    method Register(userID: string, random: Option<string>, now: int) returns (r: Result<(string, int)>)
      modifies this
      ensures userID == "" ==> r == Err(InvalidInput)
      ensures userID != "" && random.None? ==> r == Err(SourceFailed)
      ensures userID != "" && random.Some? ==> r == Ok((random.value, now + TOKEN_LIFETIME))
      ensures r.Ok? ==> r.value.1 == now + 86_400_000_000_000
      ensures State() == if r.Ok? then Issue(old(State()), r.value.0, userID, r.value.1) else old(State())
    {
      if userID == "" {
        return Err(InvalidInput);
      }
      if random.None? {
        return Err(SourceFailed);
      }
      var token := random.value;
      var expiresAt := now + TOKEN_LIFETIME;
      tokens := tokens[token := userID];
      expires := expires[token := expiresAt];
      return Ok((token, expiresAt));
    }

    method Validate(token: string, now: int) returns (r: Option<string>)
      ensures r == Check(State(), token, now)
    {
      if token !in tokens {
        return None;
      }
      if token in expires && now > expires[token] {
        return None;
      }
      return Some(tokens[token]);
    }

    method Revoke(token: string) returns (r: Status)
      modifies this
      ensures token in old(tokens) ==> r == Done && State() == Drop(old(State()), token)
      ensures token !in old(tokens) ==> r == Failed(NotFound) && State() == old(State())
    {
      if token !in tokens {
        return Failed(NotFound);
      }
      tokens := tokens - {token};
      expires := expires - {token};
      return Done;
    }

    // Visits the entries in an arbitrary order, deleting as it goes.
    method CleanExpired(now: int)
      modifies this
      ensures State() == Clean(old(State()), now)
    {
      var rest := expires.Keys;
      ghost var seen: set<string> := {};
      while rest != {}
        invariant rest + seen == old(expires).Keys && rest !! seen
        invariant var gone := set token | token in seen && now > old(expires)[token];
                  tokens == old(tokens) - gone && expires == old(expires) - gone
        decreases rest
      {
        var token :| token in rest;
        if now > expires[token] {
          tokens := tokens - {token};
          expires := expires - {token};
        }
        rest := rest - {token};
        seen := seen + {token};
      }
      assert seen == old(expires).Keys;
    }
  }

  // ---- Whole runs ----

  datatype Event =
    | Registered(token: string, user: string, expiry: int)
    | Revoked(token: string)
    | Cleaned(at: int)
    | Validated(token: string, at: int)

  function Apply(t: Tokens, e: Event): Tokens {
    match e
    case Registered(token, user, expiry) => Issue(t, token, user, expiry)
    case Revoked(token) => if token in t.users then Drop(t, token) else t
    case Cleaned(at) => Clean(t, at)
    case Validated(_, _) => t
  }

  function Run(events: seq<Event>): Tokens {
    if events == [] then Tokens(map[], map[])
    else Apply(Run(events[..|events| - 1]), events[|events| - 1])
  }

  // No clock reading in the run is later than `now`.
  ghost predicate ReadBy(events: seq<Event>, now: int) {
    forall i :: 0 <= i < |events| ==> (events[i].Cleaned? ==> events[i].at <= now)
  }

  // The user a token was last issued to and its expiry, unless revoked since.
  function LastIssue(events: seq<Event>, token: string): Option<(string, int)> {
    if events == [] then None
    else
      var before := LastIssue(events[..|events| - 1], token);
      match events[|events| - 1]
      case Registered(t, user, expiry) => if t == token then Some((user, expiry)) else before
      case Revoked(t) => if t == token then None else before
      case _ => before
  }

  function Expected(issue: Option<(string, int)>, now: int): Option<string> {
    match issue
    case None => None
    case Some((user, expiry)) => if now > expiry then None else Some(user)
  }

  /** Both maps always hold the same tokens. */
  lemma {:induction false} DomainsAgree(events: seq<Event>)
    ensures Run(events).users.Keys == Run(events).expires.Keys
  {
    if events != [] {
      DomainsAgree(events[..|events| - 1]);
    }
  }

  // A token is held exactly as last issued; it may be gone only once it has expired.
  lemma {:induction false} HeldAsIssued(events: seq<Event>, token: string, now: int)
    requires ReadBy(events, now)
    ensures var t := Run(events);
            token in t.users
            ==> token in t.expires && LastIssue(events, token) == Some((t.users[token], t.expires[token]))
    ensures token !in Run(events).users ==> Expected(LastIssue(events, token), now) == None
  {
    if events != [] {
      var init := events[..|events| - 1];
      assert ReadBy(init, now);
      HeldAsIssued(init, token, now);
      DomainsAgree(init);
    }
  }

  /** Validate succeeds exactly for a token that was registered, was not revoked since and
      is not past its expiry, and returns the user it was last issued to; cleanups may have
      happened at any earlier moments. */
  lemma {:induction false} ValidateExact(events: seq<Event>, token: string, now: int)
    requires ReadBy(events, now)
    ensures Check(Run(events), token, now) == Expected(LastIssue(events, token), now)
  {
    HeldAsIssued(events, token, now);
  }

  lemma {:induction false} LastIssueStays(events: seq<Event>, later: seq<Event>, token: string)
    requires forall e :: e in later ==> (e.Registered? || e.Revoked?) ==> e.token != token
    ensures LastIssue(events + later, token) == LastIssue(events, token)
  {
    if later == [] {
      assert events + later == events;
    } else {
      var init, e := later[..|later| - 1], later[|later| - 1];
      assert e in later && forall x :: x in init ==> x in later;
      assert (events + later)[..|events + later| - 1] == events + init;
      LastIssueStays(events, init, token);
    }
  }

  /** A token lives for 24 hours, to the nanosecond: whatever happens in between but a
      revocation or a new issue of the same token, Validate returns its user up to the last
      nanosecond of them, and no one from the next on. */
  lemma TokenLives(before: seq<Event>, token: string, user: string, at: int, later: seq<Event>, now: int)
    requires forall e :: e in later ==> (e.Registered? || e.Revoked?) ==> e.token != token
    requires ReadBy(before + [Registered(token, user, at + TOKEN_LIFETIME)] + later, now)
    ensures Check(Run(before + [Registered(token, user, at + TOKEN_LIFETIME)] + later), token, now)
         == if now <= at + 86_400_000_000_000 then Some(user) else None
  {
    var issued := before + [Registered(token, user, at + TOKEN_LIFETIME)];
    assert issued[..|before|] == before;
    LastIssueStays(issued, later, token);
    ValidateExact(issued + later, token, now);
  }

  // The run without its cleanups.
  function WithoutCleanups(events: seq<Event>): seq<Event> {
    if events == [] then []
    else
      var e := events[|events| - 1];
      WithoutCleanups(events[..|events| - 1]) + (if e.Cleaned? then [] else [e])
  }

  lemma {:induction false} LastIssueIgnoresCleanups(events: seq<Event>, token: string)
    ensures LastIssue(WithoutCleanups(events), token) == LastIssue(events, token)
    ensures forall e :: e in WithoutCleanups(events) ==> !e.Cleaned?
  {
    if events != [] {
      var init, e := WithoutCleanups(events[..|events| - 1]), events[|events| - 1];
      LastIssueIgnoresCleanups(events[..|events| - 1], token);
      assert (init + [e])[..|init|] == init && init + [] == init;
      assert WithoutCleanups(events) == if e.Cleaned? then init else init + [e];
    }
  }

  // Every Validate answer of the run, in order.
  function Answers(events: seq<Event>): seq<Option<string>> {
    if events == [] then []
    else
      var init, e := events[..|events| - 1], events[|events| - 1];
      Answers(init) + (if e.Validated? then [Check(Run(init), e.token, e.at)] else [])
  }

  // Clock readings never go back.
  ghost predicate ClockNondecreasing(events: seq<Event>) {
    forall i, j :: 0 <= i < j < |events| && events[i].Cleaned? && events[j].Validated?
      ==> events[i].at <= events[j].at
  }

  /** Cleanup is unobservable: removing every cleanup from a run, wherever it happened,
      leaves every answer of Validate as it was. */
  lemma {:induction false} CleanupUnobservable(events: seq<Event>)
    requires ClockNondecreasing(events)
    ensures Answers(WithoutCleanups(events)) == Answers(events)
  {
    if events != [] {
      var init, e := events[..|events| - 1], events[|events| - 1];
      var bare := WithoutCleanups(init);
      CleanupUnobservable(init);
      assert (bare + [e])[..|bare|] == bare && bare + [] == bare;
      assert WithoutCleanups(events) == if e.Cleaned? then bare else bare + [e];
      assert ClockNondecreasing(init);
      assert Answers(bare + [e]) == Answers(bare) + (if e.Validated? then [Check(Run(bare), e.token, e.at)] else []);
      if e.Validated? {
        assert events[|events| - 1].Validated?;
        assert ReadBy(init, e.at);
        LastIssueIgnoresCleanups(init, e.token);
        ValidateExact(init, e.token, e.at);
        ValidateExact(bare, e.token, e.at);
      }
    }
  }

  // What Revoke answers.
  function RevokeAnswer(t: Tokens, token: string): Status {
    if token in t.users then Done else Failed(NotFound)
  }

  // Since the token's last issue, a cleanup read a clock past its expiry.
  function CleanedSince(events: seq<Event>, token: string): bool {
    if events == [] then false
    else
      var init, e := events[..|events| - 1], events[|events| - 1];
      match e
      case Registered(t, _, _) => t != token && CleanedSince(init, token)
      case Revoked(t) => t != token && CleanedSince(init, token)
      case Cleaned(at) =>
        CleanedSince(init, token) || (LastIssue(init, token).Some? && at > LastIssue(init, token).value.1)
      case Validated(_, _) => CleanedSince(init, token)
  }

  /** A token is held exactly while it is issued and not cleaned away since. */
  lemma {:induction false} HeldExactly(events: seq<Event>, token: string)
    ensures var t := Run(events);
            token in t.users <==> LastIssue(events, token).Some? && !CleanedSince(events, token)
    ensures var t := Run(events);
            token in t.users ==> token in t.expires && LastIssue(events, token).value.1 == t.expires[token]
  {
    if events != [] {
      HeldExactly(events[..|events| - 1], token);
      DomainsAgree(events[..|events| - 1]);
    }
  }

  /** Revoke's answer is the one thing a cleanup can change: with and without the cleanups of
      a run it is the same if and only if the token is not both issued and cleaned away since. */
  lemma RevokeAlikeIff(events: seq<Event>, token: string)
    ensures RevokeAnswer(Run(events), token) == RevokeAnswer(Run(WithoutCleanups(events)), token)
       <==> !(LastIssue(events, token).Some? && CleanedSince(events, token))
  {
    HeldExactly(events, token);
    LastIssueIgnoresCleanups(events, token);
    KeptUntilRevoked(WithoutCleanups(events), token);
  }

  /** And where it differs, Revoke misses a token whose expiry has passed. */
  lemma RevokeAfterCleanup(events: seq<Event>, token: string, now: int)
    requires ReadBy(events, now)
    ensures token in Run(events).users ==> token in Run(WithoutCleanups(events)).users
    ensures token in Run(WithoutCleanups(events)).users && token !in Run(events).users
            ==> var bare := Run(WithoutCleanups(events)); token in bare.expires && now > bare.expires[token]
  {
    LastIssueIgnoresCleanups(events, token);
    HeldAsIssued(events, token, now);
    KeptUntilRevoked(WithoutCleanups(events), token);
  }

  // Without cleanups a token stays until it is revoked.
  lemma {:induction false} KeptUntilRevoked(events: seq<Event>, token: string)
    requires forall e :: e in events ==> !e.Cleaned?
    ensures var t := Run(events);
            if token in t.users
            then token in t.expires && LastIssue(events, token) == Some((t.users[token], t.expires[token]))
            else LastIssue(events, token) == None
  {
    if events != [] {
      KeptUntilRevoked(events[..|events| - 1], token);
      DomainsAgree(events[..|events| - 1]);
    }
  }

  /** The smallest such run: a token that has expired can be revoked before a cleanup but
      not after one. */
  lemma RevokeSeesCleanup()
    ensures var run := [Registered("k", "u", 5)];
            "k" in Run(run).users && "k" !in Run(run + [Cleaned(6)]).users
  {
    var run := [Registered("k", "u", 5)];
    assert run[..0] == [];
    assert (run + [Cleaned(6)])[..1] == run;
    assert Run(run).users == map["k" := "u"];
  }
}
