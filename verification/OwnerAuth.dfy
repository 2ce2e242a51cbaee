/** The owner's token cache: a token from a challenge-and-verify handshake, served again while more
    than thirty seconds of it are left.
 */
module OwnerAuth {
  import opened Text

  datatype AuthError = RequestFailed | NoChallenge | NoToken

  datatype ChallengeReply = ChallengeFailed | Challenge(success: bool, text: string)

  datatype VerifyReply = VerifyFailed | Token(success: bool, accessToken: string, expiresIn: int)

  /** Both replies of one handshake. */
  datatype Replies = Replies(challenge: ChallengeReply, verify: VerifyReply)

  datatype Cache = Cache(token: Option<string>, expiresAt: real)

  const EMPTY := Cache(None, 0.0)

  function Max0(x: real): real { if x < 0.0 then 0.0 else x }

  predicate ServesCached(c: Cache, force: bool, now: real) {
    !force && c.token.Some? && now < Max0(c.expiresAt - 30.0)
  }

  function HandshakeError(r: Replies): Option<AuthError> {
    if r.challenge.ChallengeFailed? then Some(RequestFailed)
    else if !r.challenge.success || r.challenge.text == "" then Some(NoChallenge)
    else if r.verify.VerifyFailed? then Some(RequestFailed)
    else if !r.verify.success || r.verify.accessToken == "" then Some(NoToken)
    else None
  }

  /** The lifetime the gateway gives a token. */
  function Lifetime(r: Replies): real
    requires r.verify.Token?
  {
    Max0(r.verify.expiresIn as real)
  }

  function AfterAuthenticate(c: Cache, force: bool, now: real, r: Replies): Cache {
    if ServesCached(c, force, now) || HandshakeError(r).Some? then c
    else Cache(Some(r.verify.accessToken), now + Lifetime(r))
  }

  function AuthenticateResult(c: Cache, force: bool, now: real, r: Replies): Result<string, AuthError> {
    if ServesCached(c, force, now) then Ok(c.token.value)
    else match HandshakeError(r)
      case Some(e) => Err(e)
      case None => Ok(r.verify.accessToken)
  }

  /** One call on the owner's object: at `now`, with the replies its handshake would get. The
      gateway counts a token's lifetime from `issuedAt`. */
  datatype Op =
    | GetToken(force: bool, now: real, replies: Replies, issuedAt: real)
    | Logout(now: real, replies: Replies, issuedAt: real, accepted: bool)

  function Forced(op: Op): bool { op.GetToken? && op.force }

  predicate LogsOut(c: Cache, op: Op) {
    op.Logout? && op.accepted && AuthenticateResult(c, false, op.now, op.replies).Ok?
  }

  function After(c: Cache, op: Op): Cache {
    if LogsOut(c, op) then EMPTY else AfterAuthenticate(c, Forced(op), op.now, op.replies)
  }

  class SynapseAuth {
    var token: Option<string>
    var tokenExpiresAt: real

    constructor ()
      ensures State() == EMPTY
    {
      token, tokenExpiresAt := None, 0.0;
    }

    ghost function State(): Cache
      reads this
    {
      Cache(token, tokenExpiresAt)
    }

    method Authenticate(forceRefresh: bool, now: real, replies: Replies) returns (r: Result<string, AuthError>)
      modifies this
      ensures State() == AfterAuthenticate(old(State()), forceRefresh, now, replies)
      ensures r == AuthenticateResult(old(State()), forceRefresh, now, replies)
      ensures State() == After(old(State()), GetToken(forceRefresh, now, replies, now))
      ensures r.Err? ==> State() == old(State())
    {
      if !forceRefresh && token.Some? && now < Max0(tokenExpiresAt - 30.0) {
        return Ok(token.value);
      }
      if replies.challenge.ChallengeFailed? {
        return Err(RequestFailed);
      }
      if !replies.challenge.success || replies.challenge.text == "" {
        return Err(NoChallenge);
      }
      if replies.verify.VerifyFailed? {
        return Err(RequestFailed);
      }
      if !replies.verify.success || replies.verify.accessToken == "" {
        return Err(NoToken);
      }
      token := Some(replies.verify.accessToken);
      tokenExpiresAt := now + Max0(replies.verify.expiresIn as real);
      r := Ok(replies.verify.accessToken);
    }

    /** Authorises with a token, fetched if need be, and forgets it only if the gateway accepts. */
    method Logout(now: real, replies: Replies, accepted: bool) returns (r: Result<(), AuthError>)
      modifies this
      ensures r.Ok? <==> accepted && AuthenticateResult(old(State()), false, now, replies).Ok?
      ensures State() == if r.Ok? then EMPTY else AfterAuthenticate(old(State()), false, now, replies)
      ensures State() == After(old(State()), Op.Logout(now, replies, now, accepted))
    {
      var auth := Authenticate(false, now, replies);
      if auth.Err? {
        return Err(auth.error);
      }
      if !accepted {
        return Err(RequestFailed);
      }
      token, tokenExpiresAt := None, 0.0;
      r := Ok(());
    }
  }

  // ----- one call -----

  /** A handshake succeeds with exactly these replies. */
  lemma HandshakeExactly(r: Replies)
    ensures HandshakeError(r).None? <==>
      && r.challenge.Challenge? && r.challenge.success && |r.challenge.text| > 0
      && r.verify.Token? && r.verify.success && |r.verify.accessToken| > 0
    ensures HandshakeError(r) == Some(NoChallenge) <==>
      r.challenge.Challenge? && !(r.challenge.success && |r.challenge.text| > 0)
    ensures HandshakeError(r) == Some(NoToken) ==> r.verify.Token?
  {
  }

  /** The token that a call returns is the one in the cache behind it; a call fails exactly when it
      needs a handshake and that fails, and then leaves the cache alone. */
  lemma ReturnedIsCached(c: Cache, force: bool, now: real, r: Replies)
    ensures var result, after := AuthenticateResult(c, force, now, r), AfterAuthenticate(c, force, now, r);
      && (result.Ok? ==> after.token == Some(result.value))
      && (result.Err? <==> !ServesCached(c, force, now) && HandshakeError(r).Some?)
      && (result.Err? ==> after == c && HandshakeError(r) == Some(result.error))
  {
  }

  // ----- runs -----

  function CacheAfter(ops: seq<Op>): Cache {
    if ops == [] then EMPTY else After(CacheAfter(ops[..|ops| - 1]), ops[|ops| - 1])
  }

  predicate Serves(ops: seq<Op>, i: nat)
    requires i < |ops|
  {
    ServesCached(CacheAfter(ops[..i]), Forced(ops[i]), ops[i].now)
  }

  /** Call `j` made a handshake whose token it left in the cache. */
  predicate Leaves(ops: seq<Op>, j: nat)
    requires j < |ops|
  {
    && !Serves(ops, j) && HandshakeError(ops[j].replies).None?
    && !LogsOut(CacheAfter(ops[..j]), ops[j])
  }

  /** Time is counted from an epoch in the past and does not run backwards, and a gateway issues a
      token after the handshake began. */
  ghost predicate Clocked(ops: seq<Op>) {
    && (forall i, j :: 0 <= i <= j < |ops| ==> ops[i].now <= ops[j].now)
    && (forall i :: 0 <= i < |ops| ==> 0.0 <= ops[i].now <= ops[i].issuedAt)
  }

  /** Between calls `j` and `i` the cache was neither refilled nor cleared. */
  ghost predicate Untouched(ops: seq<Op>, j: nat, i: nat)
    requires i <= |ops|
  {
    forall k: nat :: j < k < i ==> !Leaves(ops, k) && !LogsOut(CacheAfter(ops[..k]), ops[k])
  }

  /** The token in the cache after `i` calls is the one that call `j` left there. */
  ghost predicate From(ops: seq<Op>, j: nat, i: nat)
    requires i <= |ops|
  {
    && j < i && Leaves(ops, j) && Untouched(ops, j, i)
    && CacheAfter(ops[..i]) == Cache(Some(ops[j].replies.verify.accessToken), ops[j].now + Lifetime(ops[j].replies))
  }

  lemma CacheStep(ops: seq<Op>, i: nat)
    requires i < |ops|
    ensures CacheAfter(ops[..i + 1]) == After(CacheAfter(ops[..i]), ops[i])
  {
    assert ops[..i + 1][..i] == ops[..i];
  }

  lemma LeftToken(ops: seq<Op>, i: nat)
    requires i < |ops| && Leaves(ops, i)
    ensures From(ops, i, i + 1)
  {
    CacheStep(ops, i);
  }

  lemma KeptToken(ops: seq<Op>, j: nat, i: nat)
    requires i < |ops| && From(ops, j, i) && !Leaves(ops, i)
    requires CacheAfter(ops[..i + 1]).token.Some?
    ensures From(ops, j, i + 1)
  {
    CacheStep(ops, i);
  }

  /** A token in the cache always comes from the last handshake, with no logout since. */
  lemma {:induction false} CachedTokenHasSource(ops: seq<Op>, i: nat)
    requires i <= |ops|
    ensures CacheAfter(ops[..i]).token.Some? ==> exists j: nat :: From(ops, j, i)
  {
    if i > 0 && CacheAfter(ops[..i]).token.Some? {
      CacheStep(ops, i - 1);
      if Leaves(ops, i - 1) {
        LeftToken(ops, i - 1);
      } else {
        CachedTokenHasSource(ops, i - 1);
        var j: nat :| From(ops, j, i - 1);
        KeptToken(ops, j, i - 1);
      }
    }
  }

  /** What call `i` gets. */
  function ResultOf(ops: seq<Op>, i: nat): Result<string, AuthError>
    requires i < |ops|
  {
    AuthenticateResult(CacheAfter(ops[..i]), Forced(ops[i]), ops[i].now, ops[i].replies)
  }

  /** In every run the token a call gets is the access token of its own handshake if it makes one, and
      else that of the last handshake before; it fails exactly when a handshake it makes does. */
  lemma ResultHasSource(ops: seq<Op>, i: nat)
    requires i < |ops|
    ensures ResultOf(ops, i).Err? <==> !Serves(ops, i) && HandshakeError(ops[i].replies).Some?
    ensures !Serves(ops, i) && ResultOf(ops, i).Ok? ==>
      ops[i].replies.verify.Token? && ResultOf(ops, i) == Ok(ops[i].replies.verify.accessToken)
    ensures Serves(ops, i) ==>
      exists j: nat :: From(ops, j, i) && ResultOf(ops, i) == Ok(ops[j].replies.verify.accessToken)
  {
    if Serves(ops, i) {
      CachedTokenHasSource(ops, i);
    }
  }

  /** How long the gateway still honours, at `now`, the token of a call's handshake. */
  function TimeLeft(op: Op, now: real): real
    requires HandshakeError(op.replies).None?
  {
    op.issuedAt + Lifetime(op.replies) - now
  }

  /** In every run, a token served from the cache was issued to an earlier call with no logout and
      no other handshake in between, and the gateway will honour it for more than thirty seconds
      yet. So a token with a lifetime of thirty seconds or less is never served again. */
  lemma ServedTokenIsFresh(ops: seq<Op>, i: nat)
    requires Clocked(ops) && i < |ops|
    requires Serves(ops, i)
    ensures exists j: nat :: From(ops, j, i)
                          && TimeLeft(ops[j], ops[i].now) > 30.0 && ops[j].replies.verify.expiresIn > 30
  {
    CachedTokenHasSource(ops, i);
    var j: nat :| From(ops, j, i);
    assert ops[j].now <= ops[i].now;
    assert TimeLeft(ops[j], ops[i].now) > 30.0;
  }

  /** And the cache is used as long as that: of the token that call `j` left there, the next unforced
      call is served exactly while more than thirty seconds of the lifetime, counted from before
      the handshake, are left. */
  lemma CacheUsedWhileFresh(ops: seq<Op>, j: nat, i: nat)
    requires Clocked(ops) && i < |ops| && From(ops, j, i)
    ensures Serves(ops, i) <==> !Forced(ops[i]) && ops[i].now < ops[j].now + Lifetime(ops[j].replies) - 30.0
    ensures Serves(ops, i) <==>
      !Forced(ops[i]) && ops[i].now < ops[j].now + ops[j].replies.verify.expiresIn as real - 30.0
    ensures Serves(ops, i) ==> CacheAfter(ops[..i]).token == Some(ops[j].replies.verify.accessToken)
  {
    assert ops[j].now <= ops[i].now;
    assert 0.0 <= ops[i].now;
  }

  /** After a successful logout the next call makes a new handshake, whatever came before. */
  lemma LogoutForcesHandshake(ops: seq<Op>, i: nat)
    requires i + 1 < |ops|
    requires LogsOut(CacheAfter(ops[..i]), ops[i])
    ensures !Serves(ops, i + 1)
  {
    CacheStep(ops, i);
  }
}
