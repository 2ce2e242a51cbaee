/** Credential readiness: find an active credential by name, else issue one; and the gateway state
    this acts on.
 */
module Credentials {
  import opened Text

  datatype Credential = Credential(id: string, name: Option<string>, token: string)

  function NameKey(c: Credential): string {
    match c.name case Some(n) => Strip(n) case None => ""
  }

  /** Names match when they are the same but for white space around them; no name matches a blank one. */
  lemma NameMatchesExactly(c: Credential, name: string)
    ensures NameKey(c) == Strip(name) <==>
      match c.name
      case Some(n) => Strip(n) == Strip(name)
      case None => AllOf(IsPythonSpace, name)
  {
    TrimEmptyExactly(IsPythonSpace, name);
  }

  datatype ListReply = ListFailed | ListMalformed | Listed(credentials: seq<Credential>)

  datatype RotateReply = RotateFailed | Rotated(token: string)

  /** `delivered` is false when the gateway stored the credential but the client got an error. */
  datatype IssueReply = IssueRefused | Issued(id: string, token: string, delivered: bool)

  datatype Replies = Replies(list: ListReply, rotate: RotateReply, issue: IssueReply)

  /** A reply without a list counts as an empty list. */
  function ListedCredentials(r: ListReply): seq<Credential> {
    if r.Listed? then r.credentials else []
  }

  function FirstMatch(listing: seq<Credential>, target: string): Option<Credential> {
    if listing == [] then None
    else if NameKey(listing[0]) == target then Some(listing[0])
    else FirstMatch(listing[1..], target)
  }

  function Rotate(active: seq<Credential>, id: string, token: string): seq<Credential> {
    seq(|active|, i requires 0 <= i < |active| => if active[i].id == id then active[i].(token := token) else active[i])
  }

  /** One call issues a credential that the gateway stores. */
  predicate Stores(name: string, r: Replies) {
    !r.list.ListFailed? && FirstMatch(ListedCredentials(r.list), Strip(name)).None? && r.issue.Issued?
  }

  function AfterEnsure(active: seq<Credential>, name: string, r: Replies): seq<Credential> {
    if r.list.ListFailed? then active
    else
      match FirstMatch(ListedCredentials(r.list), Strip(name))
      case None => if r.issue.Issued? then active + [Credential(r.issue.id, Some(name), r.issue.token)] else active
      case Some(c) =>
        if Strip(c.token) != "" || r.rotate.RotateFailed? then active else Rotate(active, c.id, r.rotate.token)
  }

  datatype Failed = Failed

  function EnsureResult(name: string, r: Replies): Result<string, Failed> {
    if r.list.ListFailed? then Err(Failed)
    else
      match FirstMatch(ListedCredentials(r.list), Strip(name))
      case None => if r.issue.Issued? && r.issue.delivered then Ok(r.issue.token) else Err(Failed)
      case Some(c) =>
        if Strip(c.token) != "" then Ok(Strip(c.token))
        else if r.rotate.RotateFailed? then Err(Failed) else Ok(Strip(r.rotate.token))
  }

  class Gateway {
    var active: seq<Credential>

    constructor ()
      ensures active == []
    {
      active := [];
    }
  }

  method MatchingActiveCredential(listing: seq<Credential>, name: string) returns (c: Option<Credential>)
    ensures c == FirstMatch(listing, Strip(name))
  {
    var target := Strip(name);
    for i := 0 to |listing|
      invariant FirstMatch(listing, target) == FirstMatch(listing[i..], target)
    {
      if NameKey(listing[i]) == target {
        return Some(listing[i]);
      }
    }
    return None;
  }

  method EnsureCredential(gateway: Gateway, name: string, replies: Replies) returns (r: Result<string, Failed>)
    modifies gateway
    ensures gateway.active == AfterEnsure(old(gateway.active), name, replies)
    ensures r == EnsureResult(name, replies)
  {
    if replies.list.ListFailed? {
      return Err(Failed);
    }
    var found := MatchingActiveCredential(ListedCredentials(replies.list), name);
    if found.Some? {
      var token := Strip(found.value.token);
      if token != "" {
        return Ok(token);
      }
      if replies.rotate.RotateFailed? {
        return Err(Failed);
      }
      gateway.active := Rotate(gateway.active, found.value.id, replies.rotate.token);
      return Ok(Strip(replies.rotate.token));
    }
    if replies.issue.IssueRefused? {
      return Err(Failed);
    }
    gateway.active := gateway.active + [Credential(replies.issue.id, Some(name), replies.issue.token)];
    r := if replies.issue.delivered then Ok(replies.issue.token) else Err(Failed);
  }

  // ----- one credential per name -----

  predicate KeyIn(credentials: seq<Credential>, key: string) {
    exists i :: 0 <= i < |credentials| && NameKey(credentials[i]) == key
  }

  predicate HasName(active: seq<Credential>, name: string) { KeyIn(active, Strip(name)) }

  ghost predicate UniqueNames(active: seq<Credential>) {
    forall i, j :: 0 <= i < j < |active| ==> NameKey(active[i]) != NameKey(active[j])
  }

  /** The listing shows the name of every active credential, in any order, with or without other
      entries, and whatever it says of tokens. */
  ghost predicate NamesListed(listing: seq<Credential>, active: seq<Credential>) {
    forall i :: 0 <= i < |active| ==> KeyIn(listing, NameKey(active[i]))
  }

  /** The same ids and names in the same places; tokens may differ. */
  ghost predicate SameNames(x: seq<Credential>, y: seq<Credential>) {
    |x| == |y| && forall i :: 0 <= i < |x| ==> x[i].id == y[i].id && x[i].name == y[i].name
  }

  ghost predicate IsFirstAt(listing: seq<Credential>, target: string, i: nat) {
    i < |listing| && NameKey(listing[i]) == target && forall j :: 0 <= j < i ==> NameKey(listing[j]) != target
  }

  /** The credential found is the first one listed under the trimmed name. */
  lemma {:induction false} FirstMatchIsFirst(listing: seq<Credential>, target: string)
    ensures FirstMatch(listing, target).None? <==> forall i :: 0 <= i < |listing| ==> NameKey(listing[i]) != target
    ensures FirstMatch(listing, target).Some? ==>
      exists i: nat :: IsFirstAt(listing, target, i) && listing[i] == FirstMatch(listing, target).value
  {
    if listing != [] {
      var rest := listing[1..];
      assert forall j :: 0 < j < |listing| ==> listing[j] == rest[j - 1];
      FirstMatchIsFirst(rest, target);
      if NameKey(listing[0]) == target {
        assert IsFirstAt(listing, target, 0);
      } else if i: nat :| IsFirstAt(rest, target, i) && rest[i] == FirstMatch(rest, target).value {
        assert IsFirstAt(listing, target, i + 1);
      }
    }
  }

  // ----- the ways of one call -----

  lemma {:induction false} FirstMatchAt(listing: seq<Credential>, target: string, i: nat)
    requires IsFirstAt(listing, target, i)
    ensures FirstMatch(listing, target) == Some(listing[i])
  {
    if i > 0 {
      assert forall j :: 0 < j <= i ==> listing[j] == listing[1..][j - 1];
      FirstMatchAt(listing[1..], target, i - 1);
    }
  }

  /** A token that the listing shows is returned, and nothing is rotated or issued. */
  lemma ShownTokenIsReturned(active: seq<Credential>, name: string, r: Replies, i: nat)
    requires r.list.Listed? && IsFirstAt(r.list.credentials, Strip(name), i)
    requires Strip(r.list.credentials[i].token) != ""
    ensures EnsureResult(name, r) == Ok(Strip(r.list.credentials[i].token))
    ensures AfterEnsure(active, name, r) == active
  {
    FirstMatchAt(r.list.credentials, Strip(name), i);
  }

  /** A credential that is listed without its token is rotated: it, and no other, has the new token,
      which is returned. If that fails, the call fails and nothing changes. */
  lemma HiddenTokenIsRotated(active: seq<Credential>, name: string, r: Replies, i: nat)
    requires r.list.Listed? && IsFirstAt(r.list.credentials, Strip(name), i)
    requires Strip(r.list.credentials[i].token) == ""
    ensures var after := AfterEnsure(active, name, r);
      && |after| == |active|
      && (r.rotate.RotateFailed? ==> EnsureResult(name, r).Err? && after == active)
      && (forall token :: r.rotate == Rotated(token) ==>
            && EnsureResult(name, r) == Ok(Strip(token))
            && forall j :: 0 <= j < |active| ==>
                 after[j] == if active[j].id == r.list.credentials[i].id then active[j].(token := token) else active[j])
  {
    FirstMatchAt(r.list.credentials, Strip(name), i);
  }

  /** Where no listed name matches, a credential is issued and stored, under the name as it was given;
      its token is returned unless the reply was lost. If it is refused, nothing changes. */
  lemma UnlistedIsIssued(active: seq<Credential>, name: string, r: Replies)
    requires !r.list.ListFailed? && !KeyIn(ListedCredentials(r.list), Strip(name))
    ensures r.issue.IssueRefused? ==> EnsureResult(name, r).Err? && AfterEnsure(active, name, r) == active
    ensures forall id, token, delivered :: r.issue == Issued(id, token, delivered) ==>
      && AfterEnsure(active, name, r) == active + [Credential(id, Some(name), token)]
      && EnsureResult(name, r) == if delivered then Ok(token) else Err(Failed)
  {
    FirstMatchIsFirst(ListedCredentials(r.list), Strip(name));
  }

  /** A failed listing fails the call, and nothing changes. */
  lemma FailedListFails(active: seq<Credential>, name: string, r: Replies)
    requires r.list.ListFailed?
    ensures EnsureResult(name, r) == Err(Failed) && AfterEnsure(active, name, r) == active
  {
  }

  // ----- uniqueness -----

  /** Whatever the gateway replies, one call breaks uniqueness exactly when it stores a credential
      under a name that an active one already has. */
  lemma EnsureKeepsUniqueExactly(active: seq<Credential>, name: string, r: Replies)
    requires UniqueNames(active)
    ensures UniqueNames(AfterEnsure(active, name, r)) <==> !(Stores(name, r) && HasName(active, name))
  {
    var after := AfterEnsure(active, name, r);
    if Stores(name, r) {
      assert NameKey(after[|active|]) == Strip(name);
      if HasName(active, name) {
        var i :| 0 <= i < |active| && NameKey(active[i]) == Strip(name);
        assert NameKey(after[i]) == NameKey(after[|active|]);
      }
    } else {
      assert |after| == |active|;
      assert forall i :: 0 <= i < |active| ==> NameKey(after[i]) == NameKey(active[i]);
    }
  }

  /** A reply without a list makes the client issue a second credential for a name in use. */
  lemma MalformedListDuplicates(active: seq<Credential>, name: string, r: Replies)
    requires UniqueNames(active) && HasName(active, name)
    requires r.list.ListMalformed? && r.issue.Issued?
    ensures !UniqueNames(AfterEnsure(active, name, r))
  {
    EnsureKeepsUniqueExactly(active, name, r);
  }

  /** Against a listing with the names of all active credentials a name in use is never issued
      again: the call leaves every id and name as it is. */
  lemma NeverIssuesListedName(active: seq<Credential>, name: string, r: Replies)
    requires NamesListed(ListedCredentials(r.list), active)
    ensures Stores(name, r) ==> !HasName(active, name)
    ensures HasName(active, name) ==> SameNames(AfterEnsure(active, name, r), active)
  {
    var listing := ListedCredentials(r.list);
    FirstMatchIsFirst(listing, Strip(name));
    if HasName(active, name) {
      var i :| 0 <= i < |active| && NameKey(active[i]) == Strip(name);
      assert KeyIn(listing, NameKey(active[i]));
    }
  }

  lemma UnlistedIsReissued(listing: seq<Credential>, active: seq<Credential>, i: nat)
    requires i < |active| && !KeyIn(listing, NameKey(active[i]))
    ensures exists name, r: Replies :: r.list == Listed(listing) && Stores(name, r) && HasName(active, name)
  {
    var name := NameKey(active[i]);
    var r := Replies(Listed(listing), RotateFailed, Issued("", "", true));
    if active[i].name.Some? {
      TrimTwice(IsPythonSpace, active[i].name.value);
    }
    assert Strip(name) == name;
    FirstMatchIsFirst(listing, name);
    assert r.list == Listed(listing) && Stores(name, r) && HasName(active, name);
  }

  /** The listings that keep every name in use from being issued again are exactly those. */
  lemma NeverReissuesExactly(listing: seq<Credential>, active: seq<Credential>)
    ensures (forall name, r: Replies :: r.list == Listed(listing) && Stores(name, r) ==> !HasName(active, name))
       <==> NamesListed(listing, active)
  {
    if NamesListed(listing, active) {
      forall name, r: Replies | r.list == Listed(listing) && Stores(name, r)
        ensures !HasName(active, name)
      {
        NeverIssuesListedName(active, name, r);
      }
    } else {
      var i :| 0 <= i < |active| && !KeyIn(listing, NameKey(active[i]));
      UnlistedIsReissued(listing, active, i);
    }
  }

  // ----- runs -----

  datatype Op = Ensure(name: string, replies: Replies) | Remove(index: nat)

  function After(active: seq<Credential>, op: Op): seq<Credential> {
    match op
    case Ensure(name, r) => AfterEnsure(active, name, r)
    case Remove(k) => if k < |active| then active[..k] + active[k + 1..] else active
  }

  function ActiveAfter(start: seq<Credential>, ops: seq<Op>): seq<Credential> {
    if ops == [] then start else After(ActiveAfter(start, ops[..|ops| - 1]), ops[|ops| - 1])
  }

  /** The gateway fails a listing, or shows the names of all active credentials. */
  ghost predicate ListsFaithfully(active: seq<Credential>, op: Op) {
    op.Ensure? && !op.replies.list.ListFailed? ==> NamesListed(ListedCredentials(op.replies.list), active)
  }

  ghost predicate FaithfulRun(start: seq<Credential>, ops: seq<Op>) {
    forall i :: 0 <= i < |ops| ==> ListsFaithfully(ActiveAfter(start, ops[..i]), ops[i])
  }

  /** The operation stores a credential under a name in use. */
  predicate Reissues(active: seq<Credential>, op: Op) {
    op.Ensure? && Stores(op.name, op.replies) && HasName(active, op.name)
  }

  lemma StepKeepsUniqueExactly(active: seq<Credential>, op: Op)
    requires UniqueNames(active)
    ensures UniqueNames(After(active, op)) <==> !Reissues(active, op)
  {
    if op.Ensure? {
      EnsureKeepsUniqueExactly(active, op.name, op.replies);
    }
  }

  ghost predicate AlwaysUnique(start: seq<Credential>, ops: seq<Op>) {
    forall k :: 0 <= k <= |ops| ==> UniqueNames(ActiveAfter(start, ops[..k]))
  }

  ghost predicate NeverReissues(start: seq<Credential>, ops: seq<Op>) {
    forall k :: 0 <= k < |ops| ==> !Reissues(ActiveAfter(start, ops[..k]), ops[k])
  }

  lemma NextActive(start: seq<Credential>, ops: seq<Op>, k: nat)
    requires k < |ops|
    ensures ActiveAfter(start, ops[..k + 1]) == After(ActiveAfter(start, ops[..k]), ops[k])
  {
    assert ops[..k + 1][..k] == ops[..k];
  }

  lemma {:induction false} UniqueUpTo(start: seq<Credential>, ops: seq<Op>, k: nat)
    requires UniqueNames(start) && NeverReissues(start, ops) && k <= |ops|
    ensures UniqueNames(ActiveAfter(start, ops[..k]))
  {
    if k > 0 {
      UniqueUpTo(start, ops, k - 1);
      NextActive(start, ops, k - 1);
      StepKeepsUniqueExactly(ActiveAfter(start, ops[..k - 1]), ops[k - 1]);
    }
  }

  /** Names stay unique all along a run exactly when no operation stores a credential under a name
      in use. */
  lemma RunStaysUniqueExactly(start: seq<Credential>, ops: seq<Op>)
    requires UniqueNames(start)
    ensures AlwaysUnique(start, ops) <==> NeverReissues(start, ops)
  {
    if AlwaysUnique(start, ops) {
      forall k | 0 <= k < |ops|
        ensures !Reissues(ActiveAfter(start, ops[..k]), ops[k])
      {
        NextActive(start, ops, k);
        assert UniqueNames(ActiveAfter(start, ops[..k])) && UniqueNames(ActiveAfter(start, ops[..k + 1]));
        StepKeepsUniqueExactly(ActiveAfter(start, ops[..k]), ops[k]);
      }
    }
    if NeverReissues(start, ops) {
      forall k | 0 <= k <= |ops|
        ensures UniqueNames(ActiveAfter(start, ops[..k]))
      {
        UniqueUpTo(start, ops, k);
      }
    }
  }

  /** Over every run of readiness calls, also with credentials revoked or expiring in between and
      with requests failing at any point, each trimmed name keeps at most one active credential. */
  lemma RunKeepsUnique(start: seq<Credential>, ops: seq<Op>)
    requires UniqueNames(start) && FaithfulRun(start, ops)
    ensures UniqueNames(ActiveAfter(start, ops))
  {
    forall k | 0 <= k < |ops|
      ensures !Reissues(ActiveAfter(start, ops[..k]), ops[k])
    {
      var active := ActiveAfter(start, ops[..k]);
      assert ListsFaithfully(active, ops[k]);
      if ops[k].Ensure? && !ops[k].replies.list.ListFailed? {
        NeverIssuesListedName(active, ops[k].name, ops[k].replies);
      }
    }
    UniqueUpTo(start, ops, |ops|);
    assert ops[..|ops|] == ops;
  }

  // ----- the returned token -----

  /** `l` shows the active credential `c`. */
  predicate Shows(l: Credential, c: Credential) { l.id == c.id && l.name == c.name }

  /** It shows no token, or the right one. */
  predicate ShowsTruly(l: Credential, c: Credential) {
    Shows(l, c) && Strip(l.token) in {"", Strip(c.token)}
  }

  /** Every entry of the listing is an active credential; some may be missing, in any order. */
  ghost predicate ListsActive(listing: seq<Credential>, active: seq<Credential>) {
    forall l :: l in listing ==> exists i :: 0 <= i < |active| && Shows(l, active[i])
  }

  ghost predicate ListsTruthfully(listing: seq<Credential>, active: seq<Credential>) {
    forall l :: l in listing ==> exists i :: 0 <= i < |active| && ShowsTruly(l, active[i])
  }

  lemma FirstMatchListed(listing: seq<Credential>, target: string)
    requires FirstMatch(listing, target).Some?
    ensures FirstMatch(listing, target).value in listing
    ensures NameKey(FirstMatch(listing, target).value) == target
  {
    FirstMatchIsFirst(listing, target);
  }

  lemma EnsuredIsNamed(active: seq<Credential>, name: string, r: Replies)
    requires ListsActive(ListedCredentials(r.list), active)
    requires EnsureResult(name, r).Ok?
    ensures HasName(AfterEnsure(active, name, r), name)
  {
    var after, listing := AfterEnsure(active, name, r), ListedCredentials(r.list);
    if Stores(name, r) {
      assert NameKey(after[|active|]) == Strip(name);
    } else {
      FirstMatchListed(listing, Strip(name));
      var i :| 0 <= i < |active| && Shows(FirstMatch(listing, Strip(name)).value, active[i]);
      assert NameKey(after[i]) == Strip(name);
    }
  }

  /** Readiness is idempotent: after a call that returned a token the name has an active
      credential, and a further call, whose listing fails or shows all names, leaves every id and
      name as it is. */
  lemma EnsureIsIdempotent(active: seq<Credential>, name: string, r: Replies, again: Replies)
    requires ListsActive(ListedCredentials(r.list), active)
    requires EnsureResult(name, r).Ok?
    requires again.list.ListFailed? || NamesListed(ListedCredentials(again.list), AfterEnsure(active, name, r))
    ensures HasName(AfterEnsure(active, name, r), name)
    ensures SameNames(AfterEnsure(AfterEnsure(active, name, r), name, again), AfterEnsure(active, name, r))
  {
    EnsuredIsNamed(active, name, r);
    if !again.list.ListFailed? {
      NeverIssuesListedName(AfterEnsure(active, name, r), name, again);
    }
  }

  predicate Holds(c: Credential, name: string, token: string) {
    NameKey(c) == Strip(name) && Strip(c.token) == Strip(token)
  }

  lemma MatchHoldsToken(active: seq<Credential>, name: string, r: Replies, i: nat)
    requires !Stores(name, r) && EnsureResult(name, r).Ok?
    requires FirstMatch(ListedCredentials(r.list), Strip(name)).Some?
    requires i < |active| && ShowsTruly(FirstMatch(ListedCredentials(r.list), Strip(name)).value, active[i])
    ensures i < |AfterEnsure(active, name, r)|
    ensures Holds(AfterEnsure(active, name, r)[i], name, EnsureResult(name, r).value)
  {
    FirstMatchListed(ListedCredentials(r.list), Strip(name));
    TrimTwice(IsPythonSpace, active[i].token);
    TrimTwice(IsPythonSpace, FirstMatch(ListedCredentials(r.list), Strip(name)).value.token);
    if r.rotate.Rotated? {
      TrimTwice(IsPythonSpace, r.rotate.token);
    }
  }

  /** Whichever way the token was obtained, shown, rotated or issued, it is the one that an active
      credential of that name holds after the call, if the listing shows nothing untrue; it may be
      incomplete and in any order. */
  lemma ReturnedTokenIsActive(active: seq<Credential>, name: string, r: Replies)
    requires ListsTruthfully(ListedCredentials(r.list), active)
    requires EnsureResult(name, r).Ok?
    ensures exists c :: c in AfterEnsure(active, name, r) && Holds(c, name, EnsureResult(name, r).value)
  {
    var after, listing := AfterEnsure(active, name, r), ListedCredentials(r.list);
    if Stores(name, r) {
      assert after[|active|] in after && Holds(after[|active|], name, EnsureResult(name, r).value);
    } else {
      FirstMatchListed(listing, Strip(name));
      var i :| 0 <= i < |active| && ShowsTruly(FirstMatch(listing, Strip(name)).value, active[i]);
      MatchHoldsToken(active, name, r, i);
      assert after[i] in after;
    }
  }
}
