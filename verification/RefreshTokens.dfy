/** Refresh tokens that are redeemed for a new one each time they are used. */
module RefreshTokens {
  import opened Model
  import opened Text

  // The keys of the token store.

  function UserPrefix(userId: nat): string {
    FormatNat(userId) + ":"
  }

  function TokenKey(userId: nat, tokenId: string): string {
    UserPrefix(userId) + tokenId
  }

  /** A token is stored under its user's id, a colon and its own. */
  lemma TokenKeyIs(userId: nat, tokenId: string)
    ensures TokenKey(userId, tokenId) == FormatNat(userId) + ":" + tokenId
  {}

  /** The key matches the pattern that a sign-out of the user scans for. */
  predicate OwnedBy(key: string, userId: nat) {
    UserPrefix(userId) <= key
  }

  lemma UserOfKey(userId: nat, key: string)
    requires OwnedBy(key, userId)
    ensures Before(key, ':') == FormatNat(userId)
  {
    var rest := key[|FormatNat(userId)|..];
    assert key == UserPrefix(userId) + key[|UserPrefix(userId)|..];
    assert key == FormatNat(userId) + rest && rest[0] == ':';
    assert ':' !in FormatNat(userId) by {
      assert !IsDigit(':');
    }
    IndexAfterPrefix(FormatNat(userId), rest, ':');
    assert Before(rest, ':') == "";
  }

  /** No key matches the patterns of two users: that of user 1 does not match a key of user 10. */
  lemma KeysOfOneUser(key: string, a: nat, b: nat)
    requires OwnedBy(key, a) && OwnedBy(key, b)
    ensures a == b
  {
    UserOfKey(a, key);
    UserOfKey(b, key);
    FormatInjective(a, b);
  }

  lemma KeyDeterminesToken(a: nat, s: string, b: nat, t: string)
    ensures TokenKey(a, s) == TokenKey(b, t) <==> a == b && s == t
    ensures OwnedBy(TokenKey(a, s), b) <==> a == b
  {
    assert OwnedBy(TokenKey(a, s), a) && OwnedBy(TokenKey(b, t), b);
    if OwnedBy(TokenKey(a, s), b) {
      KeysOfOneUser(TokenKey(a, s), a, b);
      assert TokenKey(a, s)[|UserPrefix(a)|..] == s && TokenKey(b, t)[|UserPrefix(b)|..] == t;
    }
  }

  // The protocol: every command to the token store is one step, and requests interleave.

  /** A request that still has to store a new token. Its chain began with a sign-in. */
  datatype Pending = Pending(userId: nat, chain: nat)

  datatype State = State(
    live: map<string, nat>,    // the chain of every key in the store
    issued: set<string>,       // every key ever stored
    redeemed: seq<string>,     // the keys that refreshes were granted for, in order
    pending: map<nat, Pending>,
    requests: set<nat>,        // every request so far
    owners: map<nat, nat>)     // the user who signed in, for each chain

  datatype Step =
    | SignIn(request: nat, userId: nat)                   // a chain begins
    | Redeem(request: nat, userId: nat, tokenId: string)  // a refresh deletes its token
    | Grant(request: nat, tokenId: string)                // a request stores its new token
    | Fail(request: nat)                                  // a request ends without storing a token
    | Remove(key: string)                                 // a key expires or is deleted by a sign-out

  const INIT := State(map[], {}, [], map[], {}, map[])

  predicate Enabled(s: State, step: Step) {
    match step
    case SignIn(r, _) => r !in s.requests
    case Redeem(r, _, _) => r !in s.requests
    case Grant(r, id) => r in s.pending && TokenKey(s.pending[r].userId, id) !in s.issued
    case Fail(r) => r in s.pending
    case Remove(key) => key in s.live
  }

  function Apply(s: State, step: Step): State
    requires Enabled(s, step)
  {
    match step
    case SignIn(r, u) =>
      s.(pending := s.pending[r := Pending(u, r)], requests := s.requests + {r}, owners := s.owners[r := u])
    case Redeem(r, u, id) =>
      var key := TokenKey(u, id);
      if key !in s.live then s.(requests := s.requests + {r})
      else s.(live := s.live - {key}, redeemed := s.redeemed + [key],
              pending := s.pending[r := Pending(u, s.live[key])], requests := s.requests + {r})
    case Grant(r, id) =>
      var key := TokenKey(s.pending[r].userId, id);
      s.(live := s.live[key := s.pending[r].chain], issued := s.issued + {key}, pending := s.pending - {r})
    case Fail(r) => s.(pending := s.pending - {r})
    case Remove(key) => s.(live := s.live - {key})
  }

  predicate CanRun(s: State, steps: seq<Step>)
    decreases |steps|
  {
    steps == [] || (Enabled(s, steps[0]) && CanRun(Apply(s, steps[0]), steps[1..]))
  }

  function Run(s: State, steps: seq<Step>): State
    requires CanRun(s, steps)
    decreases |steps|
  {
    if steps == [] then s else Run(Apply(s, steps[0]), steps[1..])
  }

  lemma OneStep(s: State, a: Step)
    requires Enabled(s, a)
    ensures CanRun(s, [a]) && Run(s, [a]) == Apply(s, a)
  {}

  lemma TwoSteps(s: State, a: Step, b: Step)
    requires Enabled(s, a) && Enabled(Apply(s, a), b)
    ensures CanRun(s, [a, b]) && Run(s, [a, b]) == Apply(Apply(s, a), b)
  {
    hide Enabled, Apply;
    OneStep(Apply(s, a), b);
    assert [a, b][1..] == [b];
  }

  // What every run keeps.

  /** A redeemed key is gone for good. */
  ghost predicate RedeemedAreGone(s: State) {
    && s.live.Keys <= s.issued
    && (forall key :: key in s.redeemed ==> key in s.issued && key !in s.live)
    && (forall i, j :: 0 <= i < j < |s.redeemed| ==> s.redeemed[i] != s.redeemed[j])
  }

  /** A chain has one live token, or one request about to store one, or neither. */
  ghost predicate OneHolder(s: State) {
    && (forall k, l :: k in s.live && l in s.live && s.live[k] == s.live[l] ==> k == l)
    && (forall p, q :: p in s.pending && q in s.pending && s.pending[p].chain == s.pending[q].chain ==> p == q)
    && (forall k, p :: k in s.live && p in s.pending ==> s.live[k] != s.pending[p].chain)
  }

  /** A chain stays with the user who began it. */
  ghost predicate ChainsKeepUsers(s: State) {
    && s.owners.Keys <= s.requests
    && s.pending.Keys <= s.requests
    && (forall key :: key in s.live ==> s.live[key] in s.owners && OwnedBy(key, s.owners[s.live[key]]))
    && (forall p :: p in s.pending ==> s.pending[p].chain in s.owners && s.pending[p].userId == s.owners[s.pending[p].chain])
  }

  ghost predicate Sound(s: State) {
    RedeemedAreGone(s) && OneHolder(s) && ChainsKeepUsers(s)
  }

  lemma StepKeepsRedeemed(s: State, step: Step)
    requires RedeemedAreGone(s) && Enabled(s, step)
    ensures RedeemedAreGone(Apply(s, step))
  {}

  lemma StepKeepsOneHolder(s: State, step: Step)
    requires OneHolder(s) && ChainsKeepUsers(s) && RedeemedAreGone(s) && Enabled(s, step)
    ensures OneHolder(Apply(s, step))
  {
    hide TokenKey, OwnedBy;
  }

  lemma StepKeepsUsers(s: State, step: Step)
    requires ChainsKeepUsers(s) && Enabled(s, step)
    ensures ChainsKeepUsers(Apply(s, step))
  {
    match step {
      case Redeem(r, u, id) =>
        var key := TokenKey(u, id);
        if key in s.live {
          assert OwnedBy(key, u);
          KeysOfOneUser(key, u, s.owners[s.live[key]]);
        }
      case Grant(r, id) =>
        assert OwnedBy(TokenKey(s.pending[r].userId, id), s.pending[r].userId);
      case _ =>
    }
  }

  lemma {:induction false} RunsStaySound(s: State, steps: seq<Step>)
    requires Sound(s) && CanRun(s, steps)
    ensures Sound(Run(s, steps))
    decreases |steps|
  {
    if steps != [] {
      hide RedeemedAreGone, OneHolder, ChainsKeepUsers, Enabled, Apply;
      StepKeepsRedeemed(s, steps[0]);
      StepKeepsOneHolder(s, steps[0]);
      StepKeepsUsers(s, steps[0]);
      RunsStaySound(Apply(s, steps[0]), steps[1..]);
    }
  }

  /** In every run each token is redeemed at most once, however requests interleave. */
  lemma RedeemedOnce(steps: seq<Step>)
    requires CanRun(INIT, steps)
    ensures var redeemed := Run(INIT, steps).redeemed; forall i, j :: 0 <= i < j < |redeemed| ==> redeemed[i] != redeemed[j]
  {
    RunsStaySound(INIT, steps);
  }

  lemma {:induction false} RunPrefix(s: State, steps: seq<Step>, n: nat)
    requires CanRun(s, steps) && n <= |steps|
    ensures CanRun(s, steps[..n]) && CanRun(Run(s, steps[..n]), steps[n..])
    ensures Run(Run(s, steps[..n]), steps[n..]) == Run(s, steps)
    decreases n
  {
    if n == 0 {
      assert steps[..0] == [] && steps[0..] == steps;
    } else {
      assert steps[..n][0] == steps[0] && steps[..n][1..] == steps[1..][..n - 1] && steps[1..][n - 1..] == steps[n..];
      hide Enabled, Apply;
      RunPrefix(Apply(s, steps[0]), steps[1..], n - 1);
    }
  }

  /** Keys that are spent stay spent. */
  lemma {:induction false} SpentForGood(s: State, steps: seq<Step>, key: string)
    requires CanRun(s, steps) && key in s.issued && key !in s.live
    ensures key in Run(s, steps).issued && key !in Run(s, steps).live
    decreases |steps|
  {
    if steps != [] {
      SpentForGood(Apply(s, steps[0]), steps[1..], key);
    }
  }

  /** The step at this place of the run is a refresh with this token, and it is granted: the request may
      store a new token. */
  ghost predicate RedeemsAt(steps: seq<Step>, i: nat, userId: nat, tokenId: string) {
    && CanRun(INIT, steps) && i < |steps| && steps[i].Redeem? && steps[i].userId == userId && steps[i].tokenId == tokenId
    && CanRun(INIT, steps[..i + 1]) && steps[i].request in Run(INIT, steps[..i + 1]).pending
  }

  /** A refresh is granted exactly for a live token, which is then gone. */
  lemma RedeemNeedsLive(steps: seq<Step>, i: nat)
    requires CanRun(INIT, steps) && i < |steps| && steps[i].Redeem?
    ensures CanRun(INIT, steps[..i]) && CanRun(INIT, steps[..i + 1])
    ensures var key := TokenKey(steps[i].userId, steps[i].tokenId);
            && (RedeemsAt(steps, i, steps[i].userId, steps[i].tokenId) <==> key in Run(INIT, steps[..i]).live)
            && (key in Run(INIT, steps[..i]).live ==> key in Run(INIT, steps[..i + 1]).issued)
            && key !in Run(INIT, steps[..i + 1]).live
  {
    StateAt(steps, i);
    hide Enabled, Apply, Run, CanRun, TokenKey, Sound;
    RedeemStep(Run(INIT, steps[..i]), steps[i].request, steps[i].userId, steps[i].tokenId);
  }

  /** A run has a state before each of its steps, and the step leads to the next. */
  lemma StateAt(steps: seq<Step>, i: nat)
    requires CanRun(INIT, steps) && i < |steps|
    ensures CanRun(INIT, steps[..i]) && CanRun(INIT, steps[..i + 1])
    ensures var s := Run(INIT, steps[..i]);
            Sound(s) && Enabled(s, steps[i]) && Run(INIT, steps[..i + 1]) == Apply(s, steps[i])
  {
    RunsFromInit(steps, i);
    hide Apply, Enabled, Sound;
    RunPrefix(INIT, steps, i);
    RunPrefix(INIT, steps, i + 1);
    RunPrefix(INIT, steps[..i + 1], i);
    assert steps[..i + 1][..i] == steps[..i] && steps[..i + 1][i..] == [steps[i]] && steps[i..][0] == steps[i];
    OneStep(Run(INIT, steps[..i]), steps[i]);
  }

  lemma RunsFromInit(steps: seq<Step>, i: nat)
    requires CanRun(INIT, steps) && i <= |steps|
    ensures CanRun(INIT, steps[..i]) && Sound(Run(INIT, steps[..i]))
  {
    assert Sound(INIT);
    hide Sound, Apply, Enabled;
    RunPrefix(INIT, steps, i);
    RunsStaySound(INIT, steps[..i]);
  }

  lemma RedeemStep(s: State, request: nat, userId: nat, tokenId: string)
    requires Sound(s) && Enabled(s, Redeem(request, userId, tokenId))
    ensures var s', key := Apply(s, Redeem(request, userId, tokenId)), TokenKey(userId, tokenId);
            && (request in s'.pending <==> key in s.live) && key !in s'.live
            && (key in s.live ==> key in s'.issued)
  {}

  /** No token is granted a refresh twice in any run. */
  lemma GrantedOnce(steps: seq<Step>, i: nat, j: nat, userId: nat, tokenId: string)
    requires i < j && RedeemsAt(steps, i, userId, tokenId)
    ensures !RedeemsAt(steps, j, userId, tokenId)
  {
    if RedeemsAt(steps, j, userId, tokenId) {
      RedeemNeedsLive(steps, i);
      RedeemNeedsLive(steps, j);
      RunPrefix(INIT, steps[..j], i + 1);
      assert steps[..j][..i + 1] == steps[..i + 1];
      SpentForGood(Run(INIT, steps[..i + 1]), steps[..j][i + 1..], TokenKey(userId, tokenId));
    }
  }

  lemma {:induction false} StaysRedeemed(s: State, steps: seq<Step>, key: string)
    requires CanRun(s, steps) && key in s.redeemed
    ensures key in Run(s, steps).redeemed
    decreases |steps|
  {
    if steps != [] {
      StaysRedeemed(Apply(s, steps[0]), steps[1..], key);
    }
  }

  /** The state records every refresh that was granted. */
  lemma GrantsAreRecorded(steps: seq<Step>, i: nat, userId: nat, tokenId: string)
    requires RedeemsAt(steps, i, userId, tokenId)
    ensures TokenKey(userId, tokenId) in Run(INIT, steps).redeemed
  {
    RedeemNeedsLive(steps, i);
    RunPrefix(INIT, steps, i + 1);
    StateAt(steps, i);
    StaysRedeemed(Run(INIT, steps[..i + 1]), steps[i + 1..], TokenKey(userId, tokenId));
  }

  predicate Begins(step: Step, request: nat) {
    (step.SignIn? || step.Redeem?) && step.request == request
  }

  predicate Ends(step: Step, request: nat) {
    (step.Grant? || step.Fail?) && step.request == request
  }

  lemma {:induction false} BegunForGood(s: State, steps: seq<Step>, request: nat)
    requires CanRun(s, steps) && request in s.requests
    ensures forall i :: 0 <= i < |steps| ==> !Begins(steps[i], request)
    ensures request !in s.pending ==> forall i :: 0 <= i < |steps| ==> !Ends(steps[i], request)
    decreases |steps|
  {
    if steps != [] {
      BegunForGood(Apply(s, steps[0]), steps[1..], request);
      assert forall i :: 0 < i < |steps| ==> steps[i] == steps[1..][i - 1];
    }
  }

  /** A request begins once and ends once: it stores at most one token. */
  lemma RequestsHappenOnce(steps: seq<Step>, i: nat, j: nat, request: nat)
    requires CanRun(INIT, steps) && i < j < |steps|
    ensures !(Begins(steps[i], request) && Begins(steps[j], request))
    ensures !(Ends(steps[i], request) && Ends(steps[j], request))
  {
    StateAt(steps, i);
    RunPrefix(INIT, steps, i + 1);
    var rest := steps[i + 1..];
    assert rest[j - i - 1] == steps[j];
    if Begins(steps[i], request) || Ends(steps[i], request) {
      UsedUp(Run(INIT, steps[..i]), steps[i], request);
      hide Apply, Enabled, Run, CanRun, Sound;
      BegunForGood(Run(INIT, steps[..i + 1]), rest, request);
    }
  }

  lemma UsedUp(s: State, step: Step, request: nat)
    requires Sound(s) && Enabled(s, step) && (Begins(step, request) || Ends(step, request))
    ensures request in Apply(s, step).requests && (Ends(step, request) ==> request !in Apply(s, step).pending)
  {}

  function LiveTokens(s: State, chain: nat): set<string> {
    set key | key in s.live && s.live[key] == chain
  }

  function OpenRequests(s: State, chain: nat): set<nat> {
    set r | r in s.pending && s.pending[r].chain == chain
  }

  lemma AtMostOne<T>(s: set<T>)
    requires forall x, y :: x in s && y in s ==> x == y
    ensures |s| <= 1
  {
    if x :| x in s {
      assert s == {x};
    }
  }

  /** In every run a chain has at most one live token, and none while a request is about to store one;
      its tokens all belong to the user who signed in. */
  lemma OneLiveTokenPerChain(steps: seq<Step>, chain: nat)
    requires CanRun(INIT, steps)
    ensures var s := Run(INIT, steps); |LiveTokens(s, chain)| + |OpenRequests(s, chain)| <= 1
    ensures var s := Run(INIT, steps); forall key :: key in LiveTokens(s, chain) ==> chain in s.owners && OwnedBy(key, s.owners[chain])
  {
    RunsStaySound(INIT, steps);
    var s := Run(INIT, steps);
    AtMostOne(LiveTokens(s, chain));
    AtMostOne(OpenRequests(s, chain));
    if key :| key in LiveTokens(s, chain) {
      assert OpenRequests(s, chain) == {};
    } else {
      assert LiveTokens(s, chain) == {};
    }
  }

  // Signing out.

  predicate SignedOut(s: State, userId: nat) {
    forall key :: key in s.live ==> !OwnedBy(key, userId)
  }

  predicate NothingOpen(s: State, userId: nat) {
    forall r :: r in s.pending ==> s.pending[r].userId != userId
  }

  predicate NoSignIn(steps: seq<Step>, userId: nat) {
    forall step :: step in steps ==> !(step.SignIn? && step.userId == userId)
  }

  lemma StepStaysOut(s: State, step: Step, userId: nat)
    requires SignedOut(s, userId) && NothingOpen(s, userId) && Enabled(s, step) && NoSignIn([step], userId)
    ensures SignedOut(Apply(s, step), userId) && NothingOpen(Apply(s, step), userId)
  {
    assert step in [step];
    match step {
      case Redeem(r, u, id) => KeyDeterminesToken(u, id, userId, "");
      case Grant(r, id) => KeyDeterminesToken(s.pending[r].userId, id, userId, "");
      case _ =>
    }
  }

  lemma {:induction false} StaysOut(s: State, steps: seq<Step>, userId: nat)
    requires SignedOut(s, userId) && NothingOpen(s, userId) && CanRun(s, steps) && NoSignIn(steps, userId)
    ensures SignedOut(Run(s, steps), userId)
    decreases |steps|
  {
    if steps != [] {
      assert steps == [steps[0]] + steps[1..];
      StepStaysOut(s, steps[0], userId);
      StaysOut(Apply(s, steps[0]), steps[1..], userId);
    }
  }

  function Filler(n: nat): (r: string)
    ensures |r| == n
  {
    seq(n, _ => '0')
  }

  lemma {:induction false} NewTokenId(userId: nat, keys: set<string>) returns (id: string)
    ensures forall key :: key in keys ==> |key| < |TokenKey(userId, id)|
    decreases |keys|
  {
    if key :| key in keys {
      var shorter := NewTokenId(userId, keys - {key});
      id := Filler(|shorter| + |key|);
    } else {
      id := "";
    }
  }

  ghost predicate StaysSignedOut(s: State, userId: nat) {
    forall steps :: CanRun(s, steps) && NoSignIn(steps, userId) ==> SignedOut(Run(s, steps), userId)
  }

  /** A user without tokens can get one again only by signing in, if and only if none of the user's
      requests was under way when the last token went. */
  lemma SignedOutForGood(s: State, userId: nat)
    requires SignedOut(s, userId)
    ensures (forall steps: seq<Step> :: CanRun(s, steps) && (forall i :: 0 <= i < |steps| && steps[i].SignIn? ==> steps[i].userId != userId) ==>
               SignedOut(Run(s, steps), userId))
       <==> forall r :: r in s.pending ==> s.pending[r].userId != userId
  {
    if NothingOpen(s, userId) {
      forall steps | CanRun(s, steps) && NoSignIn(steps, userId)
        ensures SignedOut(Run(s, steps), userId)
      {
        StaysOut(s, steps, userId);
      }
    }
    forall steps: seq<Step>
      ensures NoSignIn(steps, userId) <==> forall i :: 0 <= i < |steps| && steps[i].SignIn? ==> steps[i].userId != userId
    {}
    if StaysSignedOut(s, userId) {
      forall r | r in s.pending
        ensures s.pending[r].userId != userId
      {
        if s.pending[r].userId == userId {
          var id := NewTokenId(userId, s.issued);
          var step := Grant(r, id);
          OneStep(s, step);
          assert NoSignIn([step], userId);
          assert TokenKey(userId, id) in Run(s, [step]).live && OwnedBy(TokenKey(userId, id), userId);
        }
      }
    }
  }

  /** The key of the token that a request redeemed, if it got so far. */
  function Spent(userId: nat, previous: string, steps: seq<Step>): set<string> {
    if previous != "" && steps != [] then {TokenKey(userId, previous)} else {}
  }

  // The services.

  class TokenStore {
    /** Whether no command fails. */
    const reliable: bool
    var keys: set<string>
    /** Where the protocol is. */
    ghost var state: State

    ghost predicate Valid()
      reads this
    {
      keys == state.live.Keys && Sound(state)
    }

    constructor (reliable: bool)
      ensures Valid() && keys == {} && state == INIT && this.reliable == reliable
    {
      this.reliable := reliable;
      keys, state := {}, INIT;
    }

    ghost method Take(step: Step)
      requires Sound(state) && Enabled(state, step)
      modifies this`state
      ensures Sound(state) && state == Apply(old(state), step)
    {
      OneStep(state, step);
      RunsStaySound(state, [step]);
      state := Apply(state, step);
    }

    /** Removes a key; reports how many keys that were, or nothing if the store could not be asked. */
    method Del(key: string) returns (count: Option<nat>)
      modifies this`keys
      ensures count.Some? ==> keys == old(keys) - {key} && count.value == if key in old(keys) then 1 else 0
      ensures count.None? ==> keys == old(keys)
      ensures reliable ==> count.Some?
    {
      var asked: bool := *;
      if !asked && !reliable {
        return None;
      }
      count := Some(if key in keys then 1 else 0);
      keys := keys - {key};
    }

    /** Fails if the store could not be asked, or did not have the token. */
    method DeleteRefreshToken(ghost request: nat, userId: nat, tokenId: string) returns (ok: bool, ghost asked: bool)
      requires Valid() && request !in state.requests
      modifies this
      ensures Valid() && (ok <==> asked && TokenKey(userId, tokenId) in old(keys))
      ensures reliable ==> asked
      ensures state == if asked then Apply(old(state), Redeem(request, userId, tokenId)) else old(state)
    {
      var count := Del(TokenKey(userId, tokenId));
      asked := count.Some?;
      if count == None {
        return false, asked;
      }
      Take(Redeem(request, userId, tokenId));
      ok := count.value >= 1;
    }

    method SetRefreshToken(ghost request: nat, userId: nat, tokenId: string) returns (ok: bool)
      requires Valid() && request in state.pending && state.pending[request].userId == userId
      requires TokenKey(userId, tokenId) !in state.issued
      modifies this
      ensures Valid() && state == Apply(old(state), if ok then Grant(request, tokenId) else Fail(request))
      ensures reliable ==> ok
    {
      ok := *;
      ok := ok || reliable;
      if ok {
        keys := keys + {TokenKey(userId, tokenId)};
      }
      Take(if ok then Grant(request, tokenId) else Fail(request));
    }

    /** Redeems the previous token, if there is one, and stores a new one under an id that has not
        been used before. It takes the steps of one request. */
    method GetTokens(ghost request: nat, userId: nat, previous: string, tokenId: string)
      returns (ok: bool, ghost steps: seq<Step>)
      requires Valid() && request !in state.requests && TokenKey(userId, tokenId) !in state.issued
      modifies this
      ensures Valid() && CanRun(old(state), steps) && state == Run(old(state), steps)
      ensures NoSignIn(steps, userId) <==> previous != ""
      ensures ok ==> previous == "" || TokenKey(userId, previous) in old(keys)
      ensures reliable ==> (ok <==> previous == "" || TokenKey(userId, previous) in old(keys))
      ensures keys == old(keys) - Spent(userId, previous, steps) + (if ok then {TokenKey(userId, tokenId)} else {})
    {
      hide TokenKey, Sound;
      ghost var first: Step;
      if previous != "" {
        var deleted;
        ghost var asked;
        deleted, asked := DeleteRefreshToken(request, userId, previous);
        first := Redeem(request, userId, previous);
        if !deleted {
          steps := if asked then [first] else [];
          OneStep(old(state), first);
          return false, steps;
        }
      } else {
        first := SignIn(request, userId);
        Take(first);
      }
      ok := SetRefreshToken(request, userId, tokenId);
      ghost var last: Step := if ok then Grant(request, tokenId) else Fail(request);
      TwoSteps(old(state), first, last);
      steps := [first, last];
    }

    /** The keys with a prefix, some perhaps twice; an incomplete list if the scan breaks off. */
    method Scan(prefix: string) returns (found: seq<string>, complete: bool)
      ensures forall key :: key in found ==> key in keys && prefix <= key
      ensures complete ==> forall key :: key in keys && prefix <= key ==> key in found
      ensures reliable ==> complete
    {
      var rest := set key | key in keys && prefix <= key;
      found := [];
      while rest != {}
        invariant rest <= keys && forall key :: key in rest ==> prefix <= key
        invariant forall key :: key in found ==> key in keys && prefix <= key
        invariant forall key :: key in keys && prefix <= key ==> key in rest || key in found
        decreases |rest|
      {
        var broken: bool := *;
        if broken && !reliable {
          return found, false;
        }
        var key :| key in rest;
        var twice: bool := *;
        found := found + if twice then [key, key] else [key];
        rest := rest - {key};
      }
      complete := true;
    }

    /** Deletes the tokens of a user, and no other. If it succeeds the user has none left. */
    method DeleteRefreshTokens(userId: nat) returns (ok: bool)
      requires Valid()
      modifies this
      ensures Valid() && state == old(state).(live := state.live)
      ensures forall u, id :: u != userId ==> (TokenKey(u, id) in keys <==> TokenKey(u, id) in old(keys))
      ensures keys <= old(keys) && (forall key :: key in old(keys) && !OwnedBy(key, userId) ==> key in keys)
      ensures ok ==> SignedOut(state, userId) && forall id :: TokenKey(userId, id) !in keys
      ensures reliable ==> ok
    {
      var found, complete := Scan(UserPrefix(userId));
      var failCount := 0;
      var i := 0;
      while i < |found|
        invariant 0 <= i <= |found| && failCount >= 0
        invariant Valid() && state == old(state).(live := state.live)
        invariant keys <= old(keys) && (forall key :: key in old(keys) && !OwnedBy(key, userId) ==> key in keys)
        invariant reliable ==> failCount == 0
        invariant failCount == 0 ==> forall key :: key in found[..i] ==> key !in keys
      {
        assert found[..i + 1] == found[..i] + [found[i]];
        assert found[i] in found;
        ghost var was := found[i] in keys;
        var count := Del(found[i]);
        if count == None {
          failCount := failCount + 1;
        } else if was {
          Take(Remove(found[i]));
        }
        i := i + 1;
      }
      assert found[..i] == found;
      forall u, id | u != userId
        ensures TokenKey(u, id) in keys <==> TokenKey(u, id) in old(keys)
      {
        KeyDeterminesToken(u, id, userId, "");
      }
      forall id
        ensures OwnedBy(TokenKey(userId, id), userId)
      {
        KeyDeterminesToken(userId, id, userId, "");
      }
      ok := complete && failCount == 0;
    }
  }
}
