/**
 SsoController: the one-time `state` values of an OpenID Connect login (section 10.12 of RFC 6749)
 with their nonces, and the one-time application codes that the frontend exchanges for its token.

 Both tables map a random key to data with an expiry time. What a table must do is stated on the log
 of what was issued and redeemed; the table itself also forgets entries, at times that do not matter.
*/
module Sso {
  import opened Tables

  // ---- One-time tickets, stated on logs ----

  datatype Event<V> =
    | Issued(key: string, value: V, time: int)
    | Redeemed(key: string, time: int)   // an attempt to redeem, successful or not

  /** Events in the order in which they took the lock. */
  datatype Log<V> = Start | Then(before: Log<V>, last: Event<V>)

  datatype Entry<V> = Entry(value: V, expiry: int)

  /** The entry a key was last issued with, unless it has been redeemed since. Nothing else removes it. */
  function Live<V>(log: Log<V>, ttl: int, key: string): Option<Entry<V>>
    decreases log, 0
  {
    match log
    case Start => None
    case Then(before, Issued(k, value, time)) =>
      if k == key then Some(Entry(value, time + ttl)) else Live(before, ttl, key)
    case Then(before, Redeemed(k, time)) =>
      if k == key && Outcome(before, ttl, key, time).Some? then None else Live(before, ttl, key)
  }

  /** What redeeming the key now gives. */
  function Outcome<V>(log: Log<V>, ttl: int, key: string, now: int): Option<V>
    decreases log, 1
  {
    match Live(log, ttl, key)
    case Some(entry) => if entry.expiry >= now then Some(entry.value) else None
    case None => None
  }

  function Issues<V>(log: Log<V>, key: string): nat {
    match log
    case Start => 0
    case Then(before, last) => Issues(before, key) + if last.Issued? && last.key == key then 1 else 0
  }

  function Successes<V>(log: Log<V>, ttl: int, key: string): nat {
    match log
    case Start => 0
    case Then(before, last) =>
      Successes(before, ttl, key)
      + if last.Redeemed? && last.key == key && Outcome(before, ttl, key, last.time).Some? then 1 else 0
  }

  /** A key succeeds at most as often as it was issued: once, when random keys do not repeat. */
  lemma {:induction false} AtMostOneSuccessPerIssue<V>(log: Log<V>, ttl: int, key: string)
    ensures Successes(log, ttl, key) + (if Live(log, ttl, key).Some? then 1 else 0) <= Issues(log, key)
  {
    if log.Start? {
    } else {
      AtMostOneSuccessPerIssue(log.before, ttl, key);
    }
  }

  function OfKey<V>(log: Log<V>, key: string): Log<V> {
    match log
    case Start => Start
    case Then(before, last) => if last.key == key then Then(OfKey(before, key), last) else OfKey(before, key)
  }

  /** Keys do not interfere: what happens to one depends on its own events alone. */
  lemma {:induction false} KeysIndependent<V>(log: Log<V>, ttl: int, key: string)
    ensures Live(OfKey(log, key), ttl, key) == Live(log, ttl, key)
  {
    if log.Start? {
    } else {
      KeysIndependent(log.before, ttl, key);
    }
  }

  /** The last issue of a key, with the log as it was before. */
  datatype Issue<V> = Issue(value: V, time: int, before: Log<V>)

  function LastIssue<V>(log: Log<V>, key: string): Option<Issue<V>> {
    match log
    case Start => None
    case Then(before, last) =>
      if last.Issued? && last.key == key then Some(Issue(last.value, last.time, before)) else LastIssue(before, key)
  }

  /**
   Redeeming gives a value iff the key's last issue was of that value, its lifetime is not over, and
   the key has not succeeded since that issue.
   */
  lemma {:induction false} OutcomeMeaning<V>(log: Log<V>, ttl: int, key: string, value: V, now: int)
    ensures Outcome(log, ttl, key, now) == Some(value) <==>
            match LastIssue(log, key)
            case None => false
            case Some(issue) => issue.value == value && now <= issue.time + ttl
                                && Successes(log, ttl, key) == Successes(issue.before, ttl, key)
  {
    if log.Start? {
    } else {
      OutcomeMeaning(log.before, ttl, key, value, now);
      SuccessesGrow(log.before, ttl, key);
    }
  }

  lemma {:induction false} SuccessesGrow<V>(log: Log<V>, ttl: int, key: string)
    ensures LastIssue(log, key).Some? ==>
              Successes(log, ttl, key) >= Successes(LastIssue(log, key).value.before, ttl, key)
    ensures Live(log, ttl, key).Some? ==> LastIssue(log, key).Some?
  {
    if log.Start? {
    } else {
      SuccessesGrow(log.before, ttl, key);
    }
  }

  // ---- All keys together ----

  function TotalIssues<V>(log: Log<V>): nat {
    match log
    case Start => 0
    case Then(before, last) => TotalIssues(before) + if last.Issued? then 1 else 0
  }

  function TotalSuccesses<V>(log: Log<V>, ttl: int): nat {
    match log
    case Start => 0
    case Then(before, last) =>
      TotalSuccesses(before, ttl)
      + if last.Redeemed? && Outcome(before, ttl, last.key, last.time).Some? then 1 else 0
  }

  ghost function LiveKeys<V>(log: Log<V>, ttl: int): set<string> {
    match log
    case Start => {}
    case Then(before, Issued(k, _, _)) => LiveKeys(before, ttl) + {k}
    case Then(before, Redeemed(k, t)) =>
      if Outcome(before, ttl, k, t).Some? then LiveKeys(before, ttl) - {k} else LiveKeys(before, ttl)
  }

  lemma {:induction false} LiveKeysMeaning<V>(log: Log<V>, ttl: int)
    ensures forall key :: key in LiveKeys(log, ttl) <==> Live(log, ttl, key).Some?
  {
    if log.Start? {
    } else {
      LiveKeysMeaning(log.before, ttl);
    }
  }

  /** Whatever keys they are for, successes never outnumber issues. */
  lemma {:induction false} SuccessesAtMostIssues<V>(log: Log<V>, ttl: int)
    ensures TotalSuccesses(log, ttl) + |LiveKeys(log, ttl)| <= TotalIssues(log)
  {
    if log.Start? {
    } else {
      SuccessesAtMostIssues(log.before, ttl);
      LiveKeysMeaning(log.before, ttl);
    }
  }

  // ---- A table against its log ----

  /** The table has the live entry of the key, or has dropped it after its expiry. */
  ghost predicate TracksKey<V>(table: map<string, Entry<V>>, log: Log<V>, ttl: int, clock: int, key: string) {
    && (key in table ==> Live(log, ttl, key) == Some(table[key]))
    && (key !in table && Live(log, ttl, key).Some? ==> Live(log, ttl, key).value.expiry < clock)
  }

  ghost predicate Tracks<V>(table: map<string, Entry<V>>, log: Log<V>, ttl: int, clock: int) {
    forall key :: TracksKey(table, log, ttl, clock, key)
  }

  lemma TracksLater<V>(table: map<string, Entry<V>>, log: Log<V>, ttl: int, clock: int, clock': int)
    requires Tracks(table, log, ttl, clock) && clock <= clock'
    ensures Tracks(table, log, ttl, clock')
  {
    forall key ensures TracksKey(table, log, ttl, clock', key) { assert TracksKey(table, log, ttl, clock, key); }
  }

  lemma TracksIssue<V>(table: map<string, Entry<V>>, log: Log<V>, ttl: int, clock: int, key: string, value: V, now: int)
    requires Tracks(table, log, ttl, clock)
    ensures Tracks(table[key := Entry(value, now + ttl)], Then(log, Issued(key, value, now)), ttl, clock)
  {
    var table', log' := table[key := Entry(value, now + ttl)], Then(log, Issued(key, value, now));
    forall k ensures TracksKey(table', log', ttl, clock, k) { assert TracksKey(table, log, ttl, clock, k); }
  }

  /** The lookup that both redeeming endpoints begin with. */
  predicate Found<V>(table: map<string, Entry<V>>, key: string, now: int) {
    key in table && table[key].expiry >= now
  }

  /** A failed redemption may or may not erase the expired entry; that makes no difference. */
  lemma TracksRedeem<V>(table: map<string, Entry<V>>, table': map<string, Entry<V>>, log: Log<V>, ttl: int,
                        clock: int, key: string, now: int)
    requires Tracks(table, log, ttl, clock) && clock <= now
    requires table' == table - {key} || (table' == table && !Found(table, key, now))
    ensures Outcome(log, ttl, key, now) == if Found(table, key, now) then Some(table[key].value) else None
    ensures Tracks(table', Then(log, Redeemed(key, now)), ttl, now)
  {
    assert TracksKey(table, log, ttl, clock, key);
    var log' := Then(log, Redeemed(key, now));
    forall k ensures TracksKey(table', log', ttl, now, k) { assert TracksKey(table, log, ttl, clock, k); }
  }

  function Unexpired<V>(table: map<string, Entry<V>>, now: int): map<string, Entry<V>> {
    map key | key in table && table[key].expiry >= now :: table[key]
  }

  function Max(a: int, b: int): int {
    if a < b then b else a
  }

  /** A purge at any time, even one that read the clock long before, keeps the table right. */
  lemma TracksPurge<V>(table: map<string, Entry<V>>, log: Log<V>, ttl: int, clock: int, now: int)
    requires Tracks(table, log, ttl, clock)
    ensures Tracks(Unexpired(table, now), log, ttl, Max(clock, now))
  {
    var table' := Unexpired(table, now);
    forall k ensures TracksKey(table', log, ttl, Max(clock, now), k) { assert TracksKey(table, log, ttl, clock, k); }
  }

  /** The erase loop of both purges. */
  method EraseExpired<V>(table: map<string, Entry<V>>, now: int) returns (kept: map<string, Entry<V>>)
    ensures kept == Unexpired(table, now)
    ensures forall key :: key in kept <==> key in table && now <= table[key].expiry
    ensures forall key :: key in kept ==> kept[key] == table[key]
  {
    kept := table;
    var todo := table.Keys;
    while todo != {}
      invariant todo <= kept.Keys <= table.Keys
      invariant forall key :: key in kept ==> kept[key] == table[key]
      invariant forall key :: key in table ==> (key in kept <==> key in todo || table[key].expiry >= now)
      decreases todo
    {
      var key :| key in todo;
      if kept[key].expiry < now {
        kept := kept - {key};
      }
      todo := todo - {key};
    }
  }

  // ---- The controller ----

  datatype StateData = StateData(orgId: int, nonce: string)

  datatype CodeData = CodeData(token: string, tenantId: int)

  /** How the look-up of the provider and its token endpoint answer. */
  datatype TokenReply =
    | ProviderLookupFails
    | NoProviderConfig
    | NoClientSecret
    | Unreachable
    | NoAccessToken
    | NoIdToken
    | Malformed
    | NoNonce
    | WithNonce(nonce: string)

  datatype SsoError = SsoFailed | BadRequest | InvalidState | NotFound | ServerError | BadGateway | InvalidNonce | InvalidCode | DatabaseError

  datatype Result<T> = Success(value: T) | Failure(error: SsoError)

  // In nanoseconds, as the steady clock counts.
  const MINUTE: int := 60_000_000_000
  const STATE_TTL: int := 10 * MINUTE
  const CODE_TTL: int := 2 * MINUTE

  /** The checks between the redemption of a state and the look-up of the user. */
  function CheckReply(expectedNonce: string, reply: TokenReply): Option<SsoError> {
    match reply
    case ProviderLookupFails => Some(DatabaseError)
    case NoProviderConfig => Some(NotFound)
    case NoClientSecret => Some(ServerError)
    case Unreachable | NoAccessToken | NoIdToken => Some(BadGateway)
    case Malformed | NoNonce => Some(InvalidNonce)
    case WithNonce(nonce) => if nonce == expectedNonce then None else Some(InvalidNonce)
  }

  /** A state lasts ten minutes and an app code two, the last nanosecond included. */
  lemma Lifetimes<V>(log: Log<V>, key: string, value: V, issued: int, now: int)
    ensures Outcome(Then(log, Issued(key, value, issued)), STATE_TTL, key, now)
            == if now - issued <= 600_000_000_000 then Some(value) else None
    ensures Outcome(Then(log, Issued(key, value, issued)), CODE_TTL, key, now)
            == if now - issued <= 120_000_000_000 then Some(value) else None
  {}

  /** Only the right nonce is accepted; what else the provider answers decides the status of the refusal. */
  lemma ReplyStatus(expected: string, reply: TokenReply)
    ensures CheckReply(expected, reply) == None <==> reply == WithNonce(expected)
    ensures CheckReply(expected, reply) == Some(InvalidNonce) <==>
            reply.Malformed? || reply.NoNonce? || (reply.WithNonce? && reply.nonce != expected)
    ensures CheckReply(expected, reply) == Some(BadGateway) <==>
            reply.Unreachable? || reply.NoAccessToken? || reply.NoIdToken?
    ensures CheckReply(expected, reply) == Some(ServerError) <==> reply.NoClientSecret?
    ensures CheckReply(expected, reply) == Some(NotFound) <==> reply.NoProviderConfig?
    ensures CheckReply(expected, reply) == Some(DatabaseError) <==> reply.ProviderLookupFails?
  {}

  class Controller {
    var pendingStates: map<string, Entry<StateData>>
    var pendingAppCodes: map<string, Entry<CodeData>>

    ghost var states: Log<StateData>   // what happened to the states so far
    ghost var codes: Log<CodeData>
    ghost var clock: int               // the latest clock value any step has read
    ghost var loggingIn: nat           // callbacks that passed the nonce check and have not issued a code

    ghost predicate Valid()
      reads this
    {
      && Tracks(pendingStates, states, STATE_TTL, clock)
      && Tracks(pendingAppCodes, codes, CODE_TTL, clock)
      && TotalIssues(codes) + loggingIn <= TotalSuccesses(states, STATE_TTL)
    }

    constructor ()
      ensures Valid() && states == Start && codes == Start
    {
      pendingStates, pendingAppCodes := map[], map[];
      states, codes, clock, loggingIn := Start, Start, 0, 0;
    }

    /** At any time, and with a clock value read at any time before. */
    method PurgeExpiredStates(now: int)
      requires Valid()
      modifies this`pendingStates, this`clock
      ensures Valid() && clock == Max(old(clock), now)
      ensures pendingStates == Unexpired(old(pendingStates), now)
    {
      TracksPurge(pendingStates, states, STATE_TTL, clock, now);
      TracksLater(pendingAppCodes, codes, CODE_TTL, clock, Max(clock, now));
      pendingStates := EraseExpired(pendingStates, now);
      clock := Max(clock, now);
    }

    method PurgeExpiredAppCodes(now: int)
      requires Valid()
      modifies this`pendingAppCodes, this`clock
      ensures Valid() && clock == Max(old(clock), now)
      ensures pendingAppCodes == Unexpired(old(pendingAppCodes), now)
    {
      TracksPurge(pendingAppCodes, codes, CODE_TTL, clock, now);
      TracksLater(pendingStates, states, STATE_TTL, clock, Max(clock, now));
      pendingAppCodes := EraseExpired(pendingAppCodes, now);
      clock := Max(clock, now);
    }

    /** `state` and `nonce` are the random values, `later` the purge's own reading of the clock. */
    method Initiate(orgId: int, state: string, nonce: string, now: int, later: int)
      requires Valid() && clock <= now <= later
      modifies this`pendingStates, this`clock, this`states
      ensures Valid()
      ensures states == Then(old(states), Issued(state, StateData(orgId, nonce), now))
    {
      TracksIssue(pendingStates, states, STATE_TTL, clock, state, StateData(orgId, nonce), now);
      pendingStates := pendingStates[state := Entry(StateData(orgId, nonce), now + STATE_TTL)];
      states := Then(states, Issued(state, StateData(orgId, nonce), now));
      PurgeExpiredStates(later);
    }

    /**
     Redeems the state and then checks the provider's answer. The outcome is what the log of events
     says, whatever has been purged; the state is used up even when a later check fails.
     */
    method Callback(error: string, code: string, state: string, now: int, reply: TokenReply)
        returns (r: Result<int>)
      requires Valid() && clock <= now
      modifies this`pendingStates, this`clock, this`states, this`loggingIn
      ensures Valid()
      ensures if error != "" then r == Failure(SsoFailed) && states == old(states)
              else if code == "" || state == "" then r == Failure(BadRequest) && states == old(states)
              else states == Then(old(states), Redeemed(state, now))
      ensures error == "" && code != "" && state != "" ==>
                match Outcome(old(states), STATE_TTL, state, now)
                case None => r == Failure(InvalidState)
                case Some(saved) =>
                  match CheckReply(saved.nonce, reply)
                  case Some(e) => r == Failure(e)
                  case None => r == Success(saved.orgId)
      ensures r.Success? ==> reply == WithNonce(Outcome(old(states), STATE_TTL, state, now).value.nonce)
      ensures loggingIn == old(loggingIn) + if r.Success? then 1 else 0
    {
      if error != "" {
        return Failure(SsoFailed);
      }
      if code == "" || state == "" {
        return Failure(BadRequest);
      }
      TracksLater(pendingAppCodes, codes, CODE_TTL, clock, now);
      TracksRedeem(pendingStates, if Found(pendingStates, state, now) then pendingStates - {state} else pendingStates,
                   states, STATE_TTL, clock, state, now);
      states, clock := Then(states, Redeemed(state, now)), now;
      if state !in pendingStates || pendingStates[state].expiry < now {
        return Failure(InvalidState);
      }
      var saved := pendingStates[state].value;
      pendingStates := pendingStates - {state};
      var failure := CheckReply(saved.nonce, reply);
      if failure.Some? {
        return Failure(failure.value);
      }
      loggingIn := loggingIn + 1;
      return Success(saved.orgId);
    }

    /** The end of a callback: `code` is the random value, `tenantId` the user's first tenant or 0. */
    method PostIssueAppCode(code: string, token: string, tenantId: int, now: int)
      requires Valid() && clock <= now && loggingIn > 0
      modifies this`pendingAppCodes, this`clock, this`codes, this`loggingIn
      ensures Valid() && loggingIn == old(loggingIn) - 1
      ensures codes == Then(old(codes), Issued(code, CodeData(token, tenantId), now))
    {
      TracksIssue(pendingAppCodes, codes, CODE_TTL, clock, code, CodeData(token, tenantId), now);
      pendingAppCodes := pendingAppCodes[code := Entry(CodeData(token, tenantId), now + CODE_TTL)];
      codes, loggingIn := Then(codes, Issued(code, CodeData(token, tenantId), now)), loggingIn - 1;
    }

    /** Hands out the token of a code, as the log of events says, and never a second time. */
    method Exchange(code: string, now: int, later: int) returns (r: Result<CodeData>)
      requires Valid() && clock <= now <= later
      modifies this`pendingAppCodes, this`clock, this`codes
      ensures Valid()
      ensures codes == if code == "" then old(codes) else Then(old(codes), Redeemed(code, now))
      ensures code == "" ==> r == Failure(BadRequest)
      ensures code != "" ==>
                match Outcome(old(codes), CODE_TTL, code, now)
                case None => r == Failure(InvalidCode)
                case Some(found) => r == Success(found)
    {
      if code == "" {
        return Failure(BadRequest);
      }
      r := Failure(InvalidCode);
      TracksLater(pendingStates, states, STATE_TTL, clock, now);
      TracksRedeem(pendingAppCodes, pendingAppCodes - {code}, codes, CODE_TTL, clock, code, now);
      if code in pendingAppCodes && pendingAppCodes[code].expiry >= now {
        r := Success(pendingAppCodes[code].value);
      }
      if code in pendingAppCodes {
        pendingAppCodes := pendingAppCodes - {code};
      }
      assert pendingAppCodes == old(pendingAppCodes) - {code};
      codes, clock := Then(codes, Redeemed(code, now)), now;
      PurgeExpiredAppCodes(later);
    }

    /** However the steps of however many logins interleave, there is at most one token handed out per login begun. */
    lemma TokensAtMostLogins()
      requires Valid()
      ensures TotalSuccesses(codes, CODE_TTL) <= TotalIssues(codes)
              <= TotalSuccesses(states, STATE_TTL) <= TotalIssues(states)
    {
      SuccessesAtMostIssues(codes, CODE_TTL);
      SuccessesAtMostIssues(states, STATE_TTL);
    }
  }
}
