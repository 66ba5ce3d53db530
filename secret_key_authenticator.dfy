/** The secret-key authenticator of the auth service: resolving a hashed
    key or an OAuth-vouched UID against the Auth table, and the per-address
    failure map that guards it. */
module SecretKeyAuth {
  import opened Wrappers
  import Strings

  // ---------------------------------------------------------------------
  // Data
  // ---------------------------------------------------------------------

  /** A row of the Auth table together with the alias of its user
      (`User?.Alias`; `None` when the user has no alias or is not loaded). */
  datatype AuthRow = AuthRow(
    hashedKey: string,
    userUid: string,
    alias: Option<string>,
    isBanned: bool,
    markForBan: bool,
    primaryUserUid: Option<string>)

  /** The verdict returned to the caller. */
  datatype SecretKeyAuthReply = SecretKeyAuthReply(
    success: bool,
    uid: Option<string>,
    primaryUid: Option<string>,
    alias: Option<string>,
    tempBan: bool,
    permaban: bool,
    markedForBan: bool)

  /** The reply for a request that the address check rejects. */
  const TempBanReply := SecretKeyAuthReply(false, None, None, None, true, false, false)

  /** The reply for an unknown credential. */
  const FailureReply := SecretKeyAuthReply(false, None, None, None, false, false, false)

  /** The `InvalidOperationException`s of `Single`/`SingleOrDefault`. */
  datatype Fault = NoElements | MoreThanOneElement

  /** What an authorization call does: return a reply or throw. */
  datatype AuthOutcome = Replied(reply: SecretKeyAuthReply) | Threw(fault: Fault)

  /** The settings read on every call. */
  datatype AuthConfig = AuthConfig(
    failedAuthForTempBan: int,
    tempBanDurationInMinutes: int,
    whitelistedIps: seq<string>)

  /** The values used when nothing is configured. */
  const DefaultConfig := AuthConfig(5, 5, [])

  /** A failure record: its counter and whether its reset is scheduled
      (the record's `ResetTask` being set). */
  datatype FailedAuthorization = FailedAuthorization(failedAttempts: int, resetScheduled: bool)

  /** The counter of a freshly created failure record. The record type's
      constructor is not part of this model; one failure is assumed. */
  const InitialAttempts: int := 1

  // ---------------------------------------------------------------------
  // Registry queries
  // ---------------------------------------------------------------------

  /** The rows a query selects, in table order. */
  function Where(rows: seq<AuthRow>, keep: AuthRow -> bool): (r: seq<AuthRow>)
    ensures forall x :: x in r <==> x in rows && keep(x)
    ensures |r| <= |rows|
    decreases |rows|
  {
    if |rows| == 0 then []
    else
      var rest := Where(rows[1..], keep);
      assert forall x :: x in rows <==> x == rows[0] || x in rows[1..];
      if keep(rows[0]) then [rows[0]] + rest else rest
  }

  lemma {:induction false} WhereNone(rows: seq<AuthRow>, keep: AuthRow -> bool)
    requires forall i :: 0 <= i < |rows| ==> !keep(rows[i])
    ensures Where(rows, keep) == []
    decreases |rows|
  {
    if |rows| > 0 {
      WhereNone(rows[1..], keep);
    }
  }

  /** Exactly the row at index `k` is selected. */
  predicate OnlyMatch(rows: seq<AuthRow>, keep: AuthRow -> bool, k: nat) {
    k < |rows| && keep(rows[k]) && forall i :: 0 <= i < |rows| && keep(rows[i]) ==> i == k
  }

  lemma {:induction false} WhereOnlyMatch(rows: seq<AuthRow>, keep: AuthRow -> bool, k: nat)
    requires OnlyMatch(rows, keep, k)
    ensures Where(rows, keep) == [rows[k]]
    decreases |rows|
  {
    if k == 0 {
      forall i | 0 <= i < |rows[1..]| ensures !keep(rows[1..][i]) {
        assert rows[1..][i] == rows[i + 1];
      }
      WhereNone(rows[1..], keep);
    } else {
      assert OnlyMatch(rows[1..], keep, k - 1) by {
        forall i | 0 <= i < |rows[1..]| && keep(rows[1..][i]) ensures i == k - 1 {
          assert rows[i + 1] == rows[1..][i];
        }
      }
      WhereOnlyMatch(rows[1..], keep, k - 1);
    }
  }

  /** Two distinct rows are selected (they may hold equal values). */
  predicate TwoMatches(rows: seq<AuthRow>, keep: AuthRow -> bool) {
    exists i, j :: 0 <= i < j < |rows| && keep(rows[i]) && keep(rows[j])
  }

  /** Some row is selected. */
  predicate SomeMatch(rows: seq<AuthRow>, keep: AuthRow -> bool) {
    exists i :: 0 <= i < |rows| && keep(rows[i])
  }

  lemma WhereSome(rows: seq<AuthRow>, keep: AuthRow -> bool)
    ensures |Where(rows, keep)| >= 1 <==> SomeMatch(rows, keep)
  {
    var w := Where(rows, keep);
    if |w| >= 1 {
      assert w[0] in w;
      var i :| 0 <= i < |rows| && rows[i] == w[0];
    }
    if SomeMatch(rows, keep) {
      var i :| 0 <= i < |rows| && keep(rows[i]);
      assert rows[i] in w;
    }
  }

  /** A query selects two or more rows exactly when two distinct rows
      match. */
  lemma {:induction false} WhereTwo(rows: seq<AuthRow>, keep: AuthRow -> bool)
    ensures |Where(rows, keep)| >= 2 <==> TwoMatches(rows, keep)
    decreases |rows|
  {
    if |rows| > 0 {
      var rest := rows[1..];
      WhereTwo(rest, keep);
      WhereSome(rest, keep);
      if TwoMatches(rest, keep) {
        var i, j :| 0 <= i < j < |rest| && keep(rest[i]) && keep(rest[j]);
        assert rows[i + 1] == rest[i] && rows[j + 1] == rest[j];
      }
      if keep(rows[0]) && SomeMatch(rest, keep) {
        var j :| 0 <= j < |rest| && keep(rest[j]);
        assert rows[j + 1] == rest[j];
      }
      if TwoMatches(rows, keep) {
        var i, j :| 0 <= i < j < |rows| && keep(rows[i]) && keep(rows[j]);
        assert rest[j - 1] == rows[j];
        if i > 0 {
          assert rest[i - 1] == rows[i];
          assert TwoMatches(rest, keep);
        } else {
          assert SomeMatch(rest, keep);
        }
      }
    }
  }

  datatype Lookup = NoRow | OneRow(row: AuthRow) | ManyRows

  /** `SingleOrDefault` over the rows a query selects. */
  function SingleOrDefault(rows: seq<AuthRow>, keep: AuthRow -> bool): (r: Lookup)
    ensures r.NoRow? <==> forall x :: x in rows ==> !keep(x)
    ensures r.OneRow? ==> r.row in rows && keep(r.row)
    ensures r.OneRow? ==> forall x :: x in rows && keep(x) ==> x == r.row
    ensures r.ManyRows? <==> TwoMatches(rows, keep)
  {
    var hits := Where(rows, keep);
    WhereTwo(rows, keep);
    if |hits| == 0 then NoRow
    else if |hits| == 1 then (assert hits[0] in hits; OneRow(hits[0]))
    else ManyRows
  }

  /** A query that selects exactly one row finds that row. */
  lemma SingleOrDefaultOnlyMatch(rows: seq<AuthRow>, keep: AuthRow -> bool, k: nat)
    requires OnlyMatch(rows, keep, k)
    ensures SingleOrDefault(rows, keep) == OneRow(rows[k])
  {
    WhereOnlyMatch(rows, keep, k);
  }

  function HasKey(key: string): AuthRow -> bool {
    (u: AuthRow) => u.hashedKey == key
  }

  function HasUid(uid: string): AuthRow -> bool {
    (u: AuthRow) => u.userUid == uid
  }

  // ---------------------------------------------------------------------
  // Ban resolution
  // ---------------------------------------------------------------------

  /** The reply built from the looked-up account and, when the account
      names a primary, that primary's row. */
  function BuildReply(auth: Option<AuthRow>, primary: Option<AuthRow>): (r: SecretKeyAuthReply)
    ensures r.success <==> auth.Some?
    ensures !r.tempBan
    ensures auth.None? ==> !r.permaban && !r.markedForBan && r.uid.None? && r.primaryUid.None?
    ensures auth.Some? ==>
      var a := auth.value;
      var inherits := a.primaryUserUid.Some? && primary.Some?;
      && r.uid == Some(a.userUid)
      && r.primaryUid == Some(if a.primaryUserUid.Some? then a.primaryUserUid.value else a.userUid)
      && r.alias == Some(if a.alias.Some? then a.alias.value else "")
      && (r.permaban <==> a.isBanned || (inherits && primary.value.isBanned))
      && (r.markedForBan <==> a.markForBan || (inherits && primary.value.markForBan))
  {
    match auth
    case None =>
      SecretKeyAuthReply(false, None, None, Some(""), false, false, false)
    case Some(a) =>
      var fromPrimary := a.primaryUserUid.Some? && primary.Some?;
      var isBanned := a.isBanned || (fromPrimary && primary.value.isBanned);
      var markedForBan := a.markForBan || (fromPrimary && primary.value.markForBan);
      SecretKeyAuthReply(true, Some(a.userUid), Some(a.primaryUserUid.GetOr(a.userUid)),
        Some(a.alias.GetOr("")), false, isBanned, markedForBan)
  }

  /** What happens to a resolved lookup: the reply is returned, the failure
      path is taken, or a query throws. */
  datatype Decision = Accept(reply: SecretKeyAuthReply) | Reject | Abort(fault: Fault)

  /** The decision of GetAuthReply for the looked-up account. A found
      account is accepted whatever its ban flags; an account whose primary
      link does not resolve to exactly one row makes `SingleAsync` throw. */
  function ResolveAccount(rows: seq<AuthRow>, auth: Option<AuthRow>): (d: Decision)
    ensures d.Reject? <==> auth.None?
    ensures d.Accept? ==> d.reply.success && !d.reply.tempBan && d.reply.uid == Some(auth.value.userUid)
    ensures auth.Some? && auth.value.primaryUserUid.None? ==> d == Accept(BuildReply(auth, None))
    ensures auth.Some? && auth.value.primaryUserUid.Some? ==>
      match SingleOrDefault(rows, HasUid(auth.value.primaryUserUid.value))
      case OneRow(p) => d == Accept(BuildReply(auth, Some(p)))
      case NoRow => d == Abort(NoElements)
      case ManyRows => d == Abort(MoreThanOneElement)
  {
    match auth
    case None => Reject
    case Some(a) =>
      if a.primaryUserUid.None? then Accept(BuildReply(auth, None))
      else
        match SingleOrDefault(rows, HasUid(a.primaryUserUid.value))
        case NoRow => Abort(NoElements)
        case ManyRows => Abort(MoreThanOneElement)
        case OneRow(p) => Accept(BuildReply(auth, Some(p)))
  }

  /** The decision of AuthorizeAsync once the address check has passed:
      the account holding the key is resolved. */
  function KeyDecision(rows: seq<AuthRow>, hashedKey: string): (d: Decision)
    ensures d.Reject? <==> forall a :: a in rows ==> a.hashedKey != hashedKey
    ensures d.Accept? ==> exists a :: a in rows && a.hashedKey == hashedKey && d.reply.uid == Some(a.userUid)
    ensures d.Accept? ==> d.reply.success && !d.reply.tempBan
    ensures var l := SingleOrDefault(rows, HasKey(hashedKey));
      && (l.OneRow? ==> d == ResolveAccount(rows, Some(l.row)))
      && (l.ManyRows? ==> d == Abort(MoreThanOneElement))
  {
    match SingleOrDefault(rows, HasKey(hashedKey))
    case ManyRows => Abort(MoreThanOneElement)
    case NoRow => ResolveAccount(rows, None)
    case OneRow(a) => ResolveAccount(rows, Some(a))
  }

  /** The decision for the account with a given UID: the lookup of the
      OAuth path's requested UID. */
  function UidDecision(rows: seq<AuthRow>, uid: string): (d: Decision)
    ensures d.Reject? <==> forall a :: a in rows ==> a.userUid != uid
    ensures d.Accept? ==> d.reply.uid == Some(uid) && d.reply.success && !d.reply.tempBan
    ensures var l := SingleOrDefault(rows, HasUid(uid));
      && (l.OneRow? ==> d == ResolveAccount(rows, Some(l.row)))
      && (l.ManyRows? ==> d == Abort(MoreThanOneElement))
  {
    match SingleOrDefault(rows, HasUid(uid))
    case ManyRows => Abort(MoreThanOneElement)
    case NoRow => ResolveAccount(rows, None)
    case OneRow(a) => ResolveAccount(rows, Some(a))
  }

  /** The decision of AuthorizeOauthAsync once the address check has
      passed: the vouching primary UID must exist, and then the requested
      UID is resolved on its own. */
  function OauthDecision(rows: seq<AuthRow>, primaryUid: string, requestedUid: string): (d: Decision)
    ensures (forall a :: a in rows ==> a.userUid != primaryUid) ==> d.Reject?
    ensures d.Reject? ==>
      (forall a :: a in rows ==> a.userUid != primaryUid) || (forall a :: a in rows ==> a.userUid != requestedUid)
    ensures d.Accept? ==>
      (exists a :: a in rows && a.userUid == primaryUid) && d.reply.uid == Some(requestedUid)
    ensures d.Accept? ==> d.reply.success && !d.reply.tempBan
    ensures var l := SingleOrDefault(rows, HasUid(primaryUid));
      && (l.OneRow? ==> d == UidDecision(rows, requestedUid))
      && (l.ManyRows? ==> d == Abort(MoreThanOneElement))
  {
    match SingleOrDefault(rows, HasUid(primaryUid))
    case ManyRows => Abort(MoreThanOneElement)
    case NoRow => Reject
    case OneRow(_) => UidDecision(rows, requestedUid)
  }

  /** How a decision reaches the caller: an accepted reply is returned, a
      rejection becomes the failure reply, and an aborted query throws. */
  function OutcomeOf(d: Decision): (o: AuthOutcome)
    ensures o.Replied? && o.reply.success ==> d.Accept?
    ensures d.Accept? ==> o == Replied(d.reply)
    ensures d.Reject? ==> o == Replied(FailureReply)
    ensures d.Abort? ==> o == Threw(d.fault)
  {
    match d
    case Accept(r) => Replied(r)
    case Reject => Replied(FailureReply)
    case Abort(f) => Threw(f)
  }

  // ---------------------------------------------------------------------
  // The failure map, as values
  // ---------------------------------------------------------------------

  /** The address contains some whitelist entry, ignoring case. */
  predicate Whitelisted(ip: string, whitelist: seq<string>) {
    exists i :: 0 <= i < |whitelist| && Strings.ContainsIgnoreCase(ip, whitelist[i])
  }

  /** The addresses whose record has its reset scheduled. */
  ghost function Scheduled(m: map<string, FailedAuthorization>): set<string> {
    set ip | ip in m && m[ip].resetScheduled
  }

  /** Read per address, the service invariant says: every scheduled record
      has exactly one pending reset, and every pending reset belongs to a
      scheduled record. */
  lemma PendingResetsExact(m: map<string, FailedAuthorization>, pending: multiset<string>)
    requires pending == multiset(Scheduled(m))
    ensures forall ip :: ip in pending ==> ip in m && m[ip].resetScheduled && pending[ip] == 1
    ensures forall ip :: ip in m && m[ip].resetScheduled ==> ip in pending
  {
  }

  /** The address check schedules a reset for this record now. */
  predicate SchedulesReset(m: map<string, FailedAuthorization>, ip: string, threshold: int) {
    ip in m && m[ip].failedAttempts > threshold && !m[ip].resetScheduled
  }

  /** The failure map after ShouldFailIp for a non-null address. */
  function AfterCheck(m: map<string, FailedAuthorization>, ip: string, threshold: int): map<string, FailedAuthorization> {
    if SchedulesReset(m, ip, threshold) then m[ip := m[ip].(resetScheduled := true)] else m
  }

  /** The failure map after AuthenticationFailure. */
  function AfterFailure(m: map<string, FailedAuthorization>, ip: string, whitelist: seq<string>): map<string, FailedAuthorization> {
    if Whitelisted(ip, whitelist) then m
    else if ip in m then m[ip := m[ip].(failedAttempts := m[ip].failedAttempts + 1)]
    else m[ip := FailedAuthorization(InitialAttempts, false)]
  }

  /** `n` failures in a row from one address. */
  function AfterFailures(m: map<string, FailedAuthorization>, ip: string, whitelist: seq<string>, n: nat): map<string, FailedAuthorization>
    decreases n
  {
    if n == 0 then m else AfterFailure(AfterFailures(m, ip, whitelist, n - 1), ip, whitelist)
  }

  /** The address check never changes a counter, never adds or removes a
      record, and only marks the checked address's reset as scheduled, when
      its counter is strictly above the threshold. */
  lemma CheckKeepsCounters(m: map<string, FailedAuthorization>, ip: string, threshold: int)
    ensures AfterCheck(m, ip, threshold).Keys == m.Keys
    ensures forall k :: k in m ==> AfterCheck(m, ip, threshold)[k].failedAttempts == m[k].failedAttempts
    ensures forall k :: k in m && k != ip ==> AfterCheck(m, ip, threshold)[k] == m[k]
    ensures ip in m ==>
      (AfterCheck(m, ip, threshold)[ip].resetScheduled <==> m[ip].resetScheduled || m[ip].failedAttempts > threshold)
  {
  }

  /** A scheduled reset is never replaced, and checking twice is checking
      once. */
  lemma CheckIdempotent(m: map<string, FailedAuthorization>, ip: string, threshold: int)
    ensures ip in m && m[ip].resetScheduled ==> AfterCheck(m, ip, threshold) == m
    ensures AfterCheck(AfterCheck(m, ip, threshold), ip, threshold) == AfterCheck(m, ip, threshold)
  {
  }

  /** A failure from a whitelisted address leaves the map unchanged; any
      other failure bumps the address's counter by one or creates a fresh
      record, keeps its scheduled mark, and touches no other address. */
  lemma FailureEffect(m: map<string, FailedAuthorization>, ip: string, whitelist: seq<string>)
    ensures Whitelisted(ip, whitelist) ==> AfterFailure(m, ip, whitelist) == m
    ensures !Whitelisted(ip, whitelist) ==>
      var m' := AfterFailure(m, ip, whitelist);
      && m'.Keys == m.Keys + {ip}
      && (forall k :: k in m && k != ip ==> m'[k] == m[k])
      && m'[ip] == if ip in m then FailedAuthorization(m[ip].failedAttempts + 1, m[ip].resetScheduled)
                   else FailedAuthorization(InitialAttempts, false)
  {
  }

  /** After a reset removes a record, the next failure starts afresh. */
  lemma FailureAfterReset(m: map<string, FailedAuthorization>, ip: string, whitelist: seq<string>)
    requires !Whitelisted(ip, whitelist)
    ensures AfterFailure(m - {ip}, ip, whitelist)[ip] == FailedAuthorization(InitialAttempts, false)
  {
  }

  /** `n` failures from an address with no record leave a record counting
      `n` failures (with the fresh record counting one) and no reset, and
      leave the other addresses alone. */
  lemma {:induction false} CountAfterFailures(m: map<string, FailedAuthorization>, ip: string, whitelist: seq<string>, n: nat)
    requires ip !in m && !Whitelisted(ip, whitelist) && n >= 1
    ensures ip in AfterFailures(m, ip, whitelist, n)
    ensures AfterFailures(m, ip, whitelist, n)[ip] == FailedAuthorization(InitialAttempts + n - 1, false)
    ensures forall k :: k in m ==> k in AfterFailures(m, ip, whitelist, n) && AfterFailures(m, ip, whitelist, n)[k] == m[k]
    decreases n
  {
    if n > 1 {
      CountAfterFailures(m, ip, whitelist, n - 1);
    }
  }

  /** After `n` failures from a fresh address, the address check schedules
      a reset exactly when the counter has passed the threshold. */
  lemma ResetAfterFailures(m: map<string, FailedAuthorization>, ip: string, whitelist: seq<string>, n: nat, threshold: int)
    requires ip !in m && !Whitelisted(ip, whitelist) && n >= 1
    ensures SchedulesReset(AfterFailures(m, ip, whitelist, n), ip, threshold) <==> InitialAttempts + n - 1 > threshold
  {
    CountAfterFailures(m, ip, whitelist, n);
  }
  /** Under the default settings no address is whitelisted, and failures
      from a new address schedule a reset from the sixth one on. */
  lemma DefaultConfigTempBan(m: map<string, FailedAuthorization>, ip: string, n: nat)
    requires ip !in m && n >= 1
    ensures !Whitelisted(ip, DefaultConfig.whitelistedIps)
    ensures SchedulesReset(AfterFailures(m, ip, DefaultConfig.whitelistedIps, n), ip, DefaultConfig.failedAuthForTempBan)
        <==> n >= 6
  {
    ResetAfterFailures(m, ip, DefaultConfig.whitelistedIps, n, DefaultConfig.failedAuthForTempBan);
  }


  /** An unlinked account found by its key is accepted with the reply
      built from its own row. */
  lemma KeyFindsAccount(rows: seq<AuthRow>, k: nat)
    requires k < |rows| && rows[k].primaryUserUid.None?
    requires OnlyMatch(rows, HasKey(rows[k].hashedKey), k)
    ensures KeyDecision(rows, rows[k].hashedKey) == Accept(BuildReply(Some(rows[k]), None))
  {
    SingleOrDefaultOnlyMatch(rows, HasKey(rows[k].hashedKey), k);
  }

  /** A banned account is accepted, with its ban flag set in the reply. */
  lemma BannedAccountSucceeds(rows: seq<AuthRow>, k: nat)
    requires k < |rows| && rows[k].isBanned && rows[k].primaryUserUid.None?
    requires OnlyMatch(rows, HasKey(rows[k].hashedKey), k)
    ensures KeyDecision(rows, rows[k].hashedKey).Accept?
    ensures KeyDecision(rows, rows[k].hashedKey).reply.success && KeyDecision(rows, rows[k].hashedKey).reply.permaban
  {
    KeyFindsAccount(rows, k);
  }

  /** With an existing primary, the OAuth path decides for the requested
      account exactly as the key path decides for that account's key. */
  lemma OauthMatchesKey(rows: seq<AuthRow>, p: nat, k: nat)
    requires p < |rows| && k < |rows|
    requires OnlyMatch(rows, HasUid(rows[p].userUid), p)
    requires OnlyMatch(rows, HasUid(rows[k].userUid), k)
    requires OnlyMatch(rows, HasKey(rows[k].hashedKey), k)
    ensures OauthDecision(rows, rows[p].userUid, rows[k].userUid) == KeyDecision(rows, rows[k].hashedKey)
  {
    SingleOrDefaultOnlyMatch(rows, HasUid(rows[p].userUid), p);
    SingleOrDefaultOnlyMatch(rows, HasUid(rows[k].userUid), k);
    SingleOrDefaultOnlyMatch(rows, HasKey(rows[k].hashedKey), k);
  }

  /** A secondary account inherits its primary's ban and pending-ban
      flags, and reports the primary's UID. */
  lemma SecondaryInheritsBan(rows: seq<AuthRow>, si: nat, pi: nat)
    requires si < |rows| && pi < |rows| && rows[si].primaryUserUid == Some(rows[pi].userUid)
    requires OnlyMatch(rows, HasKey(rows[si].hashedKey), si)
    requires OnlyMatch(rows, HasUid(rows[pi].userUid), pi)
    ensures var s, p, d := rows[si], rows[pi], KeyDecision(rows, rows[si].hashedKey);
      && d.Accept?
      && d.reply.primaryUid == Some(p.userUid)
      && (d.reply.permaban <==> s.isBanned || p.isBanned)
      && (d.reply.markedForBan <==> s.markForBan || p.markForBan)
  {
    SingleOrDefaultOnlyMatch(rows, HasKey(rows[si].hashedKey), si);
    SingleOrDefaultOnlyMatch(rows, HasUid(rows[pi].userUid), pi);
  }

  /** The OAuth path does not check that the requested account belongs to
      the vouching primary: any existing primary UID gives the same
      decision. */
  lemma OauthIgnoresLink(rows: seq<AuthRow>, i1: nat, i2: nat, requestedUid: string)
    requires i1 < |rows| && i2 < |rows|
    requires OnlyMatch(rows, HasUid(rows[i1].userUid), i1)
    requires OnlyMatch(rows, HasUid(rows[i2].userUid), i2)
    ensures OauthDecision(rows, rows[i1].userUid, requestedUid) == OauthDecision(rows, rows[i2].userUid, requestedUid)
  {
    SingleOrDefaultOnlyMatch(rows, HasUid(rows[i1].userUid), i1);
    SingleOrDefaultOnlyMatch(rows, HasUid(rows[i2].userUid), i2);
  }

  // ---------------------------------------------------------------------
  // The service, with its shared failure map
  // ---------------------------------------------------------------------

  class SecretKeyAuthenticatorService {
    /** The per-address failure records. */
    var failedAuthorizations: map<string, FailedAuthorization>
    /** The addresses whose reset continuation is pending, counted. */
    ghost var pendingResets: multiset<string>
    /** Metrics: requests, successes and failures counted, and the
        authentication cache gauge. */
    ghost var authRequests: nat
    ghost var authSuccesses: nat
    ghost var authFailures: nat
    ghost var cacheEntries: nat

    /** The pending resets are exactly the scheduled records, one each
        (see PendingResetsExact). */
    ghost predicate Valid()
      reads this
    {
      pendingResets == multiset(Scheduled(failedAuthorizations))
    }

    constructor ()
      ensures Valid()
      ensures failedAuthorizations == map[] && pendingResets == multiset{}
      ensures authRequests == 0 && authSuccesses == 0 && authFailures == 0 && cacheEntries == 0
    {
      failedAuthorizations := map[];
      pendingResets := multiset{};
      authRequests, authSuccesses, authFailures, cacheEntries := 0, 0, 0, 0;
    }

    /** The address check. It fails only a missing address; for a known
        address whose counter is above the threshold it schedules one reset
        if none is pending, and it never blocks. */
    method ShouldFailIp(ip: Option<string>, config: AuthConfig) returns (fail: bool)
      requires Valid()
      modifies this`failedAuthorizations, this`pendingResets
      ensures Valid()
      ensures fail <==> ip.None?
      ensures ip.None? ==> failedAuthorizations == old(failedAuthorizations) && pendingResets == old(pendingResets)
      ensures ip.Some? ==>
        var t := config.failedAuthForTempBan;
        && failedAuthorizations == AfterCheck(old(failedAuthorizations), ip.value, t)
        && pendingResets == old(pendingResets)
             + (if SchedulesReset(old(failedAuthorizations), ip.value, t) then multiset{ip.value} else multiset{})
    {
      if ip.None? {
        return true;
      }
      var addr := ip.value;
      if addr in failedAuthorizations && failedAuthorizations[addr].failedAttempts > config.failedAuthForTempBan {
        var existing := failedAuthorizations[addr];
        if !existing.resetScheduled {
          failedAuthorizations := failedAuthorizations[addr := existing.(resetScheduled := true)];
          pendingResets := pendingResets + multiset{addr};
        }
      }
      return false;
    }

    /** The temp-ban reply for a failed address check, or none. */
    method FailOnIp(ip: Option<string>, config: AuthConfig) returns (r: Option<SecretKeyAuthReply>)
      requires Valid()
      modifies this`failedAuthorizations, this`pendingResets
      ensures Valid()
      ensures r == if ip.None? then Some(TempBanReply) else None
      ensures ip.None? ==> failedAuthorizations == old(failedAuthorizations) && pendingResets == old(pendingResets)
      ensures ip.Some? ==>
        var t := config.failedAuthForTempBan;
        && failedAuthorizations == AfterCheck(old(failedAuthorizations), ip.value, t)
        && pendingResets == old(pendingResets)
             + (if SchedulesReset(old(failedAuthorizations), ip.value, t) then multiset{ip.value} else multiset{})
    {
      var fail := ShouldFailIp(ip, config);
      if fail {
        return Some(TempBanReply);
      }
      return None;
    }

    /** The reset continuation firing: the address's record is removed. */
    method ResetFailedAuthorization(ip: string)
      requires Valid() && ip in pendingResets
      modifies this`failedAuthorizations, this`pendingResets
      ensures Valid()
      ensures failedAuthorizations == old(failedAuthorizations) - {ip}
      ensures pendingResets == old(pendingResets) - multiset{ip}
    {
      failedAuthorizations := failedAuthorizations - {ip};
      pendingResets := pendingResets - multiset{ip};
    }

    /** Records a failure for a non-whitelisted address and returns the
        failure reply. */
    method AuthenticationFailure(ip: string, config: AuthConfig) returns (r: SecretKeyAuthReply)
      requires Valid()
      modifies this`failedAuthorizations, this`authFailures
      ensures Valid()
      ensures r == FailureReply
      ensures failedAuthorizations == AfterFailure(old(failedAuthorizations), ip, config.whitelistedIps)
      ensures authFailures == old(authFailures) + 1
    {
      authFailures := authFailures + 1;
      var whitelisted := Whitelisted(ip, config.whitelistedIps);
      if !whitelisted {
        if ip in failedAuthorizations {
          var auth := failedAuthorizations[ip];
          failedAuthorizations := failedAuthorizations[ip := auth.(failedAttempts := auth.failedAttempts + 1)];
        } else {
          failedAuthorizations := failedAuthorizations[ip := FailedAuthorization(InitialAttempts, false)];
        }
      }
      return FailureReply;
    }

    /** Builds the reply for the looked-up account; a missing account takes
        the failure path. */
    method GetAuthReply(ip: string, rows: seq<AuthRow>, auth: Option<AuthRow>, config: AuthConfig)
      returns (out: AuthOutcome)
      requires Valid()
      modifies this`failedAuthorizations, this`authFailures, this`authSuccesses, this`cacheEntries
      ensures Valid()
      ensures out == OutcomeOf(ResolveAccount(rows, auth))
      ensures failedAuthorizations ==
        if auth.None? then AfterFailure(old(failedAuthorizations), ip, config.whitelistedIps)
        else old(failedAuthorizations)
      ensures pendingResets == old(pendingResets)
      ensures authFailures == old(authFailures) + (if auth.None? then 1 else 0)
      ensures authSuccesses == old(authSuccesses) + (if out.Replied? && out.reply.success then 1 else 0)
      ensures cacheEntries == old(cacheEntries) + (if out.Replied? && out.reply.success then 1 else 0)
    {
      var d := ResolveAccount(rows, auth);
      match d {
        case Abort(f) =>
          out := Threw(f);
        case Accept(reply) =>
          authSuccesses := authSuccesses + 1;
          cacheEntries := cacheEntries + 1;
          out := Replied(reply);
        case Reject =>
          var reply := AuthenticationFailure(ip, config);
          out := Replied(reply);
      }
    }

    /** Authorization by hashed secret key. */
    method AuthorizeAsync(ip: Option<string>, hashedSecretKey: string, rows: seq<AuthRow>, config: AuthConfig)
      returns (out: AuthOutcome)
      requires Valid()
      modifies this
      ensures Valid()
      ensures authRequests == old(authRequests) + 1
      ensures ip.None? ==>
        && out == Replied(TempBanReply)
        && failedAuthorizations == old(failedAuthorizations) && pendingResets == old(pendingResets)
      ensures ip.Some? ==>
        var checked := AfterCheck(old(failedAuthorizations), ip.value, config.failedAuthForTempBan);
        var d := KeyDecision(rows, hashedSecretKey);
        && out == OutcomeOf(d)
        && failedAuthorizations == (if d.Reject? then AfterFailure(checked, ip.value, config.whitelistedIps) else checked)
        && pendingResets == old(pendingResets)
             + (if SchedulesReset(old(failedAuthorizations), ip.value, config.failedAuthForTempBan)
                then multiset{ip.value} else multiset{})
        && authFailures == old(authFailures) + (if d.Reject? then 1 else 0)
      ensures (out.Replied? && out.reply.tempBan) <==> ip.None?
      ensures ip.None? ==> authFailures == old(authFailures)
      ensures authSuccesses == old(authSuccesses) + (if out.Replied? && out.reply.success then 1 else 0)
      ensures cacheEntries == old(cacheEntries) + (if out.Replied? && out.reply.success then 1 else 0)
    {
      authRequests := authRequests + 1;
      var checkOnIp := FailOnIp(ip, config);
      if checkOnIp.Some? {
        return Replied(checkOnIp.value);
      }
      var authReply := SingleOrDefault(rows, HasKey(hashedSecretKey));
      if authReply.ManyRows? {
        return Threw(MoreThanOneElement);
      }
      out := GetAuthReply(ip.value, rows, if authReply.OneRow? then Some(authReply.row) else None, config);
    }

    /** Authorization of a requested UID on behalf of an OAuth-verified
        primary UID. */
    method AuthorizeOauthAsync(ip: Option<string>, primaryUid: string, requestedUid: string,
                               rows: seq<AuthRow>, config: AuthConfig)
      returns (out: AuthOutcome)
      requires Valid()
      modifies this
      ensures Valid()
      ensures authRequests == old(authRequests) + 1
      ensures ip.None? ==>
        && out == Replied(TempBanReply)
        && failedAuthorizations == old(failedAuthorizations) && pendingResets == old(pendingResets)
      ensures ip.Some? ==>
        var checked := AfterCheck(old(failedAuthorizations), ip.value, config.failedAuthForTempBan);
        var d := OauthDecision(rows, primaryUid, requestedUid);
        && out == OutcomeOf(d)
        && failedAuthorizations == (if d.Reject? then AfterFailure(checked, ip.value, config.whitelistedIps) else checked)
        && pendingResets == old(pendingResets)
             + (if SchedulesReset(old(failedAuthorizations), ip.value, config.failedAuthForTempBan)
                then multiset{ip.value} else multiset{})
        && authFailures == old(authFailures) + (if d.Reject? then 1 else 0)
      ensures (out.Replied? && out.reply.tempBan) <==> ip.None?
      ensures ip.None? ==> authFailures == old(authFailures)
      ensures authSuccesses == old(authSuccesses) + (if out.Replied? && out.reply.success then 1 else 0)
      ensures cacheEntries == old(cacheEntries) + (if out.Replied? && out.reply.success then 1 else 0)
    {
      authRequests := authRequests + 1;
      var checkOnIp := FailOnIp(ip, config);
      if checkOnIp.Some? {
        return Replied(checkOnIp.value);
      }
      var authUser := SingleOrDefault(rows, HasUid(primaryUid));
      if authUser.ManyRows? {
        return Threw(MoreThanOneElement);
      }
      if authUser.NoRow? {
        var reply := AuthenticationFailure(ip.value, config);
        return Replied(reply);
      }
      var authReply := SingleOrDefault(rows, HasUid(requestedUid));
      if authReply.ManyRows? {
        return Threw(MoreThanOneElement);
      }
      out := GetAuthReply(ip.value, rows, if authReply.OneRow? then Some(authReply.row) else None, config);
    }
  }
}
