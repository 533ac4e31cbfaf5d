/**
 * The guestbook client (`entry.ts`): the retry policy of `fetchWithRetry`
 * and the `SignManager` operations on the `signs` and `blacklist` tables,
 * with the remote store held in memory.
 */
module Entry {
  import opened Common
  import opened Ed25519
  import CryptoUtils
  import Hex

  // ================================================================ fetchWithRetry

  /** The `name` of an error thrown by `fetch`. */
  datatype ErrorName = AbortError | TypeError | OtherError(name: string)

  /** What one call of `fetch` does: answers with a status, or throws. */
  datatype Attempt = Responded(status: int) | Threw(error: ErrorName)

  /**
   * How `fetchWithRetry` ends: it returns a response, or throws the
   * `HTTP <status>` error of a non-OK response, or rethrows what `fetch` threw.
   */
  datatype FetchResult = Delivered(status: int) | HttpError(status: int) | Rethrown(error: ErrorName)

  /** The result, the number of `fetch` calls made, and the sleeps in between. */
  datatype RetryTrace = RetryTrace(result: FetchResult, attempts: nat, delays: seq<nat>)

  const BaseDelay := 1000
  const MaxDelay := 10000
  /** `maxRetries` as `getApprovedSigns` passes it. */
  const ApprovedSignsRetries := 2

  /** `response.ok` */
  predicate IsOk(status: int)
  {
    200 <= status <= 299
  }

  /** A 4xx status other than 429, which is never retried. */
  predicate IsClientError(status: int)
  {
    400 <= status < 500 && status != 429
  }

  /** Errors worth another attempt: a timeout abort or a network failure. */
  predicate IsTransient(error: ErrorName)
  {
    error.AbortError? || error.TypeError?
  }

  /** `Math.min(1000 * Math.pow(2, attempt), 10000)` */
  function Backoff(attempt: nat): (r: nat)
    ensures BaseDelay <= r <= MaxDelay
  {
    Min(BaseDelay * Pow2(attempt), MaxDelay)
  }

  /** Whether this outcome of attempt number `attempt` ends the loop. */
  predicate Ends(outcome: Attempt, attempt: nat, maxRetries: nat)
  {
    match outcome
    case Responded(status) => IsOk(status) || attempt == maxRetries || IsClientError(status)
    case Threw(error) => attempt == maxRetries || !IsTransient(error)
  }

  /** How the loop ends on an outcome that ends it. */
  function Settle(outcome: Attempt): (r: FetchResult)
    ensures r.Delivered? <==> outcome.Responded? && IsOk(outcome.status)
  {
    match outcome
    case Responded(status) => if IsOk(status) then Delivered(status) else HttpError(status)
    case Threw(error) => Rethrown(error)
  }

  /**
   * The retry policy from attempt `attempt` on, given the outcome of every
   * attempt: it stops at the first outcome that ends the loop and sleeps
   * `Backoff(k)` after each attempt k that does not.
   */
  function RetryRun(maxRetries: nat, outcomes: seq<Attempt>, attempt: nat): (t: RetryTrace)
    requires attempt <= maxRetries < |outcomes|
    ensures attempt < t.attempts <= maxRetries + 1
    ensures |t.delays| == t.attempts - 1 - attempt
    decreases maxRetries - attempt
  {
    if Ends(outcomes[attempt], attempt, maxRetries) then
      RetryTrace(Settle(outcomes[attempt]), attempt + 1, [])
    else
      var rest := RetryRun(maxRetries, outcomes, attempt + 1);
      rest.(delays := [Backoff(attempt)] + rest.delays)
  }

  /**
   * `fetchWithRetry`: at most `maxRetries + 1` calls of `fetch`, whose
   * outcomes are given in order; `outcomes[k]` is what attempt k sees. The
   * timers are not run: the sleeps are returned.
   */
  method FetchWithRetry(maxRetries: nat, outcomes: seq<Attempt>) returns (t: RetryTrace)
    requires maxRetries < |outcomes|
    ensures t == RetryRun(maxRetries, outcomes, 0)
  {
    var delays: seq<nat> := [];
    var attempt := 0;
    while attempt <= maxRetries
      invariant attempt <= maxRetries
      invariant RetryRun(maxRetries, outcomes, 0)
                == var rest := RetryRun(maxRetries, outcomes, attempt); rest.(delays := delays + rest.delays)
      decreases maxRetries - attempt
    {
      match outcomes[attempt] {
        case Responded(status) =>
          if IsOk(status) {
            return RetryTrace(Delivered(status), attempt + 1, delays);
          }
          // The `HTTP <status>` error thrown here reaches the catch block,
          // which rethrows it: its name is "Error".
          if attempt == maxRetries || IsClientError(status) {
            return RetryTrace(HttpError(status), attempt + 1, delays);
          }
        case Threw(error) =>
          if attempt == maxRetries || !IsTransient(error) {
            return RetryTrace(Rethrown(error), attempt + 1, delays);
          }
      }
      if attempt < maxRetries {
        delays := delays + [Backoff(attempt)];
      }
      attempt := attempt + 1;
    }
  }

  /**
   * Every attempt before the last one was retried, the last one ends the
   * loop, the result is what the last attempt saw, and the k-th sleep lasts
   * `Backoff(k)`.
   */
  lemma {:induction false} RetryRunStopsAtFirstEnd(maxRetries: nat, outcomes: seq<Attempt>, attempt: nat)
    requires attempt <= maxRetries < |outcomes|
    ensures var t := RetryRun(maxRetries, outcomes, attempt);
            && (forall k :: attempt <= k < t.attempts - 1 ==> !Ends(outcomes[k], k, maxRetries))
            && Ends(outcomes[t.attempts - 1], t.attempts - 1, maxRetries)
            && t.result == Settle(outcomes[t.attempts - 1])
            && (forall k :: 0 <= k < |t.delays| ==> t.delays[k] == Backoff(attempt + k))
    decreases maxRetries - attempt
  {
    if !Ends(outcomes[attempt], attempt, maxRetries) {
      RetryRunStopsAtFirstEnd(maxRetries, outcomes, attempt + 1);
    }
  }

  /**
   * Conversely, when attempt `last` is the first outcome that ends the loop,
   * the loop makes exactly `last + 1` attempts and settles on that outcome.
   */
  lemma {:induction false} RetryRunEndsAt(maxRetries: nat, outcomes: seq<Attempt>, attempt: nat, last: nat)
    requires attempt <= last <= maxRetries < |outcomes|
    requires forall k :: attempt <= k < last ==> !Ends(outcomes[k], k, maxRetries)
    requires Ends(outcomes[last], last, maxRetries)
    ensures RetryRun(maxRetries, outcomes, attempt).attempts == last + 1
    ensures RetryRun(maxRetries, outcomes, attempt).result == Settle(outcomes[last])
    decreases last - attempt
  {
    if attempt < last {
      RetryRunEndsAt(maxRetries, outcomes, attempt + 1, last);
    }
  }

  /**
   * `fetchWithRetry` returns only OK responses; it throws an HTTP error only
   * for a 4xx other than 429 or on the last attempt, and rethrows an error
   * other than an abort or a network failure at once.
   */
  lemma FetchWithRetryOutcome(maxRetries: nat, outcomes: seq<Attempt>)
    requires maxRetries < |outcomes|
    ensures var t := RetryRun(maxRetries, outcomes, 0);
            && 1 <= t.attempts <= maxRetries + 1
            && (t.result.Delivered? ==> IsOk(t.result.status))
            && (t.result.HttpError? ==>
                  !IsOk(t.result.status) && (IsClientError(t.result.status) || t.attempts == maxRetries + 1))
            && (t.result.Rethrown? ==> !IsTransient(t.result.error) || t.attempts == maxRetries + 1)
            && (forall k :: 0 <= k < t.attempts - 1 ==> !Ends(outcomes[k], k, maxRetries))
  {
    RetryRunStopsAtFirstEnd(maxRetries, outcomes, 0);
  }

  /** A first attempt answered with a 4xx other than 429 is not retried. */
  lemma ClientErrorIsNotRetried(maxRetries: nat, outcomes: seq<Attempt>)
    requires maxRetries < |outcomes|
    requires outcomes[0].Responded? && IsClientError(outcomes[0].status)
    ensures RetryRun(maxRetries, outcomes, 0) == RetryTrace(HttpError(outcomes[0].status), 1, [])
  {
  }

  lemma {:induction false} Pow2Monotone(j: nat, k: nat)
    requires j <= k
    ensures Pow2(j) <= Pow2(k)
    decreases k
  {
    if j < k {
      Pow2Monotone(j, k - 1);
    }
  }

  /** The sleeps never shrink from one attempt to the next. */
  lemma BackoffMonotone(j: nat, k: nat)
    requires j <= k
    ensures Backoff(j) <= Backoff(k)
  {
    Pow2Monotone(j, k);
  }

  /** The schedule is 1 s, 2 s, 4 s, 8 s, then 10 s from the fifth attempt on. */
  lemma BackoffSchedule(k: nat)
    ensures k <= 3 ==> Backoff(k) == BaseDelay * Pow2(k)
    ensures k >= 4 ==> Backoff(k) == MaxDelay
  {
    if k >= 4 {
      Pow2Monotone(4, k);
      assert Pow2(4) == 16;
    } else {
      assert Pow2(3) == 8;
    }
  }

  // ================================================================ SignManager

  /** A row of the `signs` table. */
  datatype SignRow = SignRow(
    id: nat,
    githubUsername: Option<string>,
    githubAvatar: Option<string>,
    message: Option<string>,
    isAnonymous: bool,
    approved: bool,
    createdAt: string,
    userId: Option<string>,
    publicKey: Option<string>,
    signature: Option<string>)
  {
    /** The fields `verifySign` reads. */
    function Stored(): (s: CryptoUtils.StoredSign)
    {
      CryptoUtils.StoredSign(message, createdAt, userId, isAnonymous, publicKey, signature)
    }
  }

  datatype SignFormData = SignFormData(message: Option<string>, isAnonymous: bool)

  /** `Partial<SignFormData>`: a field left out is not changed. */
  datatype SignUpdate = SignUpdate(message: Option<string>, isAnonymous: Option<bool>)

  /** `SignWithVerification`: a row with the verdict of `verifySign` beside it. */
  datatype SignWithVerification = SignWithVerification(
    sign: SignRow,
    signatureValid: bool,
    publicKeyDisplay: Option<string>,
    verificationError: Option<CryptoUtils.VerifyError>)

  /**
   * The signed-in user as the auth service reports it. Its metadata carries
   * two name fields, `user_name` and `github_username`, read by different
   * operations.
   */
  datatype User = User(id: string, userName: Option<string>, githubUsername: Option<string>, avatarUrl: Option<string>)

  /** The errors the operations throw, and the reasons `canUserCreateSign` gives. */
  datatype SignError = Unauthenticated | Blacklisted | AlreadySigned | NotAdmin | NotSingleRow

  /** `{canCreate, reason?}` */
  datatype Eligibility = Eligibility(canCreate: bool, reason: Option<SignError>)

  /** Which rows a filtered update or delete may touch. */
  datatype Scope = AnyOwner | OwnedBy(userId: string)

  /** The three field updates the client sends. */
  datatype Change = Edit(updates: SignUpdate) | SetApproval(approved: bool) | ClearMessage

  /** `adminGithubUsername && name === adminGithubUsername`: an unset or empty admin name matches no one. */
  predicate IsAdmin(adminUsername: Option<string>, name: Option<string>)
    ensures IsAdmin(adminUsername, name) ==> name.Some? && name.value != "" && name == adminUsername
    ensures adminUsername.None? || adminUsername == Some("") ==> !IsAdmin(adminUsername, name)
  {
    adminUsername.Some? && adminUsername.value != "" && name == adminUsername
  }

  ghost predicate UniqueIds(rows: seq<SignRow>)
  {
    forall i, j :: 0 <= i < j < |rows| ==> rows[i].id != rows[j].id
  }

  /** At most one sign per user id. */
  ghost predicate OnePerUser(rows: seq<SignRow>)
  {
    forall i, j :: 0 <= i < j < |rows| && rows[i].userId.Some? ==> rows[i].userId != rows[j].userId
  }

  ghost predicate IdsBelow(rows: seq<SignRow>, bound: nat)
  {
    forall i :: 0 <= i < |rows| ==> rows[i].id < bound
  }

  /** `.eq("user_id", userId)` on the signs table. */
  function SignsOf(rows: seq<SignRow>, userId: string): (r: seq<SignRow>)
    ensures |r| <= |rows|
    ensures forall x :: x in r <==> x in rows && x.userId == Some(userId)
  {
    if rows == [] then []
    else (if rows[0].userId == Some(userId) then [rows[0]] else []) + SignsOf(rows[1..], userId)
  }

  /** `approved=eq.true` on the signs table. */
  function ApprovedRows(rows: seq<SignRow>): (r: seq<SignRow>)
    ensures |r| <= |rows|
    ensures forall x :: x in r <==> x in rows && x.approved
  {
    if rows == [] then []
    else (if rows[0].approved then [rows[0]] else []) + ApprovedRows(rows[1..])
  }

  /** `.eq("id", signId)`, and `.eq("user_id", owner)` when the scope names one. */
  predicate Selects(row: SignRow, signId: nat, scope: Scope)
  {
    row.id == signId && (scope.OwnedBy? ==> row.userId == Some(scope.userId))
  }

  /** The rows a filtered update or delete touches. */
  function Selected(rows: seq<SignRow>, signId: nat, scope: Scope): (r: seq<SignRow>)
    ensures |r| <= |rows|
    ensures forall x :: x in r <==> x in rows && Selects(x, signId, scope)
  {
    if rows == [] then []
    else (if Selects(rows[0], signId, scope) then [rows[0]] else []) + Selected(rows[1..], signId, scope)
  }

  /** The table after a filtered delete: the rows it does not touch, in order. */
  function Retained(rows: seq<SignRow>, signId: nat, scope: Scope): (r: seq<SignRow>)
    ensures |r| <= |rows|
    ensures forall x :: x in r <==> x in rows && !Selects(x, signId, scope)
  {
    if rows == [] then []
    else (if Selects(rows[0], signId, scope) then [] else [rows[0]]) + Retained(rows[1..], signId, scope)
  }

  /** One row after an update; only the message, the anonymity flag and the approval can change. */
  function Apply(change: Change, row: SignRow): (r: SignRow)
    ensures r.(message := row.message, isAnonymous := row.isAnonymous, approved := row.approved) == row
    ensures change.Edit? ==>
              && r.approved == row.approved
              && r.message == (if change.updates.message.Some? then change.updates.message else row.message)
              && r.isAnonymous == (if change.updates.isAnonymous.Some? then change.updates.isAnonymous.value
                                   else row.isAnonymous)
    ensures change.SetApproval? ==> r == row.(approved := change.approved)
    ensures change.ClearMessage? ==> r == row.(message := None)
  {
    match change
    case Edit(updates) =>
      row.(message := if updates.message.Some? then updates.message else row.message,
           isAnonymous := if updates.isAnonymous.Some? then updates.isAnonymous.value else row.isAnonymous)
    case SetApproval(approved) => row.(approved := approved)
    case ClearMessage => row.(message := None)
  }

  /** The table after a filtered update: touched rows changed, every other row as it was. */
  function UpdateRows(rows: seq<SignRow>, signId: nat, scope: Scope, change: Change): (r: seq<SignRow>)
    ensures |r| == |rows|
    ensures forall i :: 0 <= i < |rows| ==>
              r[i] == if Selects(rows[i], signId, scope) then Apply(change, rows[i]) else rows[i]
  {
    seq(|rows|, i requires 0 <= i < |rows| =>
      if Selects(rows[i], signId, scope) then Apply(change, rows[i]) else rows[i])
  }

  /** `.select().single()` after an update: the one touched row, or an error. */
  function SingleRow(touched: seq<SignRow>, change: Change): (r: Result<SignRow, SignError>)
    ensures r.Success? <==> |touched| == 1
  {
    if |touched| == 1 then Success(Apply(change, touched[0])) else Failure(NotSingleRow)
  }

  /** One row of a read, with the verdict of `verifySign` beside it. */
  function Annotate(scheme: Scheme, row: SignRow): (r: SignWithVerification)
    ensures r.sign == row
    ensures r.signatureValid ==> r.verificationError.None?
    ensures r.publicKeyDisplay.Some? <==> r.verificationError.None?
    ensures r.verificationError == Some(CryptoUtils.MissingSignatureData)
            <==> CryptoUtils.OrEmpty(row.publicKey) == "" || CryptoUtils.OrEmpty(row.signature) == ""
  {
    var verification := CryptoUtils.VerifySign(scheme, row.Stored());
    SignWithVerification(row, verification.isValid, verification.publicKeyDisplay, verification.error)
  }

  /** The `map` over fetched rows that `getApprovedSigns` and `getUserSigns` apply. */
  function WithVerification(scheme: Scheme, rows: seq<SignRow>): (r: seq<SignWithVerification>)
    ensures |r| == |rows|
    ensures forall i :: 0 <= i < |rows| ==> r[i].sign == rows[i] && r[i] == Annotate(scheme, rows[i])
  {
    seq(|rows|, i requires 0 <= i < |rows| => Annotate(scheme, rows[i]))
  }

  // ---------------------------------------------------------------- the blacklist lookup

  /** The number of `blacklist` rows for `userId`. */
  function Occurrences(blacklist: seq<string>, userId: string): (n: nat)
    ensures n <= |blacklist|
    ensures n > 0 <==> userId in blacklist
  {
    if blacklist == [] then 0
    else (if blacklist[0] == userId then 1 else 0) + Occurrences(blacklist[1..], userId)
  }

  /**
   * The lookup as written: `.single()` yields data only when exactly one
   * row matches, and reports an error, read as "not blacklisted", otherwise.
   */
  predicate BlacklistedAsWritten(blacklist: seq<string>, userId: string)
    ensures BlacklistedAsWritten(blacklist, userId) ==> userId in blacklist
  {
    Occurrences(blacklist, userId) == 1
  }

  /** The lookup as intended: any row for the user blacklists them. */
  predicate IsBlacklisted(blacklist: seq<string>, userId: string)
    ensures IsBlacklisted(blacklist, userId) <==> Occurrences(blacklist, userId) > 0
  {
    userId in blacklist
  }

  /** Two rows for one user let that user through the lookup as written. */
  lemma DuplicateBlacklistRowsAdmitUser()
    ensures IsBlacklisted(["u", "u"], "u")
    ensures !BlacklistedAsWritten(["u", "u"], "u")
  {
    assert Occurrences(["u", "u"], "u") == 2 by {
      assert ["u", "u"][1..] == ["u"];
      assert ["u"][1..] == [];
    }
  }

  /** With at most one row per user the two lookups agree. */
  lemma BlacklistLookupsAgree(blacklist: seq<string>, userId: string)
    requires Occurrences(blacklist, userId) <= 1
    ensures BlacklistedAsWritten(blacklist, userId) <==> IsBlacklisted(blacklist, userId)
  {
  }

  // ---------------------------------------------------------------- the signs table

  /**
   * The guestbook client with the remote store it talks to: the `signs`
   * and `blacklist` tables and the configuration fixed at build time.
   */
  class SignManager {
    /** The Ed25519 routines of the signing library. */
    const scheme: Scheme
    /** `ADMIN_GITHUB_USERNAME` */
    const adminUsername: Option<string>
    /** The `signs` table, in the order the store keeps it. */
    var signs: seq<SignRow>
    /** The `user_id` of each row of the `blacklist` table. */
    var blacklist: seq<string>
    /** The id the store gives the next inserted sign. */
    var nextId: nat

    ghost predicate Valid()
      reads this
    {
      UniqueIds(signs) && OnePerUser(signs) && IdsBelow(signs, nextId)
    }

    constructor (scheme: Scheme, adminUsername: Option<string>, blacklist: seq<string>)
      ensures Valid()
      ensures this.scheme == scheme && this.adminUsername == adminUsername
      ensures this.blacklist == blacklist && signs == []
    {
      this.scheme := scheme;
      this.adminUsername := adminUsername;
      this.blacklist := blacklist;
      signs := [];
      nextId := 0;
    }

    /**
     * `canUserCreateSign`: the three gates in order: signed in, then not
     * blacklisted, then no sign yet. Reads the tables and changes nothing.
     */
    function CanUserCreateSign(auth: Option<User>): (r: Eligibility)
      reads this
      ensures r.canCreate <==> r.reason.None?
      ensures r.canCreate <==>
                && auth.Some?
                && !IsBlacklisted(blacklist, auth.value.id)
                && forall i :: 0 <= i < |signs| ==> signs[i].userId != Some(auth.value.id)
      ensures r.reason == Some(Unauthenticated) <==> auth.None?
      ensures r.reason == Some(Blacklisted) <==> auth.Some? && IsBlacklisted(blacklist, auth.value.id)
      ensures r.reason == Some(AlreadySigned) <==>
                && auth.Some? && !IsBlacklisted(blacklist, auth.value.id)
                && exists i :: 0 <= i < |signs| && signs[i].userId == Some(auth.value.id)
    {
      if auth.None? then
        Eligibility(false, Some(Unauthenticated))
      else if IsBlacklisted(blacklist, auth.value.id) then
        Eligibility(false, Some(Blacklisted))
      else if |SignsOf(signs, auth.value.id)| > 0 then
        NoSignMeansNoRow(signs, auth.value.id);
        Eligibility(false, Some(AlreadySigned))
      else
        NoSignMeansNoRow(signs, auth.value.id);
        Eligibility(true, None)
    }

    /** `getUserSigns`: the caller's signs, each with its verification; none when signed out. */
    function GetUserSigns(auth: Option<User>): (r: seq<SignWithVerification>)
      reads this
      ensures auth.None? ==> r == []
      ensures auth.Some? ==> r == WithVerification(scheme, SignsOf(signs, auth.value.id))
      ensures auth.Some? ==>
                && (forall i :: 0 <= i < |r| ==>
                      r[i].sign in signs && r[i].sign.userId == Some(auth.value.id) && r[i] == Annotate(scheme, r[i].sign))
                && (forall x :: x in signs && x.userId == Some(auth.value.id) ==>
                      exists i :: 0 <= i < |r| && r[i].sign == x)
    {
      if auth.None? then []
      else
        AnnotatedRowsOf(scheme, signs, auth.value.id);
        WithVerification(scheme, SignsOf(signs, auth.value.id))
    }

    /**
     * `createSign`: the gates of `canUserCreateSign` and, past them, one
     * inserted row signed over its own display message and user id. The
     * clock and random bytes are parameters: `timestamp` is `created_at`,
     * `nowMillis`, `random1` and `random2` feed the key generator.
     */
    method CreateSign(auth: Option<User>, formData: SignFormData, timestamp: string,
                      nowMillis: nat, random1: seq<byte>, random2: seq<byte>)
      returns (r: Result<SignRow, SignError>)
      requires Valid()
      requires |random1| == SecretKeyLength && |random2| == SecretKeyLength
      modifies this
      ensures Valid()
      ensures blacklist == old(blacklist)
      ensures r.Failure? <==> !old(CanUserCreateSign(auth)).canCreate
      ensures r.Failure? ==> Some(r.error) == old(CanUserCreateSign(auth)).reason
      ensures r.Failure? ==> signs == old(signs) && nextId == old(nextId)
      ensures r.Success? ==>
                var user, row := auth.value, r.value;
                && signs == old(signs) + [row]
                && row.id == old(nextId)
                && row.approved == IsAdmin(adminUsername, user.userName)
                && row.userId == Some(user.id)
                && row.message == (if CryptoUtils.OrEmpty(formData.message) == "" then None else formData.message)
                && row.isAnonymous == formData.isAnonymous
                && row.createdAt == timestamp
                && row.githubUsername == user.userName && row.githubAvatar == user.avatarUrl
      ensures r.Success? ==> nextId == old(nextId) + 1
      ensures r.Success? ==> CanUserCreateSign(auth).reason == Some(AlreadySigned)
      ensures r.Success? ==> SignsOf(signs, auth.value.id) == [r.value]
      ensures r.Success? ==>
                SignedBy(scheme, r.value, CryptoUtils.MixedKey(random1, random2, CryptoUtils.TimestampBytes(nowMillis)))
      ensures r.Success? ==> Correct(scheme) ==> SignedWithOwnKey(scheme, r.value)
    {
      ghost var eligibility := CanUserCreateSign(auth);
      if auth.None? {
        return Failure(Unauthenticated);
      }
      var user := auth.value;
      if IsBlacklisted(blacklist, user.id) {
        return Failure(Blacklisted);
      }
      var existingSigns := SignsOf(signs, user.id);
      if |existingSigns| > 0 {
        assert eligibility.reason == Some(AlreadySigned);
        return Failure(AlreadySigned);
      }
      assert eligibility.canCreate;
      var row := NewSign(user, formData, timestamp, nowMillis, random1, random2);
      SignsOfAppend(signs, row, user.id);
      Insert(row);
      assert SignsOf(signs, user.id) == [row];
      r := Success(row);
    }

    /** `.insert([signData])`: the row goes in with the next id. */
    method Insert(row: SignRow)
      requires Valid()
      requires row.id == nextId && row.userId.Some?
      requires forall i :: 0 <= i < |signs| ==> signs[i].userId != row.userId
      modifies this`signs, this`nextId
      ensures Valid()
      ensures signs == old(signs) + [row] && nextId == old(nextId) + 1
    {
      AppendKeepsValid(signs, row, nextId);
      signs := signs + [row];
      nextId := nextId + 1;
    }

    /** The row `createSign` inserts for this user: signed, approved when the user is the admin. */
    method NewSign(user: User, formData: SignFormData, timestamp: string,
                   nowMillis: nat, random1: seq<byte>, random2: seq<byte>)
      returns (row: SignRow)
      requires |random1| == SecretKeyLength && |random2| == SecretKeyLength
      ensures row.id == nextId
      ensures row.approved == IsAdmin(adminUsername, user.userName)
      ensures row.userId == Some(user.id)
      ensures row.message == (if CryptoUtils.OrEmpty(formData.message) == "" then None else formData.message)
      ensures row.isAnonymous == formData.isAnonymous
      ensures row.createdAt == timestamp
      ensures row.githubUsername == user.userName && row.githubAvatar == user.avatarUrl
      ensures SignedBy(scheme, row, CryptoUtils.MixedKey(random1, random2, CryptoUtils.TimestampBytes(nowMillis)))
      ensures Correct(scheme) ==> SignedWithOwnKey(scheme, row)
    {
      var isAdmin := IsAdmin(adminUsername, user.userName);
      var signatureData := CryptoUtils.GenerateSignatureForSign(
        scheme, CryptoUtils.OrEmpty(formData.message), user.id, formData.isAnonymous, nowMillis, random1, random2);
      var message := if CryptoUtils.OrEmpty(formData.message) == "" then None else formData.message;
      row := SignRow(nextId, user.userName, user.avatarUrl, message, formData.isAnonymous, isAdmin,
                  timestamp, Some(user.id), Some(signatureData.publicKey), Some(signatureData.signature));
      InsertedSignVerifies(scheme, signatureData.keyPair.privateKey, row);
    }

    /**
     * `getApprovedSigns`: the approved rows, each with its verification, once
     * the fetch succeeds; nothing when it throws. `outcomes` holds what each
     * `fetch` attempt sees. The store's ordering by `created_at` is not modelled.
     */
    method GetApprovedSigns(outcomes: seq<Attempt>) returns (r: seq<SignWithVerification>)
      requires ApprovedSignsRetries < |outcomes|
      ensures r == if RetryRun(ApprovedSignsRetries, outcomes, 0).result.Delivered?
                   then WithVerification(scheme, ApprovedRows(signs))
                   else []
    {
      var fetched := FetchWithRetry(ApprovedSignsRetries, outcomes);
      if !fetched.result.Delivered? {
        // the catch block
        return [];
      }
      FetchWithRetryOutcome(ApprovedSignsRetries, outcomes);
      if !IsOk(fetched.result.status) {
        // `!response.ok`, which a delivered response never is
        return [];
      }
      var data := ApprovedRows(signs);
      r := WithVerification(scheme, data);
    }

    /**
     * `updateSign`: changes the message and anonymity flag of the caller's
     * own sign with this id; every other row and field stays as it was.
     */
    method UpdateSign(auth: Option<User>, signId: nat, updates: SignUpdate) returns (r: Result<SignRow, SignError>)
      requires Valid()
      modifies this`signs
      ensures Valid()
      ensures auth.None? ==> r == Failure(Unauthenticated) && signs == old(signs)
      ensures auth.Some? ==>
                var scope := OwnedBy(auth.value.id);
                && signs == UpdateRows(old(signs), signId, scope, Edit(updates))
                && r == SingleRow(Selected(old(signs), signId, scope), Edit(updates))
    {
      if auth.None? {
        return Failure(Unauthenticated);
      }
      r := UpdateWhere(signId, OwnedBy(auth.value.id), Edit(updates));
    }

    /**
     * `deleteSign`: the admin deletes the row with this id whoever owns it;
     * anyone else only a row of their own. Every other row stays, in order.
     */
    method DeleteSign(auth: Option<User>, signId: nat) returns (r: Outcome<SignError>)
      requires Valid()
      modifies this`signs
      ensures Valid()
      ensures auth.None? ==> r == Fail(Unauthenticated) && signs == old(signs)
      ensures auth.Some? ==>
                var scope := if IsAdmin(adminUsername, auth.value.githubUsername) then AnyOwner
                             else OwnedBy(auth.value.id);
                r == Pass && signs == Retained(old(signs), signId, scope)
    {
      if auth.None? {
        return Fail(Unauthenticated);
      }
      var isAdmin := IsAdmin(adminUsername, auth.value.githubUsername);
      var scope := if isAdmin then AnyOwner else OwnedBy(auth.value.id);
      RetainedKeepsValid(signs, signId, scope, nextId);
      signs := Retained(signs, signId, scope);
      r := Pass;
    }

    /** `adminToggleApproval`: the admin sets `approved` on the row with this id. */
    method AdminToggleApproval(auth: Option<User>, signId: nat, approved: bool) returns (r: Result<SignRow, SignError>)
      requires Valid()
      modifies this`signs
      ensures Valid()
      ensures auth.None? ==> r == Failure(Unauthenticated) && signs == old(signs)
      ensures auth.Some? && !IsAdmin(adminUsername, auth.value.githubUsername) ==>
                r == Failure(NotAdmin) && signs == old(signs)
      ensures auth.Some? && IsAdmin(adminUsername, auth.value.githubUsername) ==>
                && signs == UpdateRows(old(signs), signId, AnyOwner, SetApproval(approved))
                && r == SingleRow(Selected(old(signs), signId, AnyOwner), SetApproval(approved))
    {
      if auth.None? {
        return Failure(Unauthenticated);
      }
      if !IsAdmin(adminUsername, auth.value.githubUsername) {
        return Failure(NotAdmin);
      }
      r := UpdateWhere(signId, AnyOwner, SetApproval(approved));
    }

    /** `adminRemoveComment`: the admin clears the message of the row with this id. */
    method AdminRemoveComment(auth: Option<User>, signId: nat) returns (r: Result<SignRow, SignError>)
      requires Valid()
      modifies this`signs
      ensures Valid()
      ensures auth.None? ==> r == Failure(Unauthenticated) && signs == old(signs)
      ensures auth.Some? && !IsAdmin(adminUsername, auth.value.githubUsername) ==>
                r == Failure(NotAdmin) && signs == old(signs)
      ensures auth.Some? && IsAdmin(adminUsername, auth.value.githubUsername) ==>
                && signs == UpdateRows(old(signs), signId, AnyOwner, ClearMessage)
                && r == SingleRow(Selected(old(signs), signId, AnyOwner), ClearMessage)
    {
      if auth.None? {
        return Failure(Unauthenticated);
      }
      if !IsAdmin(adminUsername, auth.value.githubUsername) {
        return Failure(NotAdmin);
      }
      r := UpdateWhere(signId, AnyOwner, ClearMessage);
    }

    /** `.update(...).eq(...).select().single()` */
    method UpdateWhere(signId: nat, scope: Scope, change: Change) returns (r: Result<SignRow, SignError>)
      requires Valid()
      modifies this`signs
      ensures Valid()
      ensures signs == UpdateRows(old(signs), signId, scope, change)
      ensures r == SingleRow(Selected(old(signs), signId, scope), change)
    {
      var touched := Selected(signs, signId, scope);
      signs := UpdateRows(signs, signId, scope, change);
      r := SingleRow(touched, change);
    }
  }

  // ---------------------------------------------------------------- properties of the table operations

  /** The signs query comes back empty exactly when no row belongs to the user. */
  lemma NoSignMeansNoRow(rows: seq<SignRow>, userId: string)
    ensures |SignsOf(rows, userId)| == 0 <==> forall i :: 0 <= i < |rows| ==> rows[i].userId != Some(userId)
  {
    if |SignsOf(rows, userId)| > 0 {
      assert SignsOf(rows, userId)[0] in SignsOf(rows, userId);
    }
    forall i | 0 <= i < |rows| && rows[i].userId == Some(userId)
      ensures |SignsOf(rows, userId)| > 0
    {
      assert rows[i] in rows;
    }
  }

  lemma {:induction false} SignsOfAppend(rows: seq<SignRow>, row: SignRow, userId: string)
    requires row.userId == Some(userId)
    ensures SignsOf(rows + [row], userId) == SignsOf(rows, userId) + [row]
  {
    if rows == [] {
      assert [row][1..] == [];
    } else {
      assert (rows + [row])[1..] == rows[1..] + [row];
      SignsOfAppend(rows[1..], row, userId);
    }
  }

  /** An insert with a fresh id and a user without a sign keeps the table's invariants. */
  lemma AppendKeepsValid(rows: seq<SignRow>, row: SignRow, bound: nat)
    requires UniqueIds(rows) && OnePerUser(rows) && IdsBelow(rows, bound)
    requires row.id == bound && row.userId.Some?
    requires forall i :: 0 <= i < |rows| ==> rows[i].userId != row.userId
    ensures var r := rows + [row]; UniqueIds(r) && OnePerUser(r) && IdsBelow(r, bound + 1)
  {
    var r := rows + [row];
    forall i, j | 0 <= i < j < |r|
      ensures r[i].id != r[j].id
      ensures r[i].userId.Some? ==> r[i].userId != r[j].userId
    {
      if j == |rows| {
        assert r[i] == rows[i];
      }
    }
  }

  /**
   * The row holds the hex public key of `secretKey` and the hex signature,
   * made with `secretKey`, over its own display message and user id.
   */
  predicate SignedBy(scheme: Scheme, row: SignRow, secretKey: seq<byte>)
  {
    && row.publicKey == Some(Hex.Encode(scheme.getPublicKey(secretKey)))
    && row.signature
       == Some(Hex.Encode(CryptoUtils.Sign(
            scheme,
            CryptoUtils.SignatureData(CryptoUtils.DisplayMessage(row.isAnonymous, row.message),
                                      CryptoUtils.OrEmpty(row.userId)),
            secretKey)))
  }

  /** Each of a user's annotated rows is theirs and carries its verdict, and every row of theirs is there. */
  lemma AnnotatedRowsOf(scheme: Scheme, rows: seq<SignRow>, userId: string)
    ensures var r := WithVerification(scheme, SignsOf(rows, userId));
            && (forall i :: 0 <= i < |r| ==>
                  r[i].sign in rows && r[i].sign.userId == Some(userId) && r[i] == Annotate(scheme, r[i].sign))
            && (forall x :: x in rows && x.userId == Some(userId) ==> exists i :: 0 <= i < |r| && r[i].sign == x)
  {
    var mine := SignsOf(rows, userId);
    var r := WithVerification(scheme, mine);
    forall i | 0 <= i < |r|
      ensures r[i].sign in rows && r[i].sign.userId == Some(userId)
    {
      assert mine[i] in mine;
    }
    forall x | x in rows && x.userId == Some(userId)
      ensures exists i :: 0 <= i < |r| && r[i].sign == x
    {
      assert x in mine;
      var i :| 0 <= i < |mine| && mine[i] == x;
      assert r[i].sign == x;
    }
  }

  /**
   * After a successful `createSign` (which leaves the user exactly one row),
   * `getUserSigns` returns that row alone, with its verdict.
   */
  lemma UserSignsAfterCreate(m: SignManager, auth: Option<User>, row: SignRow)
    requires auth.Some? && SignsOf(m.signs, auth.value.id) == [row]
    ensures m.GetUserSigns(auth) == [Annotate(m.scheme, row)]
  {
    assert WithVerification(m.scheme, [row]) == [Annotate(m.scheme, row)];
  }

  /** The row verifies, with no error, and shows the head of its own public key. */
  predicate SignedWithOwnKey(scheme: Scheme, row: SignRow)
  {
    && row.publicKey.Some?
    && CryptoUtils.VerifySign(scheme, row.Stored())
       == CryptoUtils.Verification(true, Some(row.publicKey.value[..Min(CryptoUtils.DisplayLength, |row.publicKey.value|)]), None)
  }

  /** Round trip for an inserted row: it verifies and shows the head of its key. */
  lemma InsertedSignVerifies(scheme: Scheme, secretKey: seq<byte>, row: SignRow)
    requires |secretKey| == SecretKeyLength && SignedBy(scheme, row, secretKey)
    ensures Correct(scheme) ==> SignedWithOwnKey(scheme, row)
  {
    if Correct(scheme) {
      CryptoUtils.VerifySignRoundTrip(scheme, secretKey, row.Stored());
    }
  }

  /** A delete keeps the table's invariants. */
  lemma {:induction false} RetainedKeepsValid(rows: seq<SignRow>, signId: nat, scope: Scope, bound: nat)
    requires UniqueIds(rows) && OnePerUser(rows) && IdsBelow(rows, bound)
    ensures var r := Retained(rows, signId, scope); UniqueIds(r) && OnePerUser(r) && IdsBelow(r, bound)
  {
    if rows != [] {
      TailKeepsInvariants(rows, bound);
      RetainedKeepsValid(rows[1..], signId, scope, bound);
      if !Selects(rows[0], signId, scope) {
        ConsKeepsInvariants(rows[0], Retained(rows[1..], signId, scope), bound);
      }
    }
  }

  /** Dropping the first row keeps the invariants, and no later row shares its id or its user. */
  lemma TailKeepsInvariants(rows: seq<SignRow>, bound: nat)
    requires rows != [] && UniqueIds(rows) && OnePerUser(rows) && IdsBelow(rows, bound)
    ensures var tail := rows[1..]; UniqueIds(tail) && OnePerUser(tail) && IdsBelow(tail, bound)
    ensures forall x :: x in rows[1..] ==>
              x.id != rows[0].id && (rows[0].userId.Some? ==> x.userId != rows[0].userId)
  {
    var tail := rows[1..];
    forall i | 0 <= i < |tail|
      ensures tail[i] == rows[i + 1]
    {
    }
  }

  /** Putting a row with a new id and a new user in front keeps the invariants. */
  lemma ConsKeepsInvariants(head: SignRow, rest: seq<SignRow>, bound: nat)
    requires UniqueIds(rest) && OnePerUser(rest) && IdsBelow(rest, bound) && head.id < bound
    requires forall x :: x in rest ==> x.id != head.id && (head.userId.Some? ==> x.userId != head.userId)
    ensures var r := [head] + rest; UniqueIds(r) && OnePerUser(r) && IdsBelow(r, bound)
  {
    var r := [head] + rest;
    forall i, j | 0 <= i < j < |r|
      ensures r[i].id != r[j].id
      ensures r[i].userId.Some? ==> r[i].userId != r[j].userId
    {
      assert r[j] == rest[j - 1];
      if i == 0 {
        assert rest[j - 1] in rest;
      } else {
        assert r[i] == rest[i - 1];
      }
    }
  }

  lemma UniqueIdsTail(rows: seq<SignRow>)
    requires rows != [] && UniqueIds(rows)
    ensures UniqueIds(rows[1..])
    ensures forall i :: 0 <= i < |rows[1..]| ==> rows[1..][i].id != rows[0].id
  {
    forall i, j | 0 <= i < j < |rows[1..]|
      ensures rows[1..][i].id != rows[1..][j].id
    {
      assert rows[1..][i] == rows[i + 1] && rows[1..][j] == rows[j + 1];
    }
    forall i | 0 <= i < |rows[1..]|
      ensures rows[1..][i].id != rows[0].id
    {
      assert rows[1..][i] == rows[i + 1];
    }
  }

  /** With unique ids, a filtered update or delete touches at most one row. */
  lemma {:induction false} AtMostOneSelected(rows: seq<SignRow>, signId: nat, scope: Scope)
    requires UniqueIds(rows)
    ensures |Selected(rows, signId, scope)| <= 1
  {
    if rows != [] {
      UniqueIdsTail(rows);
      AtMostOneSelected(rows[1..], signId, scope);
      var rest := Selected(rows[1..], signId, scope);
      if |rest| > 0 {
        // the one row the tail selects carries an id the head does not
        assert rest[0] in rows[1..];
      }
    }
  }

  /**
   * With unique ids, a delete removes exactly the one selected row and keeps
   * every other row in order.
   */
  lemma {:induction false} RetainedRemovesOne(rows: seq<SignRow>, signId: nat, scope: Scope, k: nat)
    requires UniqueIds(rows) && k < |rows| && Selects(rows[k], signId, scope)
    ensures Retained(rows, signId, scope) == rows[..k] + rows[k + 1..]
  {
    var tail := rows[1..];
    UniqueIdsTail(rows);
    if k == 0 {
      RetainedNone(tail, signId, scope);
    } else {
      assert rows[0].id != rows[k].id;
      assert tail[k - 1] == rows[k];
      RetainedRemovesOne(tail, signId, scope, k - 1);
      SplitAround(rows, k);
    }
  }

  lemma SplitAround<T>(s: seq<T>, k: nat)
    requires 0 < k < |s|
    ensures s[..k] + s[k + 1..] == [s[0]] + (s[1..][..k - 1] + s[1..][k..])
  {
    assert s[..k] == [s[0]] + s[1..][..k - 1];
    assert s[k + 1..] == s[1..][k..];
  }

  /** A delete that selects no row leaves the table as it is. */
  lemma {:induction false} RetainedNone(rows: seq<SignRow>, signId: nat, scope: Scope)
    requires forall i :: 0 <= i < |rows| ==> !Selects(rows[i], signId, scope)
    ensures Retained(rows, signId, scope) == rows
  {
    if rows != [] {
      RetainedNone(rows[1..], signId, scope);
      assert [rows[0]] + rows[1..] == rows;
    }
  }

  /** Approval is not signed: toggling it leaves every verdict as it was. */
  lemma ApprovalKeepsVerification(scheme: Scheme, row: SignRow, approved: bool)
    ensures Annotate(scheme, Apply(SetApproval(approved), row)).signatureValid == Annotate(scheme, row).signatureValid
    ensures Annotate(scheme, Apply(SetApproval(approved), row)).publicKeyDisplay == Annotate(scheme, row).publicKeyDisplay
    ensures Annotate(scheme, Apply(SetApproval(approved), row)).verificationError == Annotate(scheme, row).verificationError
  {
  }

  /** The message of an anonymous sign is not signed: clearing it leaves the verdict as it was. */
  lemma ClearingAnonymousMessageKeepsVerification(scheme: Scheme, row: SignRow)
    requires row.isAnonymous
    ensures Annotate(scheme, Apply(ClearMessage, row)).signatureValid == Annotate(scheme, row).signatureValid
    ensures Annotate(scheme, Apply(ClearMessage, row)).verificationError == Annotate(scheme, row).verificationError
  {
    CryptoUtils.VerifySignAnonymousIgnoresMessage(scheme, row.Stored(), None);
  }

  /**
   * With unique ids, `.single()` after an update succeeds exactly when some
   * row matches the filters, and then returns that row updated.
   */
  lemma UpdateFindsRow(rows: seq<SignRow>, signId: nat, scope: Scope, change: Change)
    requires UniqueIds(rows)
    ensures SingleRow(Selected(rows, signId, scope), change).Success?
            <==> exists i :: 0 <= i < |rows| && Selects(rows[i], signId, scope)
    ensures forall i :: 0 <= i < |rows| && Selects(rows[i], signId, scope) ==>
              SingleRow(Selected(rows, signId, scope), change) == Success(Apply(change, rows[i]))
  {
    var touched := Selected(rows, signId, scope);
    AtMostOneSelected(rows, signId, scope);
    if |touched| == 1 {
      assert touched[0] in rows;
    }
    forall i | 0 <= i < |rows| && Selects(rows[i], signId, scope)
      ensures touched == [rows[i]]
    {
      assert rows[i] in rows;
    }
  }

  /**
   * A user who deletes their own sign has no sign left, so the third gate of
   * `canUserCreateSign` lets them sign again. This holds for both filters
   * `deleteSign` may use: the admin's (any owner) and everyone else's (own rows).
   */
  lemma DeletingOwnSignFreesUser(rows: seq<SignRow>, k: nat, userId: string, scope: Scope)
    requires OnePerUser(rows) && k < |rows| && rows[k].userId == Some(userId)
    requires scope == AnyOwner || scope == OwnedBy(userId)
    ensures SignsOf(Retained(rows, rows[k].id, scope), userId) == []
  {
    var kept := Retained(rows, rows[k].id, scope);
    forall i | 0 <= i < |kept|
      ensures kept[i].userId != Some(userId)
    {
      assert kept[i] in rows;
      var j :| 0 <= j < |rows| && rows[j] == kept[i];
      // row j survived, so it is not row k, and row k is the user's only row
      assert j != k;
    }
    NoSignMeansNoRow(kept, userId);
  }
}
