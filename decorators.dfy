/**
 * The access-control wrappers of open-hackathon/src/hackathon/decorators.py.
 * Each wrapper runs its checks in a fixed order, answers with the first
 * failing check's error, and otherwise calls the handler with the same
 * arguments. A check's outcome comes from the request environment
 * (`passes`); the wrapper's run records which checks it evaluated.
 */
module Decorators {
  import opened Wrappers
  import opened HackathonResponse
  import HackManager

  /** `user_manager.validate_login`, `validate_hackathon_name`, `validate_admin_privilege`. */
  datatype Check = ValidateLogin | ValidateHackathonName | ValidateAdminPrivilege

  /** The wrapper's answer: the handler's own result, or the error it stopped with. */
  datatype Guarded<T> = Forward(result: T) | Reject(response: Response)

  /** The checks evaluated, in order, and the answer. */
  datatype Run<T> = Run(evaluated: seq<Check>, outcome: Guarded<T>)

  /** The error each check answers with when it fails. */
  function FailureResponse(c: Check): Response {
    match c
    case ValidateLogin => Unauthorized("login required")
    case ValidateHackathonName => BadRequest("hackathon name invalid")
    case ValidateAdminPrivilege => AccessDenied("access denied")
  }

  /**
   * What a guard over the checks `order` promises: it evaluates a non-empty
   * prefix of `order`, every evaluated check but the last passed, it
   * forwards exactly when all of `order` passed (then it evaluated them all
   * and returns the handler's result unchanged), and otherwise it answers
   * with the error of the last check it evaluated, which failed.
   */
  ghost predicate ShortCircuits<A, T>(order: seq<Check>, passes: Check -> bool, handler: A -> T, args: A, run: Run<T>) {
    && 0 < |run.evaluated| <= |order|
    && run.evaluated == order[..|run.evaluated|]
    && (forall i :: 0 <= i < |run.evaluated| - 1 ==> passes(run.evaluated[i]))
    && (run.outcome.Forward? <==> forall c :: c in order ==> passes(c))
    && (run.outcome.Forward? ==> run.evaluated == order && run.outcome.result == handler(args))
    && (run.outcome.Reject? ==>
          && !passes(run.evaluated[|run.evaluated| - 1])
          && run.outcome.response == FailureResponse(run.evaluated[|run.evaluated| - 1]))
  }

  /** `token_required`. */
  function TokenRequired<A, T>(handler: A -> T, passes: Check -> bool, args: A): (run: Run<T>)
    ensures ShortCircuits([ValidateLogin], passes, handler, args, run)
  {
    if !passes(ValidateLogin) then Run([ValidateLogin], Reject(FailureResponse(ValidateLogin)))
    else Run([ValidateLogin], Forward(handler(args)))
  }

  /** `hackathon_name_required`. */
  function HackathonNameRequired<A, T>(handler: A -> T, passes: Check -> bool, args: A): (run: Run<T>)
    ensures ShortCircuits([ValidateHackathonName], passes, handler, args, run)
  {
    if !passes(ValidateHackathonName) then Run([ValidateHackathonName], Reject(FailureResponse(ValidateHackathonName)))
    else Run([ValidateHackathonName], Forward(handler(args)))
  }

  const ADMIN_ORDER: seq<Check> := [ValidateLogin, ValidateHackathonName, ValidateAdminPrivilege]

  /** `admin_privilege_required`: login, then the hackathon name, then the privilege. */
  function AdminPrivilegeRequired<A, T>(handler: A -> T, passes: Check -> bool, args: A): (run: Run<T>)
    ensures ShortCircuits(ADMIN_ORDER, passes, handler, args, run)
  {
    if !passes(ValidateLogin) then
      Run([ValidateLogin], Reject(FailureResponse(ValidateLogin)))
    else if !passes(ValidateHackathonName) then
      Run([ValidateLogin, ValidateHackathonName], Reject(FailureResponse(ValidateHackathonName)))
    else if !passes(ValidateAdminPrivilege) then
      Run(ADMIN_ORDER, Reject(FailureResponse(ValidateAdminPrivilege)))
    else
      Run(ADMIN_ORDER, Forward(handler(args)))
  }

  /**
   * For any guard that keeps its promise over the admin order: the
   * privilege is checked exactly when login and name both passed, and the
   * error is decided by the first check that fails.
   */
  lemma AdminOrderDecidesError<A, T>(passes: Check -> bool, handler: A -> T, args: A, run: Run<T>)
    requires ShortCircuits(ADMIN_ORDER, passes, handler, args, run)
    ensures ValidateHackathonName in run.evaluated <==> passes(ValidateLogin)
    ensures ValidateAdminPrivilege in run.evaluated <==> passes(ValidateLogin) && passes(ValidateHackathonName)
    ensures !passes(ValidateLogin) ==> run.outcome == Reject(Unauthorized("login required"))
    ensures passes(ValidateLogin) && !passes(ValidateHackathonName) ==>
      run.outcome == Reject(BadRequest("hackathon name invalid"))
    ensures passes(ValidateLogin) && passes(ValidateHackathonName) && !passes(ValidateAdminPrivilege) ==>
      run.outcome == Reject(AccessDenied("access denied"))
  {
    var n := |run.evaluated|;
    assert n == 1 || n == 2 || n == 3;
    assert run.evaluated[0] == ValidateLogin;
    if n >= 2 {
      assert run.evaluated[1] == ValidateHackathonName;
    }
    if n == 3 {
      assert run.evaluated[2] == ValidateAdminPrivilege;
    }
    if n < 3 {
      assert ValidateAdminPrivilege !in run.evaluated;
      assert run.outcome.Reject?;
    }
    if n < 2 {
      assert ValidateHackathonName !in run.evaluated;
    }
  }

  /** The checks of `admin_privilege_required` answered by a store and a request. */
  function StoreChecks(db: HackManager.Db, loginUser: Option<int>, header: Option<string>): Check -> bool {
    (c: Check) =>
      match c
      case ValidateLogin => loginUser.Some?
      case ValidateHackathonName => HackManager.ValidateHackathonName(db, header).Some?
      case ValidateAdminPrivilege =>
        && loginUser.Some?
        && HackManager.ValidateHackathonName(db, header).Some?
        && HackManager.ValidateAdminPrivilege(db, loginUser.value, HackManager.ValidateHackathonName(db, header).value.id)
  }

  /**
   * Over a store: an admin-only handler runs exactly when someone is logged
   * in, the header names a hackathon, and that user administers that
   * hackathon or all hackathons.
   */
  lemma AdminHandlerRunsIffAdmin<A, T>(db: HackManager.Db, loginUser: Option<int>, header: Option<string>,
                                       handler: A -> T, args: A)
    ensures AdminPrivilegeRequired(handler, StoreChecks(db, loginUser, header), args).outcome.Forward? <==>
      && loginUser.Some?
      && header.Some?
      && HackManager.GetHackathonByName(db, HackManager.Str(header.value)).Some?
      && (|| HackManager.Grants(db.adminRels, loginUser.value, HackManager.ALL_HACKATHONS)
          || HackManager.Grants(db.adminRels, loginUser.value,
                                HackManager.GetHackathonByName(db, HackManager.Str(header.value)).value.id))
  {
    var passes := StoreChecks(db, loginUser, header);
    assert passes(ValidateLogin) == loginUser.Some?;
    assert passes(ValidateHackathonName) == HackManager.ValidateHackathonName(db, header).Some?;
  }
}
