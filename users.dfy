/** The user checks of the agenda service.  The user repository is reduced
    to a table from user id to role; a lookup by id, or by id and role, is a
    membership test on that table. */
module Users {
  import opened Errors

  datatype UserType = Candidate | Interviewer

  type UserId = int

  /** Every known user and its role (roles never change). */
  type UserTable = map<UserId, UserType>

  /** `validatesUserInput`: the id is given and names a known user. */
  function ValidatesUserInput(users: UserTable, userId: Option<UserId>): (o: Outcome)
    ensures o.Pass? <==> userId.Some? && userId.value in users
    ensures o == Fail(IllegalArgument) <==> userId.None?
    ensures o == Fail(NotFound) <==> userId.Some? && userId.value !in users
  {
    match userId
    case None => Fail(IllegalArgument)
    case Some(id) => if id in users then Pass else Fail(NotFound)
  }

  /** `validatesUserInputWithUserType`: the id is given and names a user with
      the expected role; an unknown id and a known id with the other role are
      the same `NotFound`. */
  function ValidatesUserInputWithUserType(users: UserTable, userId: Option<UserId>, userType: UserType): (o: Outcome)
    ensures o.Pass? <==> userId.Some? && userId.value in users && users[userId.value] == userType
    ensures o == Fail(IllegalArgument) <==> userId.None?
    ensures o == Fail(NotFound) <==> userId.Some? && (userId.value !in users || users[userId.value] != userType)
  {
    match userId
    case None => Fail(IllegalArgument)
    case Some(id) => if id in users && users[id] == userType then Pass else Fail(NotFound)
  }

  /** The checks `validatesUserInputWithUserType` runs over a list, in order. */
  function TypeChecks(users: UserTable, userIds: seq<Option<UserId>>, userType: UserType): (checks: seq<Outcome>)
    ensures |checks| == |userIds|
    ensures forall i :: 0 <= i < |userIds| ==> checks[i] == ValidatesUserInputWithUserType(users, userIds[i], userType)
  {
    seq(|userIds|, i requires 0 <= i < |userIds| => ValidatesUserInputWithUserType(users, userIds[i], userType))
  }

  /** `validatesUsersInputWithUserType`: a missing list is an illegal
      argument; otherwise every id is checked in order, stopping at the first
      that throws.  An empty list passes. */
  function ValidatesUsersInputWithUserType(users: UserTable, userIds: Option<seq<Option<UserId>>>, userType: UserType): Outcome
  {
    match userIds
    case None => Fail(IllegalArgument)
    case Some(ids) => FirstFailure(TypeChecks(users, ids, userType))
  }

  /** The list check passes exactly when the list is given and every id in it
      is a known user of the expected role. */
  lemma UsersCheckPassesIffAllHaveType(users: UserTable, userIds: Option<seq<Option<UserId>>>, userType: UserType)
    ensures ValidatesUsersInputWithUserType(users, userIds, userType).Pass? <==>
            userIds.Some? &&
            forall i :: 0 <= i < |userIds.value| ==>
              userIds.value[i].Some? && userIds.value[i].value in users && users[userIds.value[i].value] == userType
  {
    if userIds.Some? {
      FirstFailurePassesIffAll(TypeChecks(users, userIds.value, userType));
    }
  }

  /** On a given list, the list check throws what the first failing id
      throws: `IllegalArgument` for a missing id, `NotFound` for an unknown id
      or a wrong role. */
  lemma UsersCheckFailsAtFirstBadId(users: UserTable, userIds: seq<Option<UserId>>, userType: UserType, k: nat)
    requires k < |userIds|
    requires forall j :: 0 <= j < k ==> userIds[j].Some? && userIds[j].value in users && users[userIds[j].value] == userType
    requires !(userIds[k].Some? && userIds[k].value in users && users[userIds[k].value] == userType)
    ensures ValidatesUsersInputWithUserType(users, Some(userIds), userType) ==
            Fail(if userIds[k].None? then IllegalArgument else NotFound)
  {
    FirstFailureIsFirst(TypeChecks(users, userIds, userType), k);
  }
}
