/** The owner-or-admin check shared by the work edit and delete services. */
module Permission {
  import opened Common

  /** `isAuthorized`: returns normally for an admin or for the owner of the
      resource, and fails with Forbidden for anyone else. It touches no
      state. */
  function IsAuthorized(targetCreatorId: int, userId: int, role: Role): (r: Outcome)
    ensures r == Pass <==> role == Admin || targetCreatorId == userId
    ensures r != Pass ==> r == Fail(Forbidden)
  {
    var isAdmin := role == Admin;
    var isOwner := targetCreatorId == userId;
    if isAdmin || isOwner then Pass else Fail(Forbidden)
  }
}
