/**
 * The invitation service: inviting, removing, listing, accepting and
 * declining. Each operation runs its checks in a fixed order and the first
 * failing check decides the error; only when every check passes does the
 * store change.
 */
module InvitationService {
  import opened Results
  import opened Errors
  import Users
  import opened WorkspaceRepository

  const NotMemberOfWorkspace := AppError(403, Forbidden, "You are not a member of this workspace")
  const WorkspaceMissing := AppError(404, WorkspaceNotFound, "Workspace not found")
  const InviteeMissing := AppError(404, UserNotFound, "User with that email not found")
  const InviteeAlreadyMember := AppError(409, AlreadyExists, "User is already a member of this workspace")
  const InvitationAlreadyPending := AppError(409, AlreadyExists, "User already has a pending invitation to this workspace")

  const OnlyOwnersRemove := AppError(403, Forbidden, "Only workspace owners can remove members")
  const TargetNotMember := AppError(404, NotFound, "User is not a member of this workspace")
  const OwnerNotRemovable := AppError(403, Forbidden, "Cannot remove the workspace owner")

  const InvitationMissing := AppError(404, NotFound, "Invitation not found")
  const NotYourInvitation := AppError(403, Forbidden, "This invitation is not for you")
  const AlreadyProcessed := AppError(409, AlreadyExists, "Invitation has already been processed")
  const AlreadyMemberOnAccept := AppError(409, AlreadyExists, "You are already a member of this workspace")

  /** What reaches the client when a repository write throws: the generic 500 of the error wrapper. */
  const StoreFailure := AppError(500, InternalServerError, "An unexpected error occurred")

  /** A successful operation: the new store and the message returned to the caller. */
  datatype Done = Done(store: Store, message: string)

  // ------------------------------------------------------- ordered checks

  /** One precondition of an operation and the error it raises when it does not hold. */
  datatype Check = Check(passes: bool, error: AppError)

  /** The error of the first failing check, if any. */
  function FirstFailure(checks: seq<Check>): (r: Option<AppError>)
    ensures r.None? <==> forall i :: 0 <= i < |checks| ==> checks[i].passes
    ensures r.Some? ==> exists i :: 0 <= i < |checks| && !checks[i].passes && checks[i].error == r.value
                                    && forall j :: 0 <= j < i ==> checks[j].passes
  {
    if |checks| == 0 then None
    else if !checks[0].passes then Some(checks[0].error)
    else
      var rest := FirstFailure(checks[1..]);
      FirstFailureAfterPass(checks, rest);
      rest
  }

  /** Lifts the first-failure property from the tail to the whole list when its head passes. */
  lemma FirstFailureAfterPass(checks: seq<Check>, rest: Option<AppError>)
    requires |checks| > 0 && checks[0].passes
    requires rest.None? <==> forall i :: 0 <= i < |checks[1..]| ==> checks[1..][i].passes
    requires rest.Some? ==> exists i :: 0 <= i < |checks[1..]| && !checks[1..][i].passes && checks[1..][i].error == rest.value
                                        && forall j :: 0 <= j < i ==> checks[1..][j].passes
    ensures rest.None? <==> forall i :: 0 <= i < |checks| ==> checks[i].passes
    ensures rest.Some? ==> exists i :: 0 <= i < |checks| && !checks[i].passes && checks[i].error == rest.value
                                       && forall j :: 0 <= j < i ==> checks[j].passes
  {
    assert forall i :: 1 <= i < |checks| ==> checks[i] == checks[1..][i - 1];
    if rest.Some? {
      var i :| 0 <= i < |checks[1..]| && !checks[1..][i].passes && checks[1..][i].error == rest.value
               && forall j :: 0 <= j < i ==> checks[1..][j].passes;
      assert forall j :: 0 <= j < i + 1 ==> checks[j].passes by {
        forall j | 0 <= j < i + 1 ensures checks[j].passes {
          if j > 0 { assert checks[j] == checks[1..][j - 1]; }
        }
      }
      assert checks[i + 1] == checks[1..][i];
    }
  }

  /** One step of the search from position `k`: a passing check defers to the ones after it. */
  lemma FirstFailureFrom(checks: seq<Check>, k: nat)
    requires k < |checks|
    ensures FirstFailure(checks[k..]) == if checks[k].passes then FirstFailure(checks[k + 1..]) else Some(checks[k].error)
  {
    assert checks[k..][1..] == checks[k + 1..];
  }

  /** The search over a whole list, unrolled from its first position. */
  lemma FirstFailureUnrolled(checks: seq<Check>)
    ensures |checks| == 0 ==> FirstFailure(checks) == None
    ensures |checks| > 0 ==> FirstFailure(checks) == if checks[0].passes then FirstFailure(checks[1..]) else Some(checks[0].error)
  {
    assert checks[0..] == checks;
    if |checks| > 0 {
      FirstFailureFrom(checks, 0);
    }
  }

  // ------------------------------------------------------------- invite

  /** The checks of `inviteMember`, in the order the service performs them. */
  function InviteChecks(s: Store, w: WorkspaceId, inviter: UserId, inviteeEmail: string): seq<Check> {
    var invitee := Users.FindByEmail(s.users, inviteeEmail);
    [ Check((w, inviter) in s.members, NotMemberOfWorkspace),
      Check(w in s.workspaces, WorkspaceMissing),
      Check(invitee.Some?, InviteeMissing),
      Check(invitee.None? || (w, invitee.value.id) !in s.members, InviteeAlreadyMember),
      Check(invitee.None? || FindPendingInvitation(s, w, invitee.value.id).None?, InvitationAlreadyPending) ]
  }

  /**
   * `inviteMember`: any member, owner or not, may invite a registered user
   * who is neither a member nor already invited; the invitation is PENDING.
   */
  function InviteMember(s: Store, w: WorkspaceId, inviter: UserId, inviteeEmail: string, now: int)
    : (r: Result<Done, AppError>)
    ensures r.Ok? <==> (w, inviter) in s.members && w in s.workspaces
                       && Users.FindByEmail(s.users, inviteeEmail).Some?
                       && (w, Users.FindByEmail(s.users, inviteeEmail).value.id) !in s.members
                       && FindPendingInvitation(s, w, Users.FindByEmail(s.users, inviteeEmail).value.id).None?
    ensures r.Ok? ==> r.value.store == CreateInvitation(s, w, inviter, Users.FindByEmail(s.users, inviteeEmail).value.id, now)
    ensures r.Ok? ==> r.value.message == "Invitation sent successfully"
  {
    if (w, inviter) !in s.members then Err(NotMemberOfWorkspace)
    else if w !in s.workspaces then Err(WorkspaceMissing)
    else
      var invitee := Users.FindByEmail(s.users, inviteeEmail);
      if invitee.None? then Err(InviteeMissing)
      else if (w, invitee.value.id) in s.members then Err(InviteeAlreadyMember)
      else if FindPendingInvitation(s, w, invitee.value.id).Some? then Err(InvitationAlreadyPending)
      else Ok(Done(CreateInvitation(s, w, inviter, invitee.value.id, now), "Invitation sent successfully"))
  }

  /** The first failing check, in the order the service runs them, decides the error. */
  lemma InviteFollowsCheckOrder(s: Store, w: WorkspaceId, inviter: UserId, inviteeEmail: string, now: int)
    ensures var f := FirstFailure(InviteChecks(s, w, inviter, inviteeEmail));
            var r := InviteMember(s, w, inviter, inviteeEmail, now);
            (f.Some? ==> r == Err(f.value)) && (f.None? ==> r.Ok?)
  {
    var cs := InviteChecks(s, w, inviter, inviteeEmail);
    FirstFailureUnrolled(cs);
    FirstFailureFrom(cs, 1);
    FirstFailureFrom(cs, 2);
    FirstFailureFrom(cs, 3);
    FirstFailureFrom(cs, 4);
    assert cs[5..] == [];
    if Users.FindByEmail(s.users, inviteeEmail).None? {
      assert !cs[2].passes;
    }
  }

  /** Membership is checked first: a non-member is refused even when the workspace does not exist. */
  lemma NonMemberInviterForbidden(s: Store, w: WorkspaceId, inviter: UserId, inviteeEmail: string, now: int)
    requires (w, inviter) !in s.members
    ensures InviteMember(s, w, inviter, inviteeEmail, now) == Err(NotMemberOfWorkspace)
  {
  }

  /**
   * Because membership is checked before existence, and every membership
   * belongs to an existing workspace, "Workspace not found" is never raised
   * on a consistent store.
   */
  lemma WorkspaceNotFoundUnreachable(s: Store, w: WorkspaceId, inviter: UserId, inviteeEmail: string, now: int)
    requires Valid(s)
    ensures InviteMember(s, w, inviter, inviteeEmail, now) != Err(WorkspaceMissing)
  {
  }

  /** An accepted invitation keeps every store invariant. */
  lemma InviteMemberPreservesValid(s: Store, w: WorkspaceId, inviter: UserId, inviteeEmail: string, now: int)
    requires Valid(s)
    requires InviteMember(s, w, inviter, inviteeEmail, now).Ok?
    ensures Valid(InviteMember(s, w, inviter, inviteeEmail, now).value.store)
  {
    var invitee := Users.FindByEmail(s.users, inviteeEmail).value;
    var r := InviteMember(s, w, inviter, inviteeEmail, now).value.store;
    assert r.invitations == s.invitations + [Invitation(s.nextId, w, inviter, invitee.id, Pending, now)];
    AppendFreshPairKeepsSinglePending(s.invitations, Invitation(s.nextId, w, inviter, invitee.id, Pending, now));
  }

  /** A new pending invitation for a pair with nothing pending keeps one pending invitation per pair. */
  lemma AppendFreshPairKeepsSinglePending(invs: seq<Invitation>, x: Invitation)
    requires SinglePending(invs)
    requires forall i :: 0 <= i < |invs| ==> !IsPendingFor(invs[i], x.workspaceId, x.inviteeId)
    ensures SinglePending(invs + [x])
  {
    var r := invs + [x];
    forall i, j | 0 <= i < j < |r| && r[i].status == Pending && r[j].status == Pending
      ensures PairOf(r[i]) != PairOf(r[j])
    {
      if j == |invs| {
        assert r[i] == invs[i];
        assert !IsPendingFor(invs[i], x.workspaceId, x.inviteeId);
      }
    }
  }

  /** A second identical invitation is refused while the first is pending. */
  lemma InviteTwiceConflicts(s: Store, w: WorkspaceId, inviter: UserId, inviteeEmail: string, now1: int, now2: int)
    requires InviteMember(s, w, inviter, inviteeEmail, now1).Ok?
    ensures var s1 := InviteMember(s, w, inviter, inviteeEmail, now1).value.store;
            InviteMember(s1, w, inviter, inviteeEmail, now2) == Err(InvitationAlreadyPending)
  {
    var s1 := InviteMember(s, w, inviter, inviteeEmail, now1).value.store;
    var invitee := Users.FindByEmail(s.users, inviteeEmail).value;
    assert s1.invitations[|s.invitations|] == Invitation(s.nextId, w, inviter, invitee.id, Pending, now1);
    assert FindPendingInvitation(s1, w, invitee.id).Some?;
  }

  // ------------------------------------------------------------- remove

  /** The checks of `removeMember`, in order. */
  function RemoveChecks(s: Store, w: WorkspaceId, memberId: UserId, currentUserId: UserId): seq<Check> {
    [ Check(FindMembership(s, currentUserId, w) == Some(Owner), OnlyOwnersRemove),
      Check(FindMembership(s, memberId, w).Some?, TargetNotMember),
      Check(FindMembership(s, memberId, w) != Some(Owner), OwnerNotRemovable) ]
  }

  /** `removeMember`: only the owner may remove, and never an owner. */
  function RemoveMember(s: Store, w: WorkspaceId, memberId: UserId, currentUserId: UserId): (r: Result<Done, AppError>)
    ensures r.Ok? <==> (w, currentUserId) in s.members && s.members[(w, currentUserId)] == Owner
                       && (w, memberId) in s.members && s.members[(w, memberId)] == Member
    ensures r.Ok? ==> r.value.store.members.Keys == s.members.Keys - {(w, memberId)}
    ensures r.Ok? ==> forall k :: k in r.value.store.members ==> r.value.store.members[k] == s.members[k]
    ensures r.Ok? ==> r.value.store == s.(members := r.value.store.members)
    ensures r.Ok? ==> r.value.message == "Member removed successfully"
  {
    var remover := FindMembership(s, currentUserId, w);
    if remover.None? || remover.value != Owner then Err(OnlyOwnersRemove)
    else
      var target := FindMembership(s, memberId, w);
      if target.None? then Err(TargetNotMember)
      else if target.value == Owner then Err(OwnerNotRemovable)
      else Ok(Done(DeleteMember(s, w, memberId).value, "Member removed successfully"))
  }

  /** The first failing check decides the error. */
  lemma RemoveFollowsCheckOrder(s: Store, w: WorkspaceId, memberId: UserId, currentUserId: UserId)
    ensures var f := FirstFailure(RemoveChecks(s, w, memberId, currentUserId));
            var r := RemoveMember(s, w, memberId, currentUserId);
            (f.Some? ==> r == Err(f.value)) && (f.None? ==> r.Ok?)
  {
    var cs := RemoveChecks(s, w, memberId, currentUserId);
    FirstFailureUnrolled(cs);
    FirstFailureFrom(cs, 1);
    FirstFailureFrom(cs, 2);
    assert cs[3..] == [];
  }

  /** Every OWNER membership survives a removal. */
  lemma RemoveKeepsOwners(s: Store, w: WorkspaceId, memberId: UserId, currentUserId: UserId)
    requires RemoveMember(s, w, memberId, currentUserId).Ok?
    ensures var m := RemoveMember(s, w, memberId, currentUserId).value.store.members;
            forall k :: k in s.members && s.members[k] == Owner ==> k in m && m[k] == Owner
  {
  }

  /** A removal keeps every store invariant. */
  lemma RemoveMemberPreservesValid(s: Store, w: WorkspaceId, memberId: UserId, currentUserId: UserId)
    requires Valid(s)
    requires RemoveMember(s, w, memberId, currentUserId).Ok?
    ensures Valid(RemoveMember(s, w, memberId, currentUserId).value.store)
  {
    var r := RemoveMember(s, w, memberId, currentUserId).value.store;
    assert r == s.(members := s.members - {(w, memberId)});
    RemoveNonOwnerKeepsOwners(s, (w, memberId));
  }

  /** Dropping a row that is not an OWNER keeps one owner in every workspace. */
  lemma RemoveNonOwnerKeepsOwners(s: Store, key: MemberKey)
    requires OwnerUnique(s.members) && OwnerPresent(s)
    requires key in s.members && s.members[key] != Owner
    ensures var r := s.(members := s.members - {key});
      OwnerUnique(r.members) && OwnerPresent(r)
  {
    var r := s.(members := s.members - {key});
    forall x | x in r.workspaces
      ensures exists u :: (x, u) in r.members && r.members[(x, u)] == Owner
    {
      var u :| (x, u) in s.members && s.members[(x, u)] == Owner;
      assert (x, u) != key;
      assert (x, u) in r.members;
    }
  }

  /** After a removal the workspace no longer appears in the removed user's list. */
  lemma RemovedMemberLosesWorkspace(s: Store, w: WorkspaceId, memberId: UserId, currentUserId: UserId)
    requires Valid(s)
    requires RemoveMember(s, w, memberId, currentUserId).Ok?
    ensures s.workspaces[w] !in FindAllByUser(RemoveMember(s, w, memberId, currentUserId).value.store, memberId)
  {
    var r := RemoveMember(s, w, memberId, currentUserId).value.store;
    forall x | x in FindAllByUser(r, memberId)
      ensures x.id != w
    {
      var v :| v in r.workspaces && (v, memberId) in r.members && r.workspaces[v] == x;
      assert x.id == v;
    }
  }

  // ------------------------------------------------------------- pending

  /** `getPendingInvitations`: the user's PENDING invitations with their workspace and inviter, newest first. */
  function GetPendingInvitations(s: Store, u: UserId): (r: seq<PendingInvitation>)
    ensures forall i :: 0 <= i < |r| ==> r[i].invitation in s.invitations && IsPendingFor(r[i].invitation, r[i].invitation.workspaceId, u)
    ensures forall x :: x in s.invitations && x.inviteeId == u && x.status == Pending ==>
              exists i :: 0 <= i < |r| && r[i].invitation == x
    ensures forall i, j :: 0 <= i < j < |r| ==> r[i].invitation.createdAt >= r[j].invitation.createdAt
    ensures |r| == |PendingFor(s.invitations, u)|
    ensures forall i :: 0 <= i < |r| ==> r[i] == ListingOf(s, r[i].invitation)
  {
    FindPendingInvitationsByUser(s, u)
  }

  // ------------------------------------------------------ accept, decline

  /** The checks of `declineInvitation`, in order: the first three of accepting. */
  function DeclineChecks(s: Store, id: InvitationId, u: UserId): seq<Check> {
    var inv := FindInvitationById(s, id);
    [ Check(inv.Some?, InvitationMissing),
      Check(inv.None? || inv.value.inviteeId == u, NotYourInvitation),
      Check(inv.None? || inv.value.status == Pending, AlreadyProcessed) ]
  }

  function AcceptChecks(s: Store, id: InvitationId, u: UserId): seq<Check> {
    var inv := FindInvitationById(s, id);
    [ Check(inv.Some?, InvitationMissing),
      Check(inv.None? || inv.value.inviteeId == u, NotYourInvitation),
      Check(inv.None? || inv.value.status == Pending, AlreadyProcessed),
      Check(inv.None? || (inv.value.workspaceId, u) !in s.members, AlreadyMemberOnAccept) ]
  }

  /**
   * `acceptInvitation`: only the invitee may accept, only a PENDING
   * invitation, and only when not already a member; the status change and
   * the new MEMBER membership happen together.
   */
  function AcceptInvitation(s: Store, id: InvitationId, u: UserId): (r: Result<Done, AppError>)
    ensures r.Ok? ==> FindInvitationById(s, id).Some?
    ensures r.Ok? ==> var inv := FindInvitationById(s, id).value;
                      && inv.inviteeId == u && inv.status == Pending && (inv.workspaceId, u) !in s.members
                      && r.value.store.members == s.members[(inv.workspaceId, u) := Member]
                      && r.value.store.invitations == SetStatus(s.invitations, id, Accepted)
                      && r.value.store.workspaces == s.workspaces && r.value.store.users == s.users
    ensures r.Ok? ==> r.value.message == "Invitation accepted successfully"
  {
    var inv := FindInvitationById(s, id);
    if inv.None? then Err(InvitationMissing)
    else if inv.value.inviteeId != u then Err(NotYourInvitation)
    else if inv.value.status != Pending then Err(AlreadyProcessed)
    else if FindMembership(s, u, inv.value.workspaceId).Some? then Err(AlreadyMemberOnAccept)
    else
      var tx := AcceptInvitationTx(s, id, u, inv.value.workspaceId);
      if tx.None? then Err(StoreFailure) else Ok(Done(tx.value, "Invitation accepted successfully"))
  }

  /**
   * The first failing check decides the error; when all pass, the only
   * other outcome is the transaction being refused by the store.
   */
  lemma AcceptFollowsCheckOrder(s: Store, id: InvitationId, u: UserId)
    ensures var f := FirstFailure(AcceptChecks(s, id, u));
            var r := AcceptInvitation(s, id, u);
            (f.Some? ==> r == Err(f.value)) && (f.None? ==> r.Ok? || r == Err(StoreFailure))
  {
    var cs := AcceptChecks(s, id, u);
    FirstFailureUnrolled(cs);
    FirstFailureFrom(cs, 1);
    FirstFailureFrom(cs, 2);
    FirstFailureFrom(cs, 3);
    assert cs[4..] == [];
  }

  /** On a consistent store the transaction never fails once the checks pass. */
  lemma AcceptNeverFailsInStore(s: Store, id: InvitationId, u: UserId)
    requires Valid(s)
    ensures AcceptInvitation(s, id, u) != Err(StoreFailure)
  {
    var inv := FindInvitationById(s, id);
    if inv.Some? {
      var k :| 0 <= k < |s.invitations| && s.invitations[k] == inv.value;
      assert inv.value.workspaceId in s.workspaces;
    }
  }

  /** An acceptance keeps every store invariant. */
  lemma AcceptInvitationPreservesValid(s: Store, id: InvitationId, u: UserId)
    requires Valid(s)
    requires AcceptInvitation(s, id, u).Ok?
    ensures Valid(AcceptInvitation(s, id, u).value.store)
  {
    var inv := FindInvitationById(s, id).value;
    var mid := s.(invitations := SetStatus(s.invitations, id, Accepted));
    SetStatusPreservesValid(s, id, Accepted);
    AddMemberPreservesValid(mid, (inv.workspaceId, u));
  }

  /** Adding a MEMBER under a fresh key of an existing workspace keeps every store invariant. */
  lemma AddMemberPreservesValid(s: Store, key: MemberKey)
    requires Valid(s) && key.0 in s.workspaces && key !in s.members
    ensures Valid(s.(members := s.members[key := Member]))
  {
    AddMemberKeepsOwners(s, key);
  }

  /** The new member sees the workspace in their list. */
  lemma AcceptGrantsWorkspace(s: Store, id: InvitationId, u: UserId)
    requires AcceptInvitation(s, id, u).Ok?
    ensures var w := FindInvitationById(s, id).value.workspaceId;
            w in s.workspaces && s.workspaces[w] in FindAllByUser(AcceptInvitation(s, id, u).value.store, u)
  {
  }

  /** After a successful acceptance the same invitation is reported as already processed. */
  lemma AcceptTwiceConflicts(s: Store, id: InvitationId, u: UserId)
    requires AcceptInvitation(s, id, u).Ok?
    ensures AcceptInvitation(AcceptInvitation(s, id, u).value.store, id, u) == Err(AlreadyProcessed)
  {
    FirstWithIdAfterSetStatus(s.invitations, id, Accepted);
  }

  /** An invitation that was just sent can be accepted by its invitee, who becomes a MEMBER. */
  lemma InviteThenAccept(s: Store, w: WorkspaceId, inviter: UserId, inviteeEmail: string, now: int)
    requires Valid(s)
    requires InviteMember(s, w, inviter, inviteeEmail, now).Ok?
    ensures var s1 := InviteMember(s, w, inviter, inviteeEmail, now).value.store;
            var invitee := Users.FindByEmail(s.users, inviteeEmail).value.id;
            && AcceptInvitation(s1, s.nextId, invitee).Ok?
            && AcceptInvitation(s1, s.nextId, invitee).value.store.members[(w, invitee)] == Member
  {
    var s1 := InviteMember(s, w, inviter, inviteeEmail, now).value.store;
    var invitee := Users.FindByEmail(s.users, inviteeEmail).value.id;
    InviteMemberPreservesValid(s, w, inviter, inviteeEmail, now);
    var k := |s.invitations|;
    assert s1.invitations[k] == Invitation(s.nextId, w, inviter, invitee, Pending, now);
    FindInvitationByIdOfMember(s1, k);
  }

  /** `declineInvitation`: the same checks as accepting, minus the membership one; memberships never change. */
  function DeclineInvitation(s: Store, id: InvitationId, u: UserId): (r: Result<Done, AppError>)
    ensures r.Ok? ==> r.value.store == s.(invitations := SetStatus(s.invitations, id, Declined))
    ensures r.Ok? ==> r.value.message == "Invitation declined"
  {
    var inv := FindInvitationById(s, id);
    if inv.None? then Err(InvitationMissing)
    else if inv.value.inviteeId != u then Err(NotYourInvitation)
    else if inv.value.status != Pending then Err(AlreadyProcessed)
    else Ok(Done(DeclineInvitationTx(s, id).value, "Invitation declined"))
  }

  /** The first failing check decides the error. */
  lemma DeclineFollowsCheckOrder(s: Store, id: InvitationId, u: UserId)
    ensures var f := FirstFailure(DeclineChecks(s, id, u));
            var r := DeclineInvitation(s, id, u);
            (f.Some? ==> r == Err(f.value)) && (f.None? ==> r.Ok?)
  {
    var cs := DeclineChecks(s, id, u);
    FirstFailureUnrolled(cs);
    FirstFailureFrom(cs, 1);
    FirstFailureFrom(cs, 2);
    assert cs[3..] == [];
  }

  /** A declining keeps every store invariant. */
  lemma DeclineInvitationPreservesValid(s: Store, id: InvitationId, u: UserId)
    requires Valid(s)
    requires DeclineInvitation(s, id, u).Ok?
    ensures Valid(DeclineInvitation(s, id, u).value.store)
  {
    SetStatusPreservesValid(s, id, Declined);
  }

  /** A declined invitation can no longer be accepted. */
  lemma DeclineThenAcceptConflicts(s: Store, id: InvitationId, u: UserId)
    requires DeclineInvitation(s, id, u).Ok?
    ensures AcceptInvitation(DeclineInvitation(s, id, u).value.store, id, u) == Err(AlreadyProcessed)
  {
    FirstWithIdAfterSetStatus(s.invitations, id, Declined);
  }
}

/** The service operations taken together, for properties every one of them keeps. */
module InvitationOps {
  import opened Results
  import opened Errors
  import opened WorkspaceRepository
  import opened InvitationService

  /** One call of a store-changing service operation, with its arguments. */
  datatype Op =
    | Invite(w: WorkspaceId, inviter: UserId, inviteeEmail: string, now: int)
    | Remove(w: WorkspaceId, memberId: UserId, currentUserId: UserId)
    | Accept(id: InvitationId, u: UserId)
    | Decline(id: InvitationId, u: UserId)

  function Apply(s: Store, op: Op): Result<Done, AppError> {
    match op
    case Invite(w, inviter, email, now) => InviteMember(s, w, inviter, email, now)
    case Remove(w, m, c) => RemoveMember(s, w, m, c)
    case Accept(id, u) => AcceptInvitation(s, id, u)
    case Decline(id, u) => DeclineInvitation(s, id, u)
  }

  /** No operation ever removes or demotes an OWNER membership. */
  lemma NoOperationRemovesAnOwner(s: Store, op: Op)
    requires Apply(s, op).Ok?
    ensures var m := Apply(s, op).value.store.members;
            forall k :: k in s.members && s.members[k] == Owner ==> k in m && m[k] == Owner
  {
    if op.Remove? {
      RemoveKeepsOwners(s, op.w, op.memberId, op.currentUserId);
    }
  }

  /** Every successful operation keeps every store invariant. */
  lemma EveryOperationPreservesValid(s: Store, op: Op)
    requires Valid(s) && Apply(s, op).Ok?
    ensures Valid(Apply(s, op).value.store)
  {
    match op
    case Invite(w, inviter, email, now) => InviteMemberPreservesValid(s, w, inviter, email, now);
    case Remove(w, m, c) => RemoveMemberPreservesValid(s, w, m, c);
    case Accept(id, u) => AcceptInvitationPreservesValid(s, id, u);
    case Decline(id, u) => DeclineInvitationPreservesValid(s, id, u);
  }

  /** Every refusal is a 403, 404 or 409, or the 500 of a transaction the store refused. */
  lemma FailuresCarryAnAppError(s: Store, op: Op)
    requires Apply(s, op).Err?
    ensures Apply(s, op).error.status in {403, 404, 409, 500}
  {
  }
}
