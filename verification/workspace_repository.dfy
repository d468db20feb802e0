/**
 * The workspace tables and the repository over them. Memberships are keyed
 * by the pair (workspace, user); invitations are kept in insertion order;
 * workspace and invitation ids come from one counter. Repository writes
 * that the database would refuse (a duplicate key, a missing row) return
 * `None` and change nothing.
 */
module WorkspaceRepository {
  import opened Results
  import opened Lookup
  import Users

  type UserId = Users.UserId
  type WorkspaceId = nat
  type InvitationId = nat
  type MemberKey = (WorkspaceId, UserId)

  datatype WorkspaceRole = Owner | Member
  datatype InvitationStatus = Pending | Accepted | Declined

  datatype Workspace = Workspace(id: WorkspaceId, name: string, isPublic: bool, createdAt: int)

  datatype Invitation = Invitation(
    id: InvitationId,
    workspaceId: WorkspaceId,
    inviterId: UserId,
    inviteeId: UserId,
    status: InvitationStatus,
    createdAt: int)

  datatype Store = Store(
    users: Users.UserStore,
    workspaces: map<WorkspaceId, Workspace>,
    members: map<MemberKey, WorkspaceRole>,
    invitations: seq<Invitation>,
    nextId: nat)

  // ------------------------------------------------------------ invariants

  /** Workspaces are filed under their own id, below the next id. */
  predicate WorkspacesKeyed(s: Store) {
    forall w :: w in s.workspaces ==> s.workspaces[w].id == w && w < s.nextId
  }

  /** Every membership and every invitation belongs to an existing workspace. */
  predicate ReferencesResolve(s: Store) {
    && (forall k :: k in s.members ==> k.0 in s.workspaces)
    && (forall i :: 0 <= i < |s.invitations| ==> s.invitations[i].workspaceId in s.workspaces)
  }

  /** Invitation ids are unique and below the next id. */
  predicate InvitationIdsFresh(invs: seq<Invitation>, nextId: nat) {
    && (forall i :: 0 <= i < |invs| ==> invs[i].id < nextId)
    && (forall i, j :: 0 <= i < j < |invs| ==> invs[i].id != invs[j].id)
  }

  function PairOf(inv: Invitation): MemberKey {
    (inv.workspaceId, inv.inviteeId)
  }

  /** At most one PENDING invitation per (workspace, invitee). */
  predicate SinglePending(invs: seq<Invitation>) {
    forall i, j :: 0 <= i < j < |invs| && invs[i].status == Pending && invs[j].status == Pending
      ==> PairOf(invs[i]) != PairOf(invs[j])
  }

  /** No workspace has two OWNER memberships. */
  predicate OwnerUnique(members: map<MemberKey, WorkspaceRole>) {
    forall k1, k2 :: k1 in members && k2 in members && members[k1] == Owner && members[k2] == Owner && k1.0 == k2.0
      ==> k1 == k2
  }

  /** Every workspace has an OWNER membership. */
  ghost predicate OwnerPresent(s: Store) {
    forall w :: w in s.workspaces ==> exists u :: (w, u) in s.members && s.members[(w, u)] == Owner
  }

  ghost predicate Valid(s: Store) {
    && Users.ValidUsers(s.users)
    && WorkspacesKeyed(s)
    && ReferencesResolve(s)
    && InvitationIdsFresh(s.invitations, s.nextId)
    && SinglePending(s.invitations)
    && OwnerUnique(s.members)
    && OwnerPresent(s)
  }

  // ------------------------------------------------------------ workspaces

  /** The record `createWorkspace` hands back; `isPublic` is absent when the select leaves it out. */
  datatype CreatedWorkspace = CreatedWorkspace(name: string, isPublic: Option<bool>, createdAt: int)

  /** The single write of `createWorkspace`: the workspace row and its OWNER membership together. */
  function InsertWorkspaceWithOwner(s: Store, name: string, isPublic: bool, userId: UserId, now: int): (r: Store)
    ensures r.workspaces == s.workspaces[s.nextId := Workspace(s.nextId, name, isPublic, now)]
    ensures r.members == s.members[(s.nextId, userId) := Owner]
    ensures r.users == s.users && r.invitations == s.invitations && r.nextId == s.nextId + 1
  {
    var w := s.nextId;
    s.(workspaces := s.workspaces[w := Workspace(w, name, isPublic, now)],
       members := s.members[(w, userId) := Owner],
       nextId := s.nextId + 1)
  }

  /** Creating a workspace keeps every store invariant, the one-owner rule included. */
  lemma InsertWorkspacePreservesValid(s: Store, name: string, isPublic: bool, userId: UserId, now: int)
    requires Valid(s)
    ensures Valid(InsertWorkspaceWithOwner(s, name, isPublic, userId, now))
  {
    InsertWorkspaceKeepsOwners(s, name, isPublic, userId, now);
  }

  /** The new workspace gets exactly one owner and every other workspace keeps its own. */
  lemma InsertWorkspaceKeepsOwners(s: Store, name: string, isPublic: bool, userId: UserId, now: int)
    requires WorkspacesKeyed(s) && ReferencesResolve(s)
    requires OwnerUnique(s.members) && OwnerPresent(s)
    ensures var r := InsertWorkspaceWithOwner(s, name, isPublic, userId, now);
      OwnerUnique(r.members) && OwnerPresent(r)
  {
    var r := InsertWorkspaceWithOwner(s, name, isPublic, userId, now);
    forall k | k in s.members
      ensures k.0 != s.nextId
    {
      assert k.0 in s.workspaces;
    }
    NewOwnerKeepsOwnerUnique(s.members, s.nextId, userId);
    NewWorkspaceKeepsOwnerPresent(s, r, userId);
  }

  lemma NewOwnerKeepsOwnerUnique(members: map<MemberKey, WorkspaceRole>, w: WorkspaceId, u: UserId)
    requires OwnerUnique(members)
    requires forall k :: k in members ==> k.0 != w
    ensures OwnerUnique(members[(w, u) := Owner])
  {
  }

  lemma NewWorkspaceKeepsOwnerPresent(s: Store, r: Store, userId: UserId)
    requires OwnerPresent(s)
    requires r.workspaces.Keys == s.workspaces.Keys + {s.nextId}
    requires r.members == s.members[(s.nextId, userId) := Owner]
    ensures OwnerPresent(r)
  {
    forall w | w in r.workspaces
      ensures exists u :: (w, u) in r.members && r.members[(w, u)] == Owner
    {
      if w == s.nextId {
        assert r.members[(w, userId)] == Owner;
      } else {
        var u :| (w, u) in s.members && s.members[(w, u)] == Owner;
        assert r.members[(w, u)] == Owner;
      }
    }
  }

  /** The new workspace is found under the id it was given, with its creator as OWNER; other ids read as before. */
  lemma InsertedWorkspaceIsFound(s: Store, name: string, isPublic: bool, userId: UserId, now: int)
    ensures var r := InsertWorkspaceWithOwner(s, name, isPublic, userId, now);
      && FindWorkspaceById(r, s.nextId) == Some(Workspace(s.nextId, name, isPublic, now))
      && FindMembership(r, userId, s.nextId) == Some(Owner)
    ensures forall w: WorkspaceId :: w != s.nextId ==>
              FindWorkspaceById(InsertWorkspaceWithOwner(s, name, isPublic, userId, now), w) == FindWorkspaceById(s, w)
  {
  }

  /** `createWorkspace` as written: the select names `isPublic` by its value, so a private workspace's flag is dropped. */
  function CreateWorkspaceAsWritten(s: Store, name: string, isPublic: bool, userId: UserId, now: int)
    : (r: (Store, CreatedWorkspace))
    ensures r.0 == InsertWorkspaceWithOwner(s, name, isPublic, userId, now)
    ensures r.1.name == name && r.1.createdAt == now
    ensures r.1.isPublic == (if isPublic then Some(true) else None)
  {
    (InsertWorkspaceWithOwner(s, name, isPublic, userId, now),
     CreatedWorkspace(name, if isPublic then Some(true) else None, now))
  }

  /** The evidently intended `createWorkspace`: the returned record always reports the visibility that was stored. */
  function CreateWorkspace(s: Store, name: string, isPublic: bool, userId: UserId, now: int)
    : (r: (Store, CreatedWorkspace))
    ensures r.0 == InsertWorkspaceWithOwner(s, name, isPublic, userId, now)
    ensures r.1.isPublic == Some(r.0.workspaces[s.nextId].isPublic)
    ensures r.1 == CreatedWorkspace(r.0.workspaces[s.nextId].name, r.1.isPublic, r.0.workspaces[s.nextId].createdAt)
  {
    (InsertWorkspaceWithOwner(s, name, isPublic, userId, now), CreatedWorkspace(name, Some(isPublic), now))
  }

  /** The as-written record loses the flag of every private workspace. */
  lemma CreateWorkspaceAsWrittenLosesPrivateFlag(s: Store, name: string, userId: UserId, now: int)
    ensures CreateWorkspaceAsWritten(s, name, false, userId, now).1.isPublic.None?
    ensures CreateWorkspace(s, name, false, userId, now).1.isPublic == Some(false)
  {
  }

  /** A new workspace comes with exactly one membership, its creator's, as OWNER. */
  lemma CreateWorkspaceAddsOnlyOwner(s: Store, name: string, isPublic: bool, userId: UserId, now: int)
    requires Valid(s)
    ensures var r := CreateWorkspace(s, name, isPublic, userId, now).0;
            && s.nextId in r.workspaces && s.nextId !in s.workspaces
            && (forall k :: k in r.members && k.0 == s.nextId ==> k == (s.nextId, userId))
            && r.members[(s.nextId, userId)] == Owner
  {
  }

  /** `findById`. */
  function FindWorkspaceById(s: Store, w: WorkspaceId): (r: Option<Workspace>)
    ensures r.Some? <==> w in s.workspaces
    ensures r.Some? ==> r.value == s.workspaces[w]
  {
    if w in s.workspaces then Some(s.workspaces[w]) else None
  }

  /** `findAllByUser`: the workspaces in which the user holds any membership, owner or not. */
  function FindAllByUser(s: Store, u: UserId): (r: set<Workspace>)
    ensures forall w :: w in s.workspaces && (w, u) in s.members ==> s.workspaces[w] in r
    ensures forall x :: x in r ==> exists w :: w in s.workspaces && (w, u) in s.members && s.workspaces[w] == x
  {
    set w | w in s.workspaces && (w, u) in s.members :: s.workspaces[w]
  }

  /** `findByUserAndName`: the same, narrowed to one exact name. */
  function FindByUserAndName(s: Store, u: UserId, name: string): (r: set<Workspace>)
    ensures forall x :: x in r <==> x in FindAllByUser(s, u) && x.name == name
  {
    set w | w in s.workspaces && (w, u) in s.members && s.workspaces[w].name == name :: s.workspaces[w]
  }

  // ----------------------------------------------------------- memberships

  /** `findMembershipByUserAndWorkspace`: a lookup on the composite key alone. */
  function FindMembership(s: Store, u: UserId, w: WorkspaceId): (r: Option<WorkspaceRole>)
    ensures r.Some? <==> (w, u) in s.members
    ensures r.Some? ==> r.value == s.members[(w, u)]
  {
    if (w, u) in s.members then Some(s.members[(w, u)]) else None
  }

  /** `createMember`: refused when the pair already has a membership or the workspace does not exist. */
  function CreateMember(s: Store, w: WorkspaceId, u: UserId, role: WorkspaceRole): (r: Option<Store>)
    ensures r.None? <==> (w, u) in s.members || w !in s.workspaces
    ensures r.Some? ==> r.value == s.(members := s.members[(w, u) := role])
  {
    if (w, u) in s.members || w !in s.workspaces then None else Some(s.(members := s.members[(w, u) := role]))
  }

  /** A created membership is what the lookup then returns; every other pair reads as before. */
  lemma CreateMemberThenFind(s: Store, w: WorkspaceId, u: UserId, role: WorkspaceRole)
    requires CreateMember(s, w, u, role).Some?
    ensures FindMembership(CreateMember(s, w, u, role).value, u, w) == Some(role)
    ensures forall u': UserId, w': WorkspaceId :: (w', u') != (w, u) ==>
              FindMembership(CreateMember(s, w, u, role).value, u', w') == FindMembership(s, u', w')
  {
  }

  /** A MEMBER row created through the repository keeps every store invariant. */
  lemma CreateMemberPreservesValid(s: Store, w: WorkspaceId, u: UserId)
    requires Valid(s) && CreateMember(s, w, u, Member).Some?
    ensures Valid(CreateMember(s, w, u, Member).value)
  {
    AddMemberKeepsOwners(s, (w, u));
  }

  /**
   * The repository itself does not guard the one-owner rule: an OWNER row
   * created for an existing workspace is always a second owner. The service
   * only ever creates MEMBER rows.
   */
  lemma CreateOwnerBreaksOwnerUnique(s: Store, w: WorkspaceId, u: UserId)
    requires Valid(s) && CreateMember(s, w, u, Owner).Some?
    ensures !OwnerUnique(CreateMember(s, w, u, Owner).value.members)
  {
    var m := CreateMember(s, w, u, Owner).value.members;
    var v :| (w, v) in s.members && s.members[(w, v)] == Owner;
    assert (w, v) in m && m[(w, v)] == Owner && m[(w, u)] == Owner && (w, v) != (w, u);
  }

  /** A MEMBER row under a fresh key neither adds an owner nor takes one away. */
  lemma AddMemberKeepsOwners(s: Store, key: MemberKey)
    requires OwnerUnique(s.members) && OwnerPresent(s) && key !in s.members
    ensures var r := s.(members := s.members[key := Member]);
      OwnerUnique(r.members) && OwnerPresent(r)
  {
    var r := s.(members := s.members[key := Member]);
    forall x | x in r.workspaces
      ensures exists v :: (x, v) in r.members && r.members[(x, v)] == Owner
    {
      var v :| (x, v) in s.members && s.members[(x, v)] == Owner;
      assert r.members[(x, v)] == Owner;
    }
  }

  /** `removeMember`: deletes the one membership under the key; refused when there is none. */
  function DeleteMember(s: Store, w: WorkspaceId, u: UserId): (r: Option<Store>)
    ensures r.None? <==> (w, u) !in s.members
    ensures r.Some? ==> r.value.members.Keys == s.members.Keys - {(w, u)}
    ensures r.Some? ==> forall k :: k in r.value.members ==> r.value.members[k] == s.members[k]
    ensures r.Some? ==> r.value == s.(members := r.value.members)
  {
    if (w, u) !in s.members then None else Some(s.(members := s.members - {(w, u)}))
  }

  /** After a removal the lookup finds nothing for that pair; every other pair reads as before. */
  lemma DeleteMemberThenFind(s: Store, w: WorkspaceId, u: UserId)
    requires DeleteMember(s, w, u).Some?
    ensures FindMembership(DeleteMember(s, w, u).value, u, w).None?
    ensures forall u': UserId, w': WorkspaceId :: (w', u') != (w, u) ==>
              FindMembership(DeleteMember(s, w, u).value, u', w') == FindMembership(s, u', w')
  {
  }

  datatype UserSummary = UserSummary(id: UserId, email: string, role: Users.Role)

  datatype MemberView = MemberView(workspaceId: WorkspaceId, userId: UserId, role: WorkspaceRole, user: Option<UserSummary>)

  function SummaryOf(u: Option<Users.User>): Option<UserSummary> {
    if u.Some? then Some(UserSummary(u.value.id, u.value.email, u.value.role)) else None
  }

  function MemberViewOf(s: Store, k: MemberKey): MemberView
    requires k in s.members
  {
    MemberView(k.0, k.1, s.members[k], SummaryOf(Users.FindById(s.users, k.1)))
  }

  /** `findMembersByWorkspace`: every membership of the workspace with a summary of its user. */
  function FindMembersByWorkspace(s: Store, w: WorkspaceId): (r: set<MemberView>)
    ensures forall k :: k in s.members && k.0 == w ==> MemberViewOf(s, k) in r
    ensures forall m :: m in r ==> m.workspaceId == w && (w, m.userId) in s.members && m == MemberViewOf(s, (w, m.userId))
  {
    set k | k in s.members && k.0 == w :: MemberViewOf(s, k)
  }

  /** In a consistent store the member list of an existing workspace shows exactly one OWNER. */
  lemma MembersListOneOwner(s: Store, w: WorkspaceId)
    requires Valid(s) && w in s.workspaces
    ensures exists m :: m in FindMembersByWorkspace(s, w) && m.role == Owner
    ensures forall m1, m2 ::
              (m1 in FindMembersByWorkspace(s, w) && m2 in FindMembersByWorkspace(s, w)
               && m1.role == Owner && m2.role == Owner) ==> m1 == m2
  {
    var r := FindMembersByWorkspace(s, w);
    var u :| (w, u) in s.members && s.members[(w, u)] == Owner;
    assert MemberViewOf(s, (w, u)) in r;
    forall m1, m2 | m1 in r && m2 in r && m1.role == Owner && m2.role == Owner
      ensures m1 == m2
    {
      assert s.members[(w, m1.userId)] == Owner && s.members[(w, m2.userId)] == Owner;
    }
  }

  // ----------------------------------------------------------- invitations

  /** `createInvitation`: always PENDING, under the next id. */
  function CreateInvitation(s: Store, w: WorkspaceId, inviter: UserId, invitee: UserId, now: int): (r: Store)
    ensures r.invitations == s.invitations + [Invitation(s.nextId, w, inviter, invitee, Pending, now)]
    ensures r == s.(invitations := r.invitations, nextId := s.nextId + 1)
  {
    s.(invitations := s.invitations + [Invitation(s.nextId, w, inviter, invitee, Pending, now)], nextId := s.nextId + 1)
  }

  predicate IsPendingFor(inv: Invitation, w: WorkspaceId, invitee: UserId) {
    inv.workspaceId == w && inv.inviteeId == invitee && inv.status == Pending
  }

  /** `findPendingInvitation`: a PENDING invitation for this workspace and invitee, if there is one. */
  function FindPendingInvitation(s: Store, w: WorkspaceId, invitee: UserId): (r: Option<Invitation>)
    ensures r.Some? ==> r.value in s.invitations && IsPendingFor(r.value, w, invitee)
    ensures r.None? <==> forall i :: 0 <= i < |s.invitations| ==> !IsPendingFor(s.invitations[i], w, invitee)
  {
    FirstPending(s.invitations, w, invitee)
  }

  function FirstPending(invs: seq<Invitation>, w: WorkspaceId, invitee: UserId): (r: Option<Invitation>)
    ensures r.Some? ==> r.value in invs && IsPendingFor(r.value, w, invitee)
    ensures r.None? <==> forall i :: 0 <= i < |invs| ==> !IsPendingFor(invs[i], w, invitee)
  {
    if |invs| == 0 then None
    else if IsPendingFor(invs[0], w, invitee) then Some(invs[0])
    else FirstPending(invs[1..], w, invitee)
  }

  /** `findInvitationById`. */
  function InvitationIdOf(inv: Invitation): InvitationId { inv.id }

  function FindInvitationById(s: Store, id: InvitationId): (r: Option<Invitation>)
    ensures r.Some? ==> r.value in s.invitations && r.value.id == id
    ensures r.None? <==> forall i :: 0 <= i < |s.invitations| ==> s.invitations[i].id != id
  {
    FirstWithKey(s.invitations, InvitationIdOf, id)
  }

  /** With unique ids, an invitation is the one its own id finds. */
  lemma FindInvitationByIdOfMember(s: Store, n: nat)
    requires InvitationIdsFresh(s.invitations, s.nextId) && n < |s.invitations|
    ensures FindInvitationById(s, s.invitations[n].id) == Some(s.invitations[n])
  {
    FirstWithKeyAt(s.invitations, InvitationIdOf, n);
  }

  /** Every invitation with the given id gets the new status; nothing else changes. */
  function SetStatus(invs: seq<Invitation>, id: InvitationId, status: InvitationStatus): (r: seq<Invitation>)
    ensures |r| == |invs|
    ensures forall i :: 0 <= i < |invs| ==> r[i] == (if invs[i].id == id then invs[i].(status := status) else invs[i])
  {
    seq(|invs|, i requires 0 <= i < |invs| => if invs[i].id == id then invs[i].(status := status) else invs[i])
  }

  /** After a status change the id still finds the same invitation, now carrying the new status. */
  lemma {:induction false} FirstWithIdAfterSetStatus(invs: seq<Invitation>, id: InvitationId, status: InvitationStatus)
    requires FirstWithKey(invs, InvitationIdOf, id).Some?
    ensures FirstWithKey(SetStatus(invs, id, status), InvitationIdOf, id)
              == Some(FirstWithKey(invs, InvitationIdOf, id).value.(status := status))
  {
    var r := SetStatus(invs, id, status);
    if invs[0].id != id {
      assert r[1..] == SetStatus(invs[1..], id, status);
      FirstWithIdAfterSetStatus(invs[1..], id, status);
    }
  }

  /** Moving invitations out of PENDING keeps ids, references and the single-pending rule. */
  lemma SetStatusPreservesValid(s: Store, id: InvitationId, status: InvitationStatus)
    requires Valid(s) && status != Pending
    ensures Valid(s.(invitations := SetStatus(s.invitations, id, status)))
  {
    var r := s.(invitations := SetStatus(s.invitations, id, status));
    assert forall i :: 0 <= i < |r.invitations| ==> PairOf(r.invitations[i]) == PairOf(s.invitations[i]);
    assert forall i :: 0 <= i < |r.invitations| && r.invitations[i].status == Pending ==> s.invitations[i].status == Pending;
  }

  /**
   * `acceptInvitation`: in one transaction, the invitation becomes ACCEPTED
   * and a MEMBER membership is created. If either write would be refused,
   * neither happens.
   */
  function AcceptInvitationTx(s: Store, id: InvitationId, u: UserId, w: WorkspaceId): (r: Option<Store>)
    ensures r.None? <==> FindInvitationById(s, id).None? || (w, u) in s.members || w !in s.workspaces
    ensures r.Some? ==> r.value.members == s.members[(w, u) := Member]
    ensures r.Some? ==> r.value.invitations == SetStatus(s.invitations, id, Accepted)
    ensures r.Some? ==> r.value.workspaces == s.workspaces && r.value.users == s.users && r.value.nextId == s.nextId
  {
    if FindInvitationById(s, id).None? || (w, u) in s.members || w !in s.workspaces then None
    else Some(s.(invitations := SetStatus(s.invitations, id, Accepted), members := s.members[(w, u) := Member]))
  }

  /** `declineInvitation`: only the status changes, to DECLINED; refused when the invitation does not exist. */
  function DeclineInvitationTx(s: Store, id: InvitationId): (r: Option<Store>)
    ensures r.None? <==> FindInvitationById(s, id).None?
    ensures r.Some? ==> r.value == s.(invitations := SetStatus(s.invitations, id, Declined))
  {
    if FindInvitationById(s, id).None? then None
    else Some(s.(invitations := SetStatus(s.invitations, id, Declined)))
  }

  // ------------------------------------------------- pending list, newest first

  datatype WorkspaceSummary = WorkspaceSummary(id: WorkspaceId, name: string, isPublic: bool)
  datatype InviterSummary = InviterSummary(id: UserId, email: string)

  /** A pending invitation as listed: with its workspace and inviter summaries. */
  datatype PendingInvitation = PendingInvitation(
    invitation: Invitation,
    workspace: Option<WorkspaceSummary>,
    inviter: Option<InviterSummary>)

  predicate NewestFirst(invs: seq<Invitation>) {
    forall i, j :: 0 <= i < j < |invs| ==> invs[i].createdAt >= invs[j].createdAt
  }

  /** The invitations, in stored order, that are PENDING and addressed to `u`. */
  function PendingFor(invs: seq<Invitation>, u: UserId): (r: seq<Invitation>)
    ensures forall x :: x in r <==> x in invs && x.inviteeId == u && x.status == Pending
    ensures |r| <= |invs|
  {
    if |invs| == 0 then []
    else
      var rest := PendingFor(invs[1..], u);
      if invs[0].inviteeId == u && invs[0].status == Pending then [invs[0]] + rest else rest
  }

  /** Inserts `x` into a newest-first list, before the first entry that is not newer. */
  function InsertByDate(x: Invitation, sorted: seq<Invitation>): (r: seq<Invitation>)
    requires NewestFirst(sorted)
    ensures NewestFirst(r)
    ensures multiset(r) == multiset(sorted) + multiset{x}
    ensures |r| == |sorted| + 1 && (r[0] == x || (|sorted| > 0 && r[0] == sorted[0]))
  {
    if |sorted| == 0 then [x]
    else if x.createdAt >= sorted[0].createdAt then [x] + sorted
    else
      var rest := InsertByDate(x, sorted[1..]);
      assert sorted == [sorted[0]] + sorted[1..];
      assert rest[0].createdAt <= sorted[0].createdAt;
      [sorted[0]] + rest
  }

  /** The same invitations ordered by creation time, newest first. */
  function SortNewestFirst(invs: seq<Invitation>): (r: seq<Invitation>)
    ensures NewestFirst(r)
    ensures multiset(r) == multiset(invs)
  {
    if |invs| == 0 then []
    else
      assert invs == [invs[0]] + invs[1..];
      InsertByDate(invs[0], SortNewestFirst(invs[1..]))
  }

  /** An invitation with the summaries of its workspace and of the user who sent it. */
  function ListingOf(s: Store, inv: Invitation): (r: PendingInvitation)
    ensures r.invitation == inv
    ensures r.workspace.Some? <==> inv.workspaceId in s.workspaces
    ensures r.workspace.Some? ==>
              var w := s.workspaces[inv.workspaceId]; r.workspace.value == WorkspaceSummary(w.id, w.name, w.isPublic)
    ensures r.inviter.None? <==> forall x :: x in s.users.records ==> x.id != inv.inviterId
    ensures r.inviter.Some? ==>
              exists x :: x in s.users.records && x.id == inv.inviterId && r.inviter.value == InviterSummary(x.id, x.email)
  {
    var ws := if inv.workspaceId in s.workspaces
              then var w := s.workspaces[inv.workspaceId]; Some(WorkspaceSummary(w.id, w.name, w.isPublic))
              else None;
    var inviter := Users.FindById(s.users, inv.inviterId);
    PendingInvitation(inv, ws, if inviter.Some? then Some(InviterSummary(inviter.value.id, inviter.value.email)) else None)
  }

  function Listings(s: Store, invs: seq<Invitation>): (r: seq<PendingInvitation>)
    ensures |r| == |invs| && forall i :: 0 <= i < |r| ==> r[i] == ListingOf(s, invs[i])
  {
    seq(|invs|, i requires 0 <= i < |invs| => ListingOf(s, invs[i]))
  }

  /** `findPendingInvitationsByUser`: exactly the user's PENDING invitations, newest first. */
  function FindPendingInvitationsByUser(s: Store, u: UserId): (r: seq<PendingInvitation>)
    ensures forall i :: 0 <= i < |r| ==> r[i].invitation.inviteeId == u && r[i].invitation.status == Pending
    ensures forall i :: 0 <= i < |r| ==> r[i].invitation in s.invitations
    ensures forall x :: x in s.invitations && x.inviteeId == u && x.status == Pending ==>
              exists i :: 0 <= i < |r| && r[i].invitation == x
    ensures forall i, j :: 0 <= i < j < |r| ==> r[i].invitation.createdAt >= r[j].invitation.createdAt
    ensures |r| == |PendingFor(s.invitations, u)|
    ensures forall i :: 0 <= i < |r| ==> r[i] == ListingOf(s, r[i].invitation)
  {
    var pending := PendingFor(s.invitations, u);
    var sorted := SortNewestFirst(pending);
    var r := Listings(s, sorted);
    ListingsDescribePending(s.invitations, u, pending, sorted, r);
    r
  }

  lemma ListingsDescribePending(invs: seq<Invitation>, u: UserId, pending: seq<Invitation>,
                                sorted: seq<Invitation>, r: seq<PendingInvitation>)
    requires forall x :: x in pending <==> x in invs && x.inviteeId == u && x.status == Pending
    requires NewestFirst(sorted) && multiset(sorted) == multiset(pending)
    requires |r| == |sorted| && forall i :: 0 <= i < |r| ==> r[i].invitation == sorted[i]
    ensures forall i :: 0 <= i < |r| ==> r[i].invitation.inviteeId == u && r[i].invitation.status == Pending
    ensures forall i :: 0 <= i < |r| ==> r[i].invitation in invs
    ensures forall x :: x in invs && x.inviteeId == u && x.status == Pending ==>
              exists i :: 0 <= i < |r| && r[i].invitation == x
    ensures forall i, j :: 0 <= i < j < |r| ==> r[i].invitation.createdAt >= r[j].invitation.createdAt
    ensures |r| == |pending|
  {
    assert |sorted| == |multiset(sorted)| == |multiset(pending)| == |pending|;
    forall i | 0 <= i < |r|
      ensures r[i].invitation in invs && r[i].invitation.inviteeId == u && r[i].invitation.status == Pending
    {
      assert sorted[i] in multiset(sorted);
    }
    forall x | x in invs && x.inviteeId == u && x.status == Pending
      ensures exists i :: 0 <= i < |r| && r[i].invitation == x
    {
      assert x in multiset(pending);
      assert x in sorted;
      var i :| 0 <= i < |sorted| && sorted[i] == x;
      assert r[i].invitation == x;
    }
  }
}
