# rbac-system core in Dafny

This project models the decision logic of the rbac-system back end, a
TypeScript/Express service with user accounts and workspaces. The model
covers five areas:

- **Workspaces and invitations.** The workspace repository is modelled as
  an immutable `Store` value. It holds users, workspaces, memberships keyed
  by `(workspace, user)` with role OWNER or MEMBER, and invitations whose
  status is PENDING, ACCEPTED or DECLINED. The invitation service works on
  that store: invite, remove member, list pending, accept and decline. Each
  operation runs its checks in a fixed order. It either fails with an
  `AppError(status, code, message)` or returns the new store.
- **Sessions.** `login`, `register`, `refreshToken` and `logout` run over
  a user store. The token claims come from `generateJWTs`. Hashing,
  password checking and token signing are passed in as function values.
- **Input validation.** The email, password and workspace-name schemas and
  their 400 wrappers. Each is a normalise step, then ordered rule checks,
  then the issue messages joined by ", ".
- **Configuration.** The environment schema is a function from a string map
  to a typed `Config` or a list of issues.
- **Small decisions.** Bearer-header parsing and the classification of
  token-verification errors. The refresh-token rotation rule. The mapping
  of errors to responses in the two error handlers.

Modules follow the source layout:

- `Results`, `Errors` and `Lookup` (results.dfy): `Lookup` is the key lookup every repository uses
- `Text` (text.dfy): string built-ins
- `Validation` (validation.dfy)
- `Users` (users.dfy): the user repository
- `Tokens` and `Rotation` (tokens.dfy)
- `EnvConfig` (env_config.dfy)
- `RequireAuth` and `ErrorResponse` (http_errors.dfy)
- `AuthService` (auth_service.dfy)
- `WorkspaceRepository` (workspace_repository.dfy)
- `InvitationService` and `InvitationOps` (invitation_service.dfy)

Collaborators the model cannot see are parameters:

- the JSON Web Token library is a `Signer` with `sign` and `verify`;
- bcrypt is `hash` and `verifyPassword`;
- the email-format check is `isEmail`;
- the profanity filter is `isProfane`.
- the error handlers' `isDev()` (the configured stage is "dev") is a boolean `isDev`.

A lemma that needs a round trip assumes it in its `requires`, through
`Tokens.Faithful` or `AuthService.HasherSound`. The model never assumes
that an access token fails verification as a refresh token, because the
configuration does not require the two secrets to differ.

The store invariant `WorkspaceRepository.Valid` collects these rules:

- user ids and emails are unique;
- workspaces are filed under their own id;
- every membership and invitation refers to an existing workspace;
- invitation ids are unique and fresh;
- there is at most one PENDING invitation per (workspace, invitee);
- every workspace has exactly one OWNER.

Memberships are a map, so a pair can never hold two memberships.

Two facts about the error paths:

- All conflicts in the invitation service use the code `ALREADY_EXISTS`.
  There is no separate "already member" or "already processed" code.
- A repository write that the database refuses is not translated into a
  conflict error. It reaches the client as the error wrapper's generic 500
  (`InvitationService.StoreFailure`). In a consistent store the model shows
  that this cannot happen after the checks pass
  (`InvitationService.AcceptNeverFailsInStore`).

`src/shared/errors/ErrorCode.ts` is not part of this model. Error codes are
taken to be the enum member names as strings, for example `"FORBIDDEN"`.

User roles are the database's `Role` enum, and a stored role reads as its
member name: registration stores `Role.USER`, so views and access tokens
carry `"USER"` (`Users.RoleName`). The lower-case role names in
`src/domains/auth/constants.ts` belong to the older role-table code, which
the session service does not use.

## Model

| member | source | states |
|---|---|---|
| Text.Trim | src/lib/zod.ts:7 | the result is a slice of the input with no leading or trailing JavaScript whitespace, and everything cut off on either side is whitespace |
| Text.TrimOfTrimmed | src/lib/zod.ts:29 | a string without surrounding whitespace is its own trim |
| Text.TrimIdempotent | src/lib/zod.ts:29 | trimming twice is trimming once |
| Text.ToLower | src/lib/zod.ts:8 | same length; each character is the lower-case form of the input's at that position |
| Text.ToLowerIdempotent | src/lib/zod.ts:8 | lower-casing twice is lower-casing once |
| Text.ToLowerKeepsTrimmed | src/lib/zod.ts:7-8 | lower-casing a trimmed string leaves it trimmed, so trim-then-lowercase is already normal |
| Text.Split | src/middleware/requireAuth.ts:12 | splitting always yields at least one field |
| Text.SplitHead | src/middleware/requireAuth.ts:12 | the first field is the input up to the first separator |
| Text.SplitJoin | src/middleware/requireAuth.ts:12 | no field contains the separator, and joining the fields with it gives back the input |
| Text.SplitAfterPrefix | src/middleware/requireAuth.ts:12 | a separator-free prefix followed by the separator becomes exactly the first field |
| Validation.NormalizeEmail | src/lib/zod.ts:7-8 | the normalised email has no surrounding whitespace and is already lower case |
| Validation.EmailIssues | src/lib/zod.ts:9-11 | at most one issue is reported, because the format check runs only after the length checks pass |
| Validation.EmailIssuesMatchRule | src/lib/zod.ts:9-11 | no issue exactly when the length is 1..100 and the format predicate holds |
| Validation.ParseEmail | src/lib/zod.ts:4-12 | accepts iff the normalised email meets the rule; the value is the normalised email; a refusal carries exactly one message |
| Validation.ValidateEmail | src/domains/auth/validators/validateEmail.ts:5-16 | success iff the rule holds of the trimmed, lower-cased input; the result is that string, 1..100 long and well-formed; failure is 400 VALIDATION_ERROR with the issues joined by ", " |
| Validation.ValidateEmailIdempotent | src/domains/auth/validators/validateEmail.ts:5-16 | validating an accepted email again returns the same result |
| Validation.PasswordIssuesListBrokenRules | src/lib/zod.ts:14-23 | each of the six messages appears iff its rule is broken, and the list is empty iff the whole policy holds |
| Validation.ValidatePassword | src/domains/auth/validators/validatePassword.ts:4-16 | success iff 8..100 characters with an upper, a lower, a digit and a special character; the password comes back untrimmed; failure is 400 VALIDATION_ERROR listing every broken rule |
| Validation.WorkspaceNameIssuesMatchRule | src/lib/zod.ts:26-33 | no issue iff the trimmed name is 2..50 long and not profane; the blocked-words message appears iff the filter flags the name |
| Validation.ValidateWorkspaceName | src/domains/workspace/validators/validateWorkspaceName.ts:5-16 | success iff the rule holds of the trimmed name; the result is the trimmed name, 2..50 long; failure is 400 VALIDATION_ERROR with the joined issues |
| Validation.ValidateWorkspaceNameIdempotent | src/domains/workspace/validators/validateWorkspaceName.ts:5-16 | validating an accepted name again returns it unchanged |
| Lookup.FirstWithKey | src/domains/auth/repositories/userRepository.ts:8-29 | a unique-key lookup: a found row is in the table and has the key, and nothing is found iff no row has it |
| Users.FindByEmail | src/domains/auth/repositories/userRepository.ts:8-18 | finds a record with exactly that email, and finds nothing iff no record has it |
| Users.FindById | src/domains/auth/repositories/userRepository.ts:20-29 | finds a record with that id, and finds nothing iff no record has it |
| Lookup.FirstWithKeyAt | src/domains/auth/repositories/userRepository.ts:8-29 | when keys are unique, looking a row up by its own key returns exactly that row |
| Lookup.FirstWithKeyOfLast | src/domains/auth/repositories/userRepository.ts:20-33 | a row appended under a key no earlier row has is the row that key finds |
| Users.FindByEmailOfMember | src/domains/auth/repositories/userRepository.ts:8-18 | in a store satisfying the user invariant, a record is the one its own email finds |
| Users.FindByIdOfMember | src/domains/auth/repositories/userRepository.ts:20-29 | in a store satisfying the user invariant, a record is the one its own id finds |
| Users.Create | src/domains/auth/repositories/userRepository.ts:31-40 | appends one record under a fresh id; with an unused email the store stays valid |
| Tokens.GenerateJWTs | src/domains/auth/utils/generateJWTs.ts:3-14 | under a faithful signer, the refresh token verifies to the subject alone and the access token to subject, email and role |
| Tokens.RefreshTokenIgnoresProfile | src/domains/auth/utils/generateJWTs.ts:5 | the refresh token does not depend on email or role |
| Tokens.TokensShareSubject | src/domains/auth/utils/generateJWTs.ts:5-11 | both tokens carry the given id as subject |
| Tokens.EachTokenUsesItsOwnSigner | src/domains/auth/utils/generateJWTs.ts:5-7 | each token depends only on how its own kind is signed |
| Rotation.ShouldRotateRefreshToken | src/domains/auth/utils/shouldRotateRefreshToken.ts:18-30 | a missing or zero iat or exp means rotate; a token not yet older than its issue time never rotates |
| Rotation.DefaultIsHalfLife | src/domains/auth/utils/shouldRotateRefreshToken.ts:20-29 | with the default threshold the rule is "twice the age exceeds the lifetime" |
| Rotation.HalfLifeBoundary | src/domains/auth/utils/shouldRotateRefreshToken.ts:29 | at exactly half the lifetime there is no rotation; one second later there is |
| Rotation.RotationMonotoneInTime | src/domains/auth/utils/shouldRotateRefreshToken.ts:24-29 | once rotation is due it stays due at every later time |
| EnvConfig.ValidateEnv | env.ts:34-70 | accepts iff every key meets its rule (a reference predicate over the raw strings); a refusal carries at least one issue |
| EnvConfig.AcceptedConfigHonoursRules | env.ts:34-70 | an accepted configuration meets the rounds bounds, the secret lengths, the duration shapes and the URL prefix; httpOnly iff absent or exactly "true"; no domain iff absent or empty |
| EnvConfig.AcceptedConfigKeepsValues | env.ts:34-70 | every field of an accepted configuration is the environment's own value (parsed for numbers and enums) when the key is present, and its default when absent: development, dev, 3000, 15m, 7d, 12 rounds, lax; a non-empty domain is kept |
| EnvConfig.WithStageDefault | env.ts:23 | APP_STAGE keeps a set, non-empty value and is "dev" otherwise; no other key is added, and every other key keeps its value |
| EnvConfig.LoadEnv | env.ts:23-76 | loading succeeds iff the schema accepts the stage-defaulted environment; with a set stage it is exactly the schema on the given environment; an absent or empty APP_STAGE ends up as the dev stage |
| EnvConfig.DurationUnits | env.ts:47-54 | for every string: an access lifetime never ends in d, a refresh lifetime never ends in m, and a string suits both iff it is an hour count |
| EnvConfig.BcryptRoundsOutOfRangeRejected | env.ts:56 | rounds outside [10, 20] are refused, with the too-small or too-big issue for that key |
| RequireAuth.BearerToken | src/middleware/requireAuth.ts:12 | the token is the text after "Bearer " up to the next space |
| RequireAuth.VerificationError | src/middleware/requireAuth.ts:21-34 | always 401; TOKEN_EXPIRED, INVALID_TOKEN and TOKEN_NOT_ACTIVE exactly for their three library error names |
| RequireAuth.Authenticate | src/middleware/requireAuth.ts:5-36 | a missing header or wrong prefix gives 401 "Missing token"; success iff the bearer token verifies, and the principal is its payload; every failure is 401 |
| RequireAuth.BareBearerGivesEmptyToken | src/middleware/requireAuth.ts:12 | the header "Bearer " yields the empty token |
| RequireAuth.TokenStopsAtNextSpace | src/middleware/requireAuth.ts:12 | fields after the second are ignored |
| RequireAuth.VerificationFailuresDistinguished | src/middleware/requireAuth.ts:21-34 | the three known failures get three distinct codes; any other name falls back to UNAUTHORISED |
| ErrorResponse.ErrorWrapper | src/middleware/errorWrapper.ts:7-35 | the shared AppError's status, code and message pass through; anything else is 500 INTERNAL_SERVER_ERROR with the generic message; the body status is "error"; in dev the thrown value's own stack, which a thrown non-`Error` does not have; outside dev none |
| ErrorResponse.ErrorHandler | src/handlers/errorHandler.ts:6-35 | the same mapping for the older error class |
| ErrorResponse.UnexpectedErrorsAreOpaque | src/middleware/errorWrapper.ts:10-12 | the name and message of an unexpected error never affect the response |
| ErrorResponse.NonDevResponsesCarryNoStack | src/middleware/errorWrapper.ts:27-33 | outside dev there is never a stack, and an unexpected error yields one fixed response |
| ErrorResponse.HandlersRecogniseOnlyTheirOwnClass | src/middleware/errorWrapper.ts:3-8 | an older-class error reaching the mounted wrapper becomes a 500, while the older handler would pass it through |
| AuthService.ViewOf | src/domains/auth/services/authService.ts:72-77 | the view holds the record's id, email, creation time and role, the role spelled as the database enum name ("USER" for the default role) |
| Users.RoleName | src/domains/auth/services/authService.ts:94 | a role reads as its database enum name; "USER" is exactly the default role granted at registration |
| AuthService.Login | src/domains/auth/services/authService.ts:43-79 | validation errors come first; every other failure is 401 "Invalid email or password"; for a valid email and password the only failure is that 401; success returns the found user's view and tokens |
| AuthService.Register | src/domains/auth/services/authService.ts:81-117 | validation first; 409 only for a taken normalised email; for valid input with a free email it succeeds iff the store hands a record back, and otherwise fails with the 500; success appends a USER with the normalised email, returns the tokens generated for that record and keeps the store valid |
| AuthService.RefreshToken | src/domains/auth/services/authService.ts:119-144 | every failure is the same 401 INVALID_REFRESH_TOKEN; success iff the token verifies and its subject exists; new tokens come from the stored record |
| AuthService.LoginFailuresIndistinguishable | src/domains/auth/services/authService.ts:49-58 | an unknown email and a wrong password give identical errors |
| AuthService.PolicyCheckedBeforeLookup | src/domains/auth/services/authService.ts:45-49 | a policy-breaking password gives a 400 whatever the store holds, in login and register alike |
| AuthService.RegisterRefusesTakenEmail | src/domains/auth/services/authService.ts:88-91 | a taken normalised email gives 409 EMAIL_EXISTS |
| AuthService.RegisterThenLogin | src/domains/auth/services/authService.ts:43-117 | with a sound hasher, logging in right after registering succeeds and shows the new user |
| AuthService.RegisterThenRefresh | src/domains/auth/services/authService.ts:119-140 | with a faithful refresh signer, the refresh token from registration refreshes for the new user |
| AuthService.RefreshHidesMissingUser | src/domains/auth/services/authService.ts:125-143 | the inner "User not found" error is replaced by the generic refresh error |
| AuthService.Logout | src/domains/auth/services/authService.ts:146-152 | logout leaves the user store as it was: there is no session or token to revoke |
| AuthService.LogoutDoesNotRevoke | src/domains/auth/services/authService.ts:146-152 | refresh behaves the same after logout, for every token |
| AuthService.UserViewOmitsHash | src/domains/auth/services/authService.ts:68-78 | users that differ only in their hash have the same view |
| WorkspaceRepository.InsertWorkspaceWithOwner | src/domains/workspace/repositories/workspaceRepository.ts:7-18 | one write adds the workspace under a fresh id and its creator's OWNER membership; nothing else changes |
| WorkspaceRepository.InsertedWorkspaceIsFound | src/domains/workspace/repositories/workspaceRepository.ts:7-18 | after creation the id lookup returns the new workspace and the membership lookup returns OWNER for its creator; every other id reads as before |
| WorkspaceRepository.InsertWorkspacePreservesValid | src/domains/workspace/repositories/workspaceRepository.ts:7-18 | creating a workspace keeps every store invariant, including one owner per workspace |
| WorkspaceRepository.InsertWorkspaceKeepsOwners | src/domains/workspace/repositories/workspaceRepository.ts:7-18 | the new workspace gets exactly one OWNER and every existing workspace keeps its single owner |
| WorkspaceRepository.CreateWorkspaceAsWritten | src/domains/workspace/repositories/workspaceRepository.ts:7-24 | the written store is the same; the returned record has the given name and creation time, and reports `isPublic` only when it is true |
| WorkspaceRepository.CreateWorkspace | src/domains/workspace/repositories/workspaceRepository.ts:7-24 | the returned record reports exactly the stored name, visibility and creation time |
| WorkspaceRepository.CreateWorkspaceAsWrittenLosesPrivateFlag | src/domains/workspace/repositories/workspaceRepository.ts:19-23 | as written, a private workspace's record has no visibility field; corrected, it reports false |
| WorkspaceRepository.CreateWorkspaceAddsOnlyOwner | src/domains/workspace/repositories/workspaceRepository.ts:12-17 | the new workspace has exactly one membership, the creator's, as OWNER |
| WorkspaceRepository.FindWorkspaceById | src/domains/workspace/repositories/workspaceRepository.ts:52-63 | found iff the id exists, and then it is that workspace |
| WorkspaceRepository.FindAllByUser | src/domains/workspace/repositories/workspaceRepository.ts:35-50 | exactly the workspaces where the user holds any membership, owner or not |
| WorkspaceRepository.FindByUserAndName | src/domains/workspace/repositories/workspaceRepository.ts:65-75 | exactly those of the user's workspaces with that exact name |
| WorkspaceRepository.FindMembership | src/domains/workspace/repositories/workspaceRepository.ts:77-85 | a lookup by the composite key alone |
| WorkspaceRepository.CreateMember | src/domains/workspace/repositories/workspaceRepository.ts:26-33 | refused iff the pair already has a membership or the workspace is missing; otherwise adds that one key with the given role |
| WorkspaceRepository.CreateMemberThenFind | src/domains/workspace/repositories/workspaceRepository.ts:26-33 | after a create the membership lookup returns the role given, and every other pair reads as before |
| WorkspaceRepository.CreateMemberPreservesValid | src/domains/workspace/repositories/workspaceRepository.ts:26-33 | a MEMBER row created through the repository keeps every store invariant |
| WorkspaceRepository.CreateOwnerBreaksOwnerUnique | src/domains/workspace/repositories/workspaceRepository.ts:26-33 | the repository does not guard the one-owner rule: an OWNER row for an existing workspace is always a second owner |
| WorkspaceRepository.AddMemberKeepsOwners | src/domains/workspace/repositories/workspaceRepository.ts:26-33 | a MEMBER row under a fresh key neither adds nor removes an owner |
| WorkspaceRepository.DeleteMember | src/domains/workspace/repositories/workspaceRepository.ts:103-111 | refused iff the key is absent; otherwise removes exactly that key and changes nothing else |
| WorkspaceRepository.DeleteMemberThenFind | src/domains/workspace/repositories/workspaceRepository.ts:103-111 | after a removal the membership lookup finds nothing for that pair, and every other pair reads as before |
| WorkspaceRepository.FindMembersByWorkspace | src/domains/workspace/repositories/workspaceRepository.ts:87-101 | every membership of the workspace is listed, and each listed entry is exactly that membership with its role and its user's id, email and role |
| WorkspaceRepository.MembersListOneOwner | src/domains/workspace/repositories/workspaceRepository.ts:87-101 | in a consistent store the member list of an existing workspace shows exactly one OWNER |
| WorkspaceRepository.CreateInvitation | src/domains/workspace/repositories/workspaceRepository.ts:113-121 | appends one PENDING invitation under the next id; nothing else changes |
| WorkspaceRepository.FindPendingInvitation | src/domains/workspace/repositories/workspaceRepository.ts:123-130 | a result is PENDING for that workspace and invitee; none iff no such invitation exists |
| WorkspaceRepository.FindInvitationById | src/domains/workspace/repositories/workspaceRepository.ts:158-163 | a result has that id; none iff no invitation has it |
| WorkspaceRepository.FindInvitationByIdOfMember | src/domains/workspace/repositories/workspaceRepository.ts:158-163 | with fresh, unique invitation ids, an invitation is the one its own id finds |
| WorkspaceRepository.FirstWithIdAfterSetStatus | src/domains/workspace/repositories/workspaceRepository.ts:158-184 | after a status update the id still finds the same invitation, now with the new status |
| WorkspaceRepository.SetStatusPreservesValid | src/domains/workspace/repositories/workspaceRepository.ts:165-184 | moving invitations out of PENDING keeps every invariant |
| WorkspaceRepository.AcceptInvitationTx | src/domains/workspace/repositories/workspaceRepository.ts:165-178 | refused iff the invitation is missing, the membership exists or the workspace is missing, and then nothing changes; otherwise both the ACCEPTED status and the MEMBER membership |
| WorkspaceRepository.DeclineInvitationTx | src/domains/workspace/repositories/workspaceRepository.ts:180-184 | refused iff the invitation is missing; otherwise only statuses change, to DECLINED |
| WorkspaceRepository.PendingFor | src/domains/workspace/repositories/workspaceRepository.ts:132-137 | an invitation is kept iff it is PENDING and addressed to the user |
| WorkspaceRepository.InsertByDate | src/domains/workspace/repositories/workspaceRepository.ts:153-155 | inserting into a newest-first list keeps it newest-first and adds exactly that element |
| WorkspaceRepository.SortNewestFirst | src/domains/workspace/repositories/workspaceRepository.ts:153-155 | a permutation of the input ordered by creation time, newest first |
| WorkspaceRepository.ListingOf | src/domains/workspace/repositories/workspaceRepository.ts:138-151 | a listing carries its invitation, the id, name and visibility of its workspace when that exists, and the id and email of the user with the inviter id when there is one |
| WorkspaceRepository.FindPendingInvitationsByUser | src/domains/workspace/repositories/workspaceRepository.ts:132-156 | every listed invitation is a stored PENDING one for the user; every such invitation is listed; the list is newest first and has no extras; each comes with its workspace and inviter summaries |
| InvitationService.FirstFailure | src/domains/workspace/services/invitationService.ts:37-78 | none iff every check passes; otherwise the error of a failing check that all earlier checks pass |
| InvitationService.InviteMember | src/domains/workspace/services/invitationService.ts:34-88 | succeeds iff the inviter is a member, the workspace exists, the email resolves, and the invitee is neither a member nor pending; success appends exactly one PENDING invitation for the resolved invitee |
| InvitationService.InviteFollowsCheckOrder | src/domains/workspace/services/invitationService.ts:37-78 | the first failing check, in service order, decides the error; when all pass the call succeeds |
| InvitationService.NonMemberInviterForbidden | src/domains/workspace/services/invitationService.ts:37-50 | a non-member gets 403 even when the workspace does not exist |
| InvitationService.WorkspaceNotFoundUnreachable | src/domains/workspace/services/invitationService.ts:37-50 | in a consistent store, "Workspace not found" is never raised |
| InvitationService.InviteMemberPreservesValid | src/domains/workspace/services/invitationService.ts:67-85 | a successful invitation keeps every invariant, including one PENDING invitation per pair |
| InvitationService.AppendFreshPairKeepsSinglePending | src/domains/workspace/services/invitationService.ts:80-85 | appending a PENDING invitation for a pair with nothing pending keeps at most one PENDING invitation per pair |
| InvitationService.InviteTwiceConflicts | src/domains/workspace/services/invitationService.ts:67-78 | repeating an invitation while the first is pending gives 409 |
| InvitationService.RemoveMember | src/domains/workspace/services/invitationService.ts:90-118 | succeeds iff the caller is OWNER and the target is a MEMBER; success deletes exactly that membership |
| InvitationService.RemoveFollowsCheckOrder | src/domains/workspace/services/invitationService.ts:91-112 | the first failing check decides the error |
| InvitationService.RemoveKeepsOwners | src/domains/workspace/services/invitationService.ts:109-112 | every OWNER membership survives a removal |
| InvitationService.RemoveMemberPreservesValid | src/domains/workspace/services/invitationService.ts:90-118 | a removal keeps every invariant |
| InvitationService.RemoveNonOwnerKeepsOwners | src/domains/workspace/services/invitationService.ts:106-116 | deleting a non-OWNER row keeps exactly one owner in every workspace |
| InvitationService.RemovedMemberLosesWorkspace | src/domains/workspace/services/invitationService.ts:114-115 | the workspace leaves the removed user's list |
| InvitationService.GetPendingInvitations | src/domains/workspace/services/invitationService.ts:120-123 | exactly the user's PENDING invitations, each listed once per stored record, newest first, with their workspace and inviter summaries |
| InvitationService.AcceptInvitation | src/domains/workspace/services/invitationService.ts:125-153 | success only for the invitee of a PENDING invitation who is not yet a member; success adds one MEMBER membership and marks the invitation ACCEPTED, leaving workspaces and users alone |
| InvitationService.AcceptFollowsCheckOrder | src/domains/workspace/services/invitationService.ts:126-147 | the first failing check decides the error; when all pass only a refused transaction can fail |
| InvitationService.AcceptNeverFailsInStore | src/domains/workspace/services/invitationService.ts:149-150 | in a consistent store the transaction is never refused after the checks pass |
| InvitationService.AcceptInvitationPreservesValid | src/domains/workspace/services/invitationService.ts:125-153 | an acceptance keeps every invariant |
| InvitationService.AddMemberPreservesValid | src/domains/workspace/services/invitationService.ts:140-150 | a MEMBER row under a fresh key of an existing workspace keeps every invariant |
| InvitationService.AcceptGrantsWorkspace | src/domains/workspace/services/invitationService.ts:149-150 | after accepting, the workspace is in the user's list |
| InvitationService.AcceptTwiceConflicts | src/domains/workspace/services/invitationService.ts:136-138 | accepting the same invitation again gives 409 "already been processed" and changes nothing |
| InvitationService.InviteThenAccept | src/domains/workspace/services/invitationService.ts:80-152 | an invitation just sent can be accepted by its invitee, who becomes a MEMBER |
| InvitationService.DeclineInvitation | src/domains/workspace/services/invitationService.ts:155-174 | on success only invitation statuses change, to DECLINED; memberships are untouched |
| InvitationService.DeclineFollowsCheckOrder | src/domains/workspace/services/invitationService.ts:156-168 | the same existence, ownership and PENDING checks as accepting, in that order, decide the error |
| InvitationService.DeclineInvitationPreservesValid | src/domains/workspace/services/invitationService.ts:155-174 | declining keeps every invariant |
| InvitationService.DeclineThenAcceptConflicts | src/domains/workspace/services/invitationService.ts:155-173 | a declined invitation can no longer be accepted: it is reported as already processed |
| InvitationOps.NoOperationRemovesAnOwner | src/domains/workspace/services/invitationService.ts:109-112 | no service operation removes or demotes an OWNER membership |
| InvitationOps.EveryOperationPreservesValid | src/domains/workspace/services/invitationService.ts:34-174 | every successful service operation keeps every store invariant |
| InvitationOps.FailuresCarryAnAppError | src/domains/workspace/services/invitationService.ts:34-174 | every refusal is a 403, 404 or 409, or the 500 of a refused transaction |

## Left out

- I/O, the database, HTTP and logging are not modelled. Controllers, routes, cookies, `next()` and the logger are left out. The store is a value, and a refused database write is an `Option` that comes back empty.
- Concurrency is not modelled. Operations are sequential, so races between invites or accepts do not arise.
- The jsonwebtoken, bcrypt, email-format and profanity libraries are function parameters. Expiry and not-before checks live inside `verify`.
- `env.ts` side effects are left out: dotenv loading, console output and `process.exit`.
- The workspace service is an unimplemented stub, so workspace-name uniqueness on creation is not modelled.
- The invite-member validator, the legacy duplicates under `src/auth`, `src/controllers` and `src/errors` (apart from the older error handler), and the seed and test files are left out. Their rules are the ones modelled through the schemas and services above.
- `updatedAt` columns are not stored. No decision reads them.
- `findUnique` lookups are modelled as the earliest row with the key (`Lookup.FirstWithKey`). The database enforces unique keys, and under the store invariant the two agree (`Lookup.FirstWithKeyAt`).
- Text.ToLower: lower-cases ASCII letters only, because JavaScript's full Unicode case mapping is not modelled.
- Validation.ValidateEmail: lengths count characters, not UTF-16 code units, so the 100-character bound differs for astral characters.
- Validation.ValidatePassword: lengths count characters, not UTF-16 code units.
- Validation.ValidateWorkspaceName: the length messages are the schema library's default wording, which the source does not spell out. Lengths count characters, not UTF-16 code units, so the 2..50 bounds differ for astral characters (an emoji counts 1 here and 2 in the source).
- EnvConfig.ValidateEnv: the numeric keys accept only decimal integer spellings (with surrounding white space and an optional sign, the empty string reading as 0). The rest of JavaScript `Number()` coercion (hex, binary, octal, fractions, exponents, `Infinity`) reads as not-a-number here, and the library's default messages are used for missing or unparseable values. The password and secret lengths count characters, not UTF-16 code units, so a secret of sixteen astral characters is refused here although the source accepts it.
- AuthService.Register: the store's "returned nothing" outcome is the `stored` flag. Whatever the store does to return nothing is not modelled.
- Rotation.ShouldRotateRefreshToken: the clock is a parameter, and the threshold is an exact real rather than a floating-point number.
- WorkspaceRepository.InsertWorkspaceWithOwner: the nested OWNER create would fail on an unknown user id because of the user foreign key; the model does not check it. Nothing calls it yet, because the workspace service is a stub.
- WorkspaceRepository.CreateInvitation: the workspace, inviter and invitee foreign keys are not checked. Its only caller, `inviteMember`, has just found the invitee by email, the workspace by id and the inviter's membership in it.
- WorkspaceRepository.CreateMember: a foreign key to the user is not checked. Users are never deleted, and every caller has already looked the user up.
- WorkspaceRepository.AcceptInvitationTx: the user foreign key is not checked, for the same reason.

## Findings

| source | as written | input that shows it | evidently intended | confidence | as-written member | corrected member |
|---|---|---|---|---|---|---|
| src/domains/workspace/repositories/workspaceRepository.ts:21 | the `select` of `createWorkspace` writes `isPublic,` (shorthand for `isPublic: isPublic`), so the flag selects its own column only when it is true | `createWorkspace("Team", false, u)` returns a record without `isPublic` | `isPublic: true`, so the created record always reports its visibility | medium, not executed | WorkspaceRepository.CreateWorkspaceAsWritten | WorkspaceRepository.CreateWorkspace |
