/** The access predicates of the operations views (ops/permissions.py).

    A user's groups are the rows of the group table whose ids the user
    holds, so a rename of a group row (see `GroupLabels`) changes what the
    predicates answer for every member of that group. */
module Permissions {
  import opened GroupLabels

  /** The parts of `auth.User` the predicates read: the authentication and
      superuser flags and the ids of the groups the user belongs to. */
  datatype User = User(pk: nat, isAuthenticated: bool, isSuperuser: bool, groupIds: set<nat>)

  /** `MANAGER_GROUPS`. */
  const ManagerGroups: seq<string> := ["Admin", "SuperAdmin"]

  /** `MEMBER_GROUPS`: the manager groups plus the legacy "Member" group. */
  const MemberGroups: seq<string> := ManagerGroups + [LegacyMember]

  /** The names of the groups the user belongs to. */
  function GroupNames(user: User, table: seq<Group>): set<string> {
    set j | 0 <= j < |table| && table[j].id in user.groupIds :: table[j].name
  }

  /** `user.groups.filter(name__in=names).exists()`: some row of the group
      table is one of the user's groups and carries one of the names. */
  predicate InNamedGroup(user: User, table: seq<Group>, names: seq<string>) {
    exists j :: 0 <= j < |table| && table[j].id in user.groupIds && table[j].name in names
  }

  /** `user_in_groups`: false for an anonymous user, true for a superuser,
      otherwise whether one of the user's group names is listed. */
  function UserInGroups(user: User, table: seq<Group>, names: seq<string>): (r: bool)
    ensures !user.isAuthenticated ==> !r
    ensures user.isAuthenticated && user.isSuperuser ==> r
    ensures user.isAuthenticated && !user.isSuperuser ==>
      (r <==> exists n :: n in names && n in GroupNames(user, table))
  {
    if !user.isAuthenticated then false
    else if user.isSuperuser then true
    else
      InNamedGroupByName(user, table, names);
      InNamedGroup(user, table, names)
  }

  /** The row test and the name test agree. */
  lemma InNamedGroupByName(user: User, table: seq<Group>, names: seq<string>)
    ensures InNamedGroup(user, table, names) <==> exists n :: n in names && n in GroupNames(user, table)
  {
    if InNamedGroup(user, table, names) {
      var j :| 0 <= j < |table| && table[j].id in user.groupIds && table[j].name in names;
      assert table[j].name in GroupNames(user, table);
    }
  }

  /** `can_manage_ops`. */
  function CanManageOps(user: User, table: seq<Group>): (r: bool)
    ensures r <==> (user.isAuthenticated &&
      (user.isSuperuser || "Admin" in GroupNames(user, table) || "SuperAdmin" in GroupNames(user, table)))
  {
    UserInGroups(user, table, ManagerGroups)
  }

  /** `can_access_member_home`: anonymous users are refused, managers are
      admitted, and otherwise membership of a member group decides. */
  function CanAccessMemberHome(user: User, table: seq<Group>): (r: bool)
    ensures !user.isAuthenticated ==> !r
    ensures CanManageOps(user, table) ==> r
  {
    if !user.isAuthenticated then false
    else if CanManageOps(user, table) then true
    else UserInGroups(user, table, MemberGroups)
  }

  /** Listing more group names never takes access away. */
  lemma UserInGroupsMonotone(user: User, table: seq<Group>, names: seq<string>, more: seq<string>)
    requires forall n :: n in names ==> n in more
    ensures UserInGroups(user, table, names) ==> UserInGroups(user, table, more)
  {
  }

  /** The manager test inside `can_access_member_home` is subsumed by the
      member groups: the page is open exactly to the member groups. */
  lemma MemberHomeIsMemberGroups(user: User, table: seq<Group>)
    ensures CanAccessMemberHome(user, table) == UserInGroups(user, table, MemberGroups)
  {
    UserInGroupsMonotone(user, table, ManagerGroups, MemberGroups);
  }

  /** The page is open to a non-superuser exactly when one of the user's
      group names is "Admin", "SuperAdmin" or "Member". */
  lemma MemberHomeByName(user: User, table: seq<Group>)
    requires user.isAuthenticated && !user.isSuperuser
    ensures CanAccessMemberHome(user, table) <==>
      "Admin" in GroupNames(user, table) || "SuperAdmin" in GroupNames(user, table) ||
      LegacyMember in GroupNames(user, table)
  {
    MemberHomeIsMemberGroups(user, table);
  }

  // ---------------------------------------------------------------------
  // Member access across the group relabelling

  /** As written, once the legacy group has been relabelled, the member
      groups still name "Member": for a user who is neither superuser nor
      manager, the page is shut, whatever the user's groups. */
  lemma AfterRelabelOnlyManagersAdmitted(user: User, gs: seq<Group>)
    requires UniqueNames(gs) && Forward(gs).Success?
    ensures CanAccessMemberHome(user, Forward(gs).value) == CanManageOps(user, Forward(gs).value)
  {
    var r := Forward(gs).value;
    ForwardOutcome(gs);
    assert Member in Groups && LegacyMember !in Groups;
    assert !HasName(r, LegacyMember);
    assert LegacyMember !in GroupNames(user, r);
    if user.isAuthenticated && !user.isSuperuser {
      MemberHomeByName(user, r);
    }
  }

  /** A member of the legacy "Member" group is admitted before the
      relabelling and refused after it. */
  lemma MemberLosesAccess()
    ensures var gs := [Group(1, LegacyMember)];
      var u := User(7, true, false, {1});
      && Forward(gs).Success?
      && CanAccessMemberHome(u, gs)
      && !CanAccessMemberHome(u, Forward(gs).value)
  {
    var gs := [Group(1, LegacyMember)];
    var u := User(7, true, false, {1});
    assert LegacyMember in GroupNames(u, gs) by {
      assert gs[0].id in u.groupIds;
    }
    MemberHomeByName(u, gs);
    AfterRelabelOnlyManagersAdmitted(u, gs);
    var r := Forward(gs).value;
    ForwardOutcome(gs);
    assert r[0] == Group(1, Member);
    assert GroupNames(u, r) == {Member} by {
      EnsureGroupsUnique(RenameRow(gs, LegacyMember, Member).value, Groups);
      ForwardKeepsUnique(gs);
      forall n | n in GroupNames(u, r) ensures n == Member {
        var j :| 0 <= j < |r| && r[j].id in u.groupIds && r[j].name == n;
        assert r[j].id == r[0].id;
      }
      assert r[0].name in GroupNames(u, r);
    }
  }

  /** The member groups the relabelling calls for: the manager groups plus
      "Membre". */
  const RelabelledMemberGroups: seq<string> := ManagerGroups + [Member]

  /** `can_access_member_home` with the relabelled member group. */
  function CanAccessMemberHomeRelabelled(user: User, table: seq<Group>): (r: bool)
    ensures !user.isAuthenticated ==> !r
    ensures CanManageOps(user, table) ==> r
    ensures user.isAuthenticated && !user.isSuperuser ==>
      (r <==> "Admin" in GroupNames(user, table) || "SuperAdmin" in GroupNames(user, table) ||
              Member in GroupNames(user, table))
  {
    if !user.isAuthenticated then false
    else if CanManageOps(user, table) then true
    else UserInGroups(user, table, RelabelledMemberGroups)
  }

  /** With the relabelled member group, whoever reached the page before the
      forward relabelling (as written then) still reaches it afterwards. */
  lemma RelabelledKeepsAccess(user: User, gs: seq<Group>)
    requires UniqueNames(gs) && Forward(gs).Success?
    requires CanAccessMemberHome(user, gs)
    ensures CanAccessMemberHomeRelabelled(user, Forward(gs).value)
  {
    var r := Forward(gs).value;
    ForwardOutcome(gs);
    if !user.isSuperuser {
      MemberHomeByName(user, gs);
      var n :| n in GroupNames(user, gs) && (n == "Admin" || n == "SuperAdmin" || n == LegacyMember);
      var j :| 0 <= j < |gs| && gs[j].id in user.groupIds && gs[j].name == n;
      assert r[j].id == gs[j].id;
      if n == LegacyMember {
        assert r[j].name == Member;
        assert Member in GroupNames(user, r);
      } else {
        assert r[j] == gs[j];
        assert n in GroupNames(user, r);
      }
    }
  }
}
