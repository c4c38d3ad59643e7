/** The data migration that relabels the permission groups
    (ops/migrations/0008_update_group_labels.py): the forward step renames
    the legacy "Member" group to "Membre" and makes sure the three groups
    exist; the reverse step renames "Membre" back to "Member". */
module GroupLabels {
  import opened Wrappers

  /** An `auth.Group` row. Renaming keeps the id, so memberships follow. */
  datatype Group = Group(id: nat, name: string)

  /** `GROUPS`. */
  const Groups: seq<string> := ["Admin", "SuperAdmin", "Membre"]

  const LegacyMember: string := "Member"
  const Member: string := "Membre"

  /** The error the database raises when a rename hits the unique name. */
  const IntegrityError: string := "IntegrityError"

  /** `auth.Group.name` is unique. */
  predicate UniqueNames(gs: seq<Group>) {
    forall i, j :: 0 <= i < j < |gs| ==> gs[i].name != gs[j].name
  }

  predicate UniqueIds(gs: seq<Group>) {
    forall i, j :: 0 <= i < j < |gs| ==> gs[i].id != gs[j].id
  }

  predicate HasName(gs: seq<Group>, name: string) {
    exists i :: 0 <= i < |gs| && gs[i].name == name
  }

  /** `Group.objects.get(name=...)`: the row position, or the length when
      the group does not exist. */
  function IndexOfName(gs: seq<Group>, name: string): (i: nat)
    ensures i <= |gs|
    ensures i < |gs| ==> gs[i].name == name
    ensures forall k :: 0 <= k < i ==> gs[k].name != name
    ensures i == |gs| <==> !HasName(gs, name)
  {
    if gs == [] then 0
    else if gs[0].name == name then 0
    else
      var i := 1 + IndexOfName(gs[1..], name);
      assert HasName(gs, name) ==> HasName(gs[1..], name) by {
        if HasName(gs, name) {
          var k :| 0 <= k < |gs| && gs[k].name == name;
          assert gs[1..][k - 1] == gs[k];
        }
      }
      assert HasName(gs[1..], name) ==> HasName(gs, name) by {
        if HasName(gs[1..], name) {
          var k :| 0 <= k < |gs[1..]| && gs[1..][k].name == name;
          assert gs[k + 1] == gs[1..][k];
        }
      }
      i
  }

  /** The id the database gives a new row: above every existing id. */
  function NextId(gs: seq<Group>): (n: nat)
    ensures forall i :: 0 <= i < |gs| ==> gs[i].id < n
  {
    if gs == [] then 1
    else
      var rest := NextId(gs[1..]);
      assert forall i :: 1 <= i < |gs| ==> gs[i] == gs[1..][i - 1];
      if gs[0].id < rest then rest else gs[0].id + 1
  }

  /** `Group.objects.get_or_create(name=name)`. */
  function GetOrCreate(gs: seq<Group>, name: string): seq<Group> {
    if HasName(gs, name) then gs else gs + [Group(NextId(gs), name)]
  }

  /** The loop `for name in GROUPS: get_or_create(name=name)`. */
  function EnsureGroups(gs: seq<Group>, names: seq<string>): seq<Group> {
    if names == [] then gs
    else GetOrCreate(EnsureGroups(gs, names[..|names| - 1]), names[|names| - 1])
  }

  /** Fetch the row named `from` and save it under the name `to`: nothing
      when there is no such row, an integrity error when `to` is taken. */
  function RenameRow(gs: seq<Group>, from: string, to: string): Result<seq<Group>, string> {
    var i := IndexOfName(gs, from);
    if i == |gs| then Success(gs)
    else if HasName(gs, to) then Failure(IntegrityError)
    else Success(gs[i := gs[i].(name := to)])
  }

  /** The forward step as a function of the group table. */
  function Forward(gs: seq<Group>): Result<seq<Group>, string> {
    match RenameRow(gs, LegacyMember, Member)
    case Failure(e) => Failure(e)
    case Success(renamed) => Success(EnsureGroups(renamed, Groups))
  }

  /** The reverse step as a function of the group table. */
  function Backward(gs: seq<Group>): Result<seq<Group>, string> {
    RenameRow(gs, Member, LegacyMember)
  }

  /** `rename_groups`: rename "Member" to "Membre" in place if it exists,
      then get or create each of "Admin", "SuperAdmin" and "Membre". */
  method RenameGroups(groups: seq<Group>) returns (result: Result<seq<Group>, string>)
    requires UniqueNames(groups)
    ensures result == Forward(groups)
  {
    var gs := groups;
    var legacy := IndexOfName(gs, LegacyMember);
    if legacy < |gs| {
      if HasName(gs, Member) {
        return Failure(IntegrityError);
      }
      gs := gs[legacy := gs[legacy].(name := Member)];
    }
    var renamed := gs;
    var k := 0;
    while k < |Groups|
      invariant 0 <= k <= |Groups|
      invariant gs == EnsureGroups(renamed, Groups[..k])
    {
      EnsureGroupsStep(renamed, Groups, k);
      if !HasName(gs, Groups[k]) {
        gs := gs + [Group(NextId(gs), Groups[k])];
      }
      k := k + 1;
    }
    assert Groups[..|Groups|] == Groups;
    return Success(gs);
  }

  lemma EnsureGroupsStep(gs: seq<Group>, names: seq<string>, k: nat)
    requires k < |names|
    ensures EnsureGroups(gs, names[..k + 1]) == GetOrCreate(EnsureGroups(gs, names[..k]), names[k])
  {
    assert names[..k + 1][..k] == names[..k];
  }

  /** `revert_group_changes`: rename "Membre" back to "Member" if it
      exists; nothing else. */
  method RevertGroupChanges(groups: seq<Group>) returns (result: Result<seq<Group>, string>)
    requires UniqueNames(groups)
    ensures result == Backward(groups)
  {
    var member := IndexOfName(groups, Member);
    if member == |groups| {
      return Success(groups);
    }
    if HasName(groups, LegacyMember) {
      return Failure(IntegrityError);
    }
    return Success(groups[member := groups[member].(name := LegacyMember)]);
  }

  // ---------------------------------------------------------------------
  // Properties of get_or_create and of a rename

  /** `get_or_create` keeps every row and appends at most the named one. */
  lemma {:induction false} EnsureGroupsExtends(gs: seq<Group>, names: seq<string>)
    ensures var r := EnsureGroups(gs, names);
      && |gs| <= |r| && r[..|gs|] == gs
      && (forall j :: |gs| <= j < |r| ==> r[j].name in names && !HasName(gs, r[j].name))
      && (forall n :: n in names ==> HasName(r, n))
      && (forall n :: HasName(gs, n) ==> HasName(r, n))
  {
    if names != [] {
      var init, last := names[..|names| - 1], names[|names| - 1];
      EnsureGroupsExtends(gs, init);
      var mid := EnsureGroups(gs, init);
      var r := EnsureGroups(gs, names);
      forall n | HasName(mid, n) ensures HasName(r, n) {
        var i :| 0 <= i < |mid| && mid[i].name == n;
        assert r[i] == mid[i];
      }
      if !HasName(mid, last) {
        assert r[|mid|].name == last;
      }
      forall j | |gs| <= j < |r| ensures r[j].name in names && !HasName(gs, r[j].name) {
        if j < |mid| {
          assert r[j] == mid[j];
        } else {
          assert r[j].name == last;
        }
      }
    }
  }

  /** `get_or_create` keeps names and ids unique. */
  lemma {:induction false} EnsureGroupsUnique(gs: seq<Group>, names: seq<string>)
    requires UniqueNames(gs) && UniqueIds(gs)
    ensures UniqueNames(EnsureGroups(gs, names)) && UniqueIds(EnsureGroups(gs, names))
  {
    if names != [] {
      var init, last := names[..|names| - 1], names[|names| - 1];
      EnsureGroupsUnique(gs, init);
      var mid := EnsureGroups(gs, init);
      if !HasName(mid, last) {
        var r := mid + [Group(NextId(mid), last)];
        forall i, j | 0 <= i < j < |r| ensures r[i].name != r[j].name && r[i].id != r[j].id {
          if j == |mid| {
            assert r[i] == mid[i];
          }
        }
      }
    }
  }

  /** `get_or_create` on names that all exist changes nothing. */
  lemma {:induction false} EnsureGroupsPresent(gs: seq<Group>, names: seq<string>)
    requires forall n :: n in names ==> HasName(gs, n)
    ensures EnsureGroups(gs, names) == gs
  {
    if names != [] {
      EnsureGroupsPresent(gs, names[..|names| - 1]);
    }
  }

  lemma RenameKeepsUnique(gs: seq<Group>, i: nat, to: string)
    requires UniqueNames(gs) && UniqueIds(gs) && i < |gs| && !HasName(gs, to)
    ensures UniqueNames(gs[i := gs[i].(name := to)]) && UniqueIds(gs[i := gs[i].(name := to)])
  {
    var r := gs[i := gs[i].(name := to)];
    forall a, b | 0 <= a < b < |r| ensures r[a].name != r[b].name {
      if a == i {
        assert r[b] == gs[b];
      } else if b == i {
        assert r[a] == gs[a];
      }
    }
  }

  // ---------------------------------------------------------------------
  // The promises of the migration

  /** The forward step fails exactly when both "Member" and "Membre" exist,
      since the rename would duplicate a unique name. */
  lemma ForwardFailsOnlyOnClash(gs: seq<Group>)
    ensures Forward(gs).Failure? <==> HasName(gs, LegacyMember) && HasName(gs, Member)
  {
  }

  /** After the forward step the three groups exist; "Member" is renamed in
      place (same row, same id) to "Membre"; every other row is kept as it
      was; and only groups named in `GROUPS` that were missing are added. */
  lemma ForwardOutcome(gs: seq<Group>)
    requires UniqueNames(gs) && Forward(gs).Success?
    ensures var r := Forward(gs).value;
      && (forall n :: n in Groups ==> HasName(r, n))
      && |gs| <= |r|
      && (forall j :: 0 <= j < |gs| && gs[j].name != LegacyMember ==> r[j] == gs[j])
      && (forall j :: 0 <= j < |gs| && gs[j].name == LegacyMember ==> r[j] == Group(gs[j].id, Member))
      && (forall j :: |gs| <= j < |r| ==> r[j].name in Groups)
  {
    var renamed := RenameRow(gs, LegacyMember, Member).value;
    EnsureGroupsExtends(renamed, Groups);
    var r := Forward(gs).value;
    forall j | 0 <= j < |gs| ensures r[j] == renamed[j] {
    }
  }

  /** Running the forward step again changes nothing. */
  lemma ForwardIdempotent(gs: seq<Group>)
    requires UniqueNames(gs) && Forward(gs).Success?
    ensures Forward(Forward(gs).value) == Forward(gs)
  {
    var r := Forward(gs).value;
    ForwardOutcome(gs);
    assert Member in Groups && LegacyMember !in Groups;
    assert !HasName(r, LegacyMember);
    assert RenameRow(r, LegacyMember, Member) == Success(r);
    EnsureGroupsPresent(r, Groups);
  }

  /** The forward step keeps group names and ids unique. */
  lemma ForwardKeepsUnique(gs: seq<Group>)
    requires UniqueNames(gs) && UniqueIds(gs) && Forward(gs).Success?
    ensures UniqueNames(Forward(gs).value) && UniqueIds(Forward(gs).value)
  {
    var i := IndexOfName(gs, LegacyMember);
    if i < |gs| {
      RenameKeepsUnique(gs, i, Member);
    }
    EnsureGroupsUnique(RenameRow(gs, LegacyMember, Member).value, Groups);
  }

  /** The reverse step renames "Membre" in place or does nothing: it never
      deletes a row, so the groups the forward step created remain. */
  lemma BackwardNeverDeletes(gs: seq<Group>)
    requires Backward(gs).Success?
    ensures var r := Backward(gs).value;
      && |r| == |gs|
      && (forall j :: 0 <= j < |gs| ==> r[j].id == gs[j].id)
      && (forall j :: 0 <= j < |gs| && gs[j].name != Member ==> r[j] == gs[j])
      && (!HasName(gs, Member) ==> r == gs)
  {
  }

  /** The reverse step fails exactly when both "Membre" and "Member"
      exist, since the rename would duplicate a unique name. */
  lemma BackwardFailsOnlyOnClash(gs: seq<Group>)
    ensures Backward(gs).Failure? <==> HasName(gs, Member) && HasName(gs, LegacyMember)
  {
  }

  /** After the reverse step "Membre" is gone: its row is renamed in place
      (same id) to "Member", every other row is kept, and "Member" exists
      exactly when one of the two names existed before. */
  lemma BackwardOutcome(gs: seq<Group>)
    requires UniqueNames(gs) && Backward(gs).Success?
    ensures var r := Backward(gs).value;
      && |r| == |gs|
      && (forall j :: 0 <= j < |gs| && gs[j].name == Member ==> r[j] == Group(gs[j].id, LegacyMember))
      && (forall j :: 0 <= j < |gs| && gs[j].name != Member ==> r[j] == gs[j])
      && !HasName(r, Member)
      && (HasName(r, LegacyMember) <==> HasName(gs, Member) || HasName(gs, LegacyMember))
  {
    var r := Backward(gs).value;
    var i := IndexOfName(gs, Member);
    if i < |gs| {
      assert r == gs[i := Group(gs[i].id, LegacyMember)];
      assert forall j :: 0 <= j < |gs| && j != i ==> gs[j].name != Member;
      assert r[i].name == LegacyMember;
    }
  }

  /** When there was no "Membre" group, reverting the forward step restores
      every original row; only the groups it created remain, with "Membre"
      read back as "Member". */
  lemma BackwardUndoesRename(gs: seq<Group>)
    requires UniqueNames(gs) && !HasName(gs, Member)
    ensures Forward(gs).Success?
    ensures Backward(Forward(gs).value).Success?
    ensures var b := Backward(Forward(gs).value).value;
      |gs| <= |b| && b[..|gs|] == gs
  {
    var r := Forward(gs).value;
    var i := IndexOfName(gs, LegacyMember);
    ForwardOutcome(gs);
    assert Member in Groups && LegacyMember !in Groups;
    assert !HasName(r, LegacyMember);
    var m := IndexOfName(r, Member);
    assert forall k :: 0 <= k < |gs| && k != i ==> r[k] == gs[k] && r[k].name != Member;
    assert m == i || m >= |gs|;
    var b := Backward(r).value;
    forall j | 0 <= j < |gs| ensures b[j] == gs[j] {
    }
  }
}
