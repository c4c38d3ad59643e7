/** Display helpers of the operations app (ops/services.py): grouping a
    ship's role slots by role name, attaching them to a ship, and grouping
    ships by category. Both groupings are partitions of their input that
    keep the input order within each group. */
module Services {
  import opened Wrappers
  import opened Models

  // ---------------------------------------------------------------------
  // Slots grouped by role (`prepare_slots_for_display`)

  /** `RoleSlot`: one seat of a role on a ship; `user` is the username of
      the member in the seat, `None` for an open seat. */
  datatype RoleSlot = RoleSlot(ship: string, roleName: string, index: nat, user: Option<string>, status: string)

  /** A slot as the page shows it: whether an edit form is attached and the
      CSS class of its status badge. */
  datatype DisplaySlot = DisplaySlot(slot: RoleSlot, hasForm: bool, badgeClass: string)

  /** A role name and the slots shown under it. */
  type Group = (string, seq<DisplaySlot>)

  /** `STATUS_BADGES` (ops/constants.py). */
  const StatusBadges: map<string, string> := map[
    "open" := "bg-white/10 text-white/60 border border-white/20",
    "assigned" := "bg-amber-500/20 text-amber-200 border border-amber-500/40",
    "confirmed" := "bg-emerald-500/20 text-emerald-200 border border-emerald-500/40"]

  /** `STATUS_BADGES.get(status, STATUS_BADGES["open"])`: every status gets
      one of the declared badges, the "open" one when it is unknown. */
  function BadgeClass(status: string): (badge: string)
    ensures badge in StatusBadges.Values
    ensures status in StatusBadges ==> badge == StatusBadges[status]
    ensures status !in StatusBadges ==> badge == StatusBadges["open"]
  {
    if status in StatusBadges then StatusBadges[status] else StatusBadges["open"]
  }

  /** One slot after the loop body: a form only when editing is allowed. */
  function Annotate(slot: RoleSlot, canEdit: bool): DisplaySlot {
    DisplaySlot(slot, canEdit, BadgeClass(slot.status))
  }

  /** The slots behind a list of shown slots, in the same order. */
  function SlotsShown(shown: seq<DisplaySlot>): (slots: seq<RoleSlot>)
    ensures |slots| == |shown|
  {
    seq(|shown|, i requires 0 <= i < |shown| => shown[i].slot)
  }

  /** The annotation loop over a list of slots. It keeps every slot, in
      order: the slots behind the shown list are the input. Every shown
      slot carries the form flag and the badge of its own status. */
  function AnnotateAll(slots: seq<RoleSlot>, canEdit: bool): (shown: seq<DisplaySlot>)
    ensures SlotsShown(shown) == slots
    ensures forall d :: d in shown ==> d.hasForm == canEdit && d.badgeClass == BadgeClass(d.slot.status)
    ensures forall i :: 0 <= i < |slots| ==> shown[i] == Annotate(slots[i], canEdit)
  {
    seq(|slots|, i requires 0 <= i < |slots| => Annotate(slots[i], canEdit))
  }

  predicate Distinct(keys: seq<string>) {
    forall i, j :: 0 <= i < j < |keys| ==> keys[i] != keys[j]
  }

  predicate HasRole(slots: seq<RoleSlot>, role: string) {
    exists i :: 0 <= i < |slots| && slots[i].roleName == role
  }

  /** The distinct role names, each where it first appears. */
  function RoleOrder(slots: seq<RoleSlot>): (keys: seq<string>)
    ensures Distinct(keys)
    ensures forall r :: r in keys <==> HasRole(slots, r)
  {
    if slots == [] then []
    else
      var init, last := slots[..|slots| - 1], slots[|slots| - 1];
      var keys := RoleOrder(init);
      assert forall r :: HasRole(slots, r) <==> HasRole(init, r) || r == last.roleName by {
        forall r | HasRole(init, r) ensures HasRole(slots, r) {
          var i :| 0 <= i < |init| && init[i].roleName == r;
          assert slots[i] == init[i];
        }
        assert slots[|slots| - 1].roleName == last.roleName;
      }
      if last.roleName in keys then keys else keys + [last.roleName]
  }

  /** The slots of one role, in input order: a slot is kept exactly when
      it has that role. */
  function SlotsWithRole(slots: seq<RoleSlot>, role: string): (r: seq<RoleSlot>)
    ensures forall s :: s in r <==> s in slots && s.roleName == role
    ensures |r| <= |slots|
  {
    if slots == [] then []
    else
      var init, last := slots[..|slots| - 1], slots[|slots| - 1];
      assert slots == init + [last];
      SlotsWithRole(init, role) + (if last.roleName == role then [last] else [])
  }

  /** The grouping the source builds: one group per role, in order of first
      appearance, holding that role's slots in input order. */
  function GroupedSlots(slots: seq<RoleSlot>, canEdit: bool): (g: seq<Group>)
    ensures |g| == |RoleOrder(slots)|
  {
    var keys := RoleOrder(slots);
    seq(|keys|, j requires 0 <= j < |keys| => (keys[j], AnnotateAll(SlotsWithRole(slots, keys[j]), canEdit)))
  }

  /** `grouped.setdefault(key, ...)` looks the key up: its position, or the
      length when it is absent. */
  function KeyIndex(groups: seq<Group>, key: string): (j: nat)
    ensures j <= |groups|
    ensures j < |groups| ==> groups[j].0 == key
    ensures forall k :: 0 <= k < j ==> groups[k].0 != key
  {
    if groups == [] then 0
    else if groups[0].0 == key then 0
    else 1 + KeyIndex(groups[1..], key)
  }

  lemma RoleOrderStep(slots: seq<RoleSlot>, x: RoleSlot)
    ensures RoleOrder(slots + [x]) ==
      if x.roleName in RoleOrder(slots) then RoleOrder(slots) else RoleOrder(slots) + [x.roleName]
  {
    var s := slots + [x];
    assert s[..|s| - 1] == slots && s[|s| - 1] == x;
  }

  lemma SlotsWithRoleStep(slots: seq<RoleSlot>, x: RoleSlot, role: string)
    ensures SlotsWithRole(slots + [x], role) ==
      SlotsWithRole(slots, role) + (if x.roleName == role then [x] else [])
  {
    var s := slots + [x];
    assert s[..|s| - 1] == slots && s[|s| - 1] == x;
  }

  lemma {:induction false} SlotsWithRoleAbsent(slots: seq<RoleSlot>, role: string)
    requires !HasRole(slots, role)
    ensures SlotsWithRole(slots, role) == []
  {
    if slots != [] {
      var init := slots[..|slots| - 1];
      assert slots[|slots| - 1].roleName != role;
      assert !HasRole(init, role) by {
        forall i | 0 <= i < |init| ensures init[i].roleName != role {
          assert init[i] == slots[i];
        }
      }
      SlotsWithRoleAbsent(init, role);
    }
  }

  lemma GroupAt(slots: seq<RoleSlot>, canEdit: bool, k: nat)
    requires k < |RoleOrder(slots)|
    ensures GroupedSlots(slots, canEdit)[k] ==
      (RoleOrder(slots)[k], AnnotateAll(SlotsWithRole(slots, RoleOrder(slots)[k]), canEdit))
  {
  }

  /** `setdefault` finds the group of a role exactly when the role was
      already seen. */
  lemma KeyIndexOfGrouped(slots: seq<RoleSlot>, canEdit: bool, role: string)
    ensures var j := KeyIndex(GroupedSlots(slots, canEdit), role);
      (j < |RoleOrder(slots)| <==> role in RoleOrder(slots)) &&
      (j < |RoleOrder(slots)| ==> RoleOrder(slots)[j] == role)
  {
    var g, keys := GroupedSlots(slots, canEdit), RoleOrder(slots);
    var j := KeyIndex(g, role);
    if j < |keys| {
      GroupAt(slots, canEdit, j);
    }
    if role in keys {
      var k :| 0 <= k < |keys| && keys[k] == role;
      GroupAt(slots, canEdit, k);
    }
  }

  /** A slot of a role already seen joins the end of that role's group. */
  lemma GroupedSlotsStepSeen(slots: seq<RoleSlot>, x: RoleSlot, canEdit: bool, j: nat)
    requires j < |RoleOrder(slots)| && RoleOrder(slots)[j] == x.roleName
    ensures var g := GroupedSlots(slots, canEdit);
      GroupedSlots(slots + [x], canEdit) == g[j := (x.roleName, g[j].1 + [Annotate(x, canEdit)])]
  {
    var s := slots + [x];
    var g, g' := GroupedSlots(slots, canEdit), GroupedSlots(s, canEdit);
    RoleOrderStep(slots, x);
    assert RoleOrder(s) == RoleOrder(slots);
    var expected := g[j := (x.roleName, g[j].1 + [Annotate(x, canEdit)])];
    forall k | 0 <= k < |g| ensures g'[k] == expected[k] {
      SeenStepAt(slots, x, canEdit, j, k);
    }
  }

  lemma SeenStepAt(slots: seq<RoleSlot>, x: RoleSlot, canEdit: bool, j: nat, k: nat)
    requires j < |RoleOrder(slots)| && RoleOrder(slots)[j] == x.roleName
    requires k < |RoleOrder(slots)| && RoleOrder(slots + [x]) == RoleOrder(slots)
    ensures var g := GroupedSlots(slots, canEdit);
      GroupedSlots(slots + [x], canEdit)[k] ==
        if k == j then (x.roleName, g[j].1 + [Annotate(x, canEdit)]) else g[k]
  {
    var s := slots + [x];
    var r := RoleOrder(slots)[k];
    var before := SlotsWithRole(slots, r);
    SlotsWithRoleStep(slots, x, r);
    GroupAt(s, canEdit, k);
    GroupAt(slots, canEdit, k);
    if k == j {
      assert SlotsWithRole(s, r) == before + [x];
      AnnotateAllAppend(before, x, canEdit);
    } else {
      assert r != x.roleName;
      assert SlotsWithRole(s, r) == before;
    }
  }

  lemma AnnotateAllAppend(slots: seq<RoleSlot>, x: RoleSlot, canEdit: bool)
    ensures AnnotateAll(slots + [x], canEdit) == AnnotateAll(slots, canEdit) + [Annotate(x, canEdit)]
  {
  }

  /** A slot of a new role opens a new group at the end. */
  lemma GroupedSlotsStepNew(slots: seq<RoleSlot>, x: RoleSlot, canEdit: bool)
    requires x.roleName !in RoleOrder(slots)
    ensures GroupedSlots(slots + [x], canEdit) ==
      GroupedSlots(slots, canEdit) + [(x.roleName, [Annotate(x, canEdit)])]
  {
    var g, g' := GroupedSlots(slots, canEdit), GroupedSlots(slots + [x], canEdit);
    RoleOrderStep(slots, x);
    var expected := g + [(x.roleName, [Annotate(x, canEdit)])];
    assert |g'| == |expected|;
    forall k | 0 <= k < |g'| ensures g'[k] == expected[k] {
      if k < |g| {
        NewStepOld(slots, x, canEdit, k);
      } else {
        NewStepLast(slots, x, canEdit);
      }
    }
  }

  lemma NewStepLast(slots: seq<RoleSlot>, x: RoleSlot, canEdit: bool)
    requires x.roleName !in RoleOrder(slots)
    ensures |GroupedSlots(slots + [x], canEdit)| == |RoleOrder(slots)| + 1
    ensures GroupedSlots(slots + [x], canEdit)[|RoleOrder(slots)|] == (x.roleName, [Annotate(x, canEdit)])
  {
    NewRoleKey(slots, x);
    NewRoleSlots(slots, x);
    SoleGroup(slots + [x], canEdit, |RoleOrder(slots)|, x);
  }

  /** The last key's group, when that key has a single slot. */
  lemma SoleGroup(slots: seq<RoleSlot>, canEdit: bool, k: nat, x: RoleSlot)
    requires |RoleOrder(slots)| == k + 1 && RoleOrder(slots)[k] == x.roleName
    requires SlotsWithRole(slots, x.roleName) == [x]
    ensures |GroupedSlots(slots, canEdit)| == k + 1
    ensures GroupedSlots(slots, canEdit)[k] == (x.roleName, [Annotate(x, canEdit)])
  {
    GroupOf(slots, canEdit, k, x.roleName);
    assert AnnotateAll([x], canEdit) == [Annotate(x, canEdit)];
  }

  lemma NewRoleKey(slots: seq<RoleSlot>, x: RoleSlot)
    requires x.roleName !in RoleOrder(slots)
    ensures |RoleOrder(slots + [x])| == |RoleOrder(slots)| + 1
    ensures RoleOrder(slots + [x])[|RoleOrder(slots)|] == x.roleName
  {
    RoleOrderStep(slots, x);
  }

  lemma GroupOf(slots: seq<RoleSlot>, canEdit: bool, k: nat, role: string)
    requires k < |RoleOrder(slots)| && RoleOrder(slots)[k] == role
    ensures GroupedSlots(slots, canEdit)[k] == (role, AnnotateAll(SlotsWithRole(slots, role), canEdit))
  {
  }

  /** The first slot of a role is, so far, the only one of that role. */
  lemma NewRoleSlots(slots: seq<RoleSlot>, x: RoleSlot)
    requires x.roleName !in RoleOrder(slots)
    ensures SlotsWithRole(slots + [x], x.roleName) == [x]
  {
    SlotsWithRoleAbsent(slots, x.roleName);
    SlotsWithRoleStep(slots, x, x.roleName);
  }

  lemma NewStepOld(slots: seq<RoleSlot>, x: RoleSlot, canEdit: bool, k: nat)
    requires x.roleName !in RoleOrder(slots)
    requires k < |RoleOrder(slots)|
    ensures k < |GroupedSlots(slots + [x], canEdit)|
    ensures GroupedSlots(slots + [x], canEdit)[k] == GroupedSlots(slots, canEdit)[k]
  {
    var s := slots + [x];
    var keys := RoleOrder(slots);
    RoleOrderStep(slots, x);
    var r := keys[k];
    assert RoleOrder(s)[k] == r;
    assert r != x.roleName;
    SlotsWithRoleStep(slots, x, r);
    assert SlotsWithRole(s, r) == SlotsWithRole(slots, r);
    GroupAt(s, canEdit, k);
    GroupAt(slots, canEdit, k);
  }

  /** One more slot either extends the group of its role or opens a new
      group at the end, as `setdefault(...).append(...)` does. */
  lemma GroupedSlotsStep(slots: seq<RoleSlot>, x: RoleSlot, canEdit: bool)
    ensures var g := GroupedSlots(slots, canEdit);
      var j := KeyIndex(g, x.roleName);
      GroupedSlots(slots + [x], canEdit) ==
        if j < |g| then g[j := (x.roleName, g[j].1 + [Annotate(x, canEdit)])]
        else g + [(x.roleName, [Annotate(x, canEdit)])]
  {
    var g := GroupedSlots(slots, canEdit);
    var j := KeyIndex(g, x.roleName);
    KeyIndexOfGrouped(slots, canEdit, x.roleName);
    if j < |g| {
      GroupedSlotsStepSeen(slots, x, canEdit, j);
    } else {
      GroupedSlotsStepNew(slots, x, canEdit);
    }
  }

  /** `prepare_slots_for_display`: annotate every slot (a form only when
      editing is allowed, the badge of its status) and append it to the
      group of its role, creating the group on first sight. */
  method PrepareSlotsForDisplay(slots: seq<RoleSlot>, canEdit: bool) returns (grouped: seq<Group>)
    ensures grouped == GroupedSlots(slots, canEdit)
  {
    grouped := [];
    var i := 0;
    while i < |slots|
      invariant 0 <= i <= |slots|
      invariant grouped == GroupedSlots(slots[..i], canEdit)
    {
      grouped := AddSlot(grouped, slots[..i], slots[i], canEdit);
      SlotsPrefixStep(slots, i);
      i := i + 1;
    }
    assert slots[..|slots|] == slots;
  }

  lemma SlotsPrefixStep(slots: seq<RoleSlot>, i: nat)
    requires i < |slots|
    ensures slots[..i + 1] == slots[..i] + [slots[i]]
  {
  }

  /** The loop body of `prepare_slots_for_display`: annotate one slot and
      append it to the group of its role, opening the group if needed. */
  method AddSlot(grouped: seq<Group>, ghost seen: seq<RoleSlot>, slot: RoleSlot, canEdit: bool)
    returns (result: seq<Group>)
    requires grouped == GroupedSlots(seen, canEdit)
    ensures result == GroupedSlots(seen + [slot], canEdit)
  {
    var shown := Annotate(slot, canEdit);
    var j := KeyIndex(grouped, slot.roleName);
    if j < |grouped| {
      result := grouped[j := (slot.roleName, grouped[j].1 + [shown])];
    } else {
      result := grouped + [(slot.roleName, [shown])];
    }
    GroupedSlotsStep(seen, slot, canEdit);
  }

  /** The shape of the grouping: distinct keys, every slot's role among
      them, and each group made of its own role's slots, annotated. */
  lemma GroupedSlotsShape(slots: seq<RoleSlot>, canEdit: bool)
    ensures var g := GroupedSlots(slots, canEdit);
      && (forall j, k :: 0 <= j < k < |g| ==> g[j].0 != g[k].0)
      && (forall i :: 0 <= i < |slots| ==> exists j :: 0 <= j < |g| && g[j].0 == slots[i].roleName)
      && (forall j, d :: 0 <= j < |g| && d in g[j].1 ==>
            d.slot.roleName == g[j].0 && d.hasForm == canEdit && d.badgeClass == BadgeClass(d.slot.status))
  {
    var g := GroupedSlots(slots, canEdit);
    forall j, k | 0 <= j < k < |g| ensures g[j].0 != g[k].0 {
      GroupKeysDistinct(slots, canEdit, j, k);
    }
    forall i | 0 <= i < |slots| ensures exists j :: 0 <= j < |g| && g[j].0 == slots[i].roleName {
      SlotHasGroup(slots, canEdit, i);
    }
    forall j, d | 0 <= j < |g| && d in g[j].1
      ensures d.slot.roleName == g[j].0 && d.hasForm == canEdit && d.badgeClass == BadgeClass(d.slot.status)
    {
      GroupMember(slots, canEdit, j, d);
    }
  }

  lemma GroupKeysDistinct(slots: seq<RoleSlot>, canEdit: bool, j: nat, k: nat)
    requires j < k < |GroupedSlots(slots, canEdit)|
    ensures GroupedSlots(slots, canEdit)[j].0 != GroupedSlots(slots, canEdit)[k].0
  {
    GroupAt(slots, canEdit, j);
    GroupAt(slots, canEdit, k);
  }

  lemma SlotHasGroup(slots: seq<RoleSlot>, canEdit: bool, i: nat)
    requires i < |slots|
    ensures exists j :: 0 <= j < |GroupedSlots(slots, canEdit)| && GroupedSlots(slots, canEdit)[j].0 == slots[i].roleName
  {
    var keys := RoleOrder(slots);
    assert HasRole(slots, slots[i].roleName);
    var j :| 0 <= j < |keys| && keys[j] == slots[i].roleName;
    GroupAt(slots, canEdit, j);
  }

  lemma GroupMember(slots: seq<RoleSlot>, canEdit: bool, j: nat, d: DisplaySlot)
    requires j < |GroupedSlots(slots, canEdit)| && d in GroupedSlots(slots, canEdit)[j].1
    ensures var g := GroupedSlots(slots, canEdit);
      d.slot.roleName == g[j].0 && d.hasForm == canEdit && d.badgeClass == BadgeClass(d.slot.status)
  {
    var g, keys := GroupedSlots(slots, canEdit), RoleOrder(slots);
    var members := SlotsWithRole(slots, keys[j]);
    GroupAt(slots, canEdit, j);
    var m :| 0 <= m < |g[j].1| && g[j].1[m] == d;
    assert d == Annotate(members[m], canEdit);
    assert members[m] in members;
  }

  /** Position of the first slot of a role. */
  function FirstIndex(slots: seq<RoleSlot>, role: string): (i: nat)
    requires HasRole(slots, role)
    ensures i < |slots| && slots[i].roleName == role
    ensures forall k :: 0 <= k < i ==> slots[k].roleName != role
  {
    if slots[0].roleName == role then 0
    else
      assert HasRole(slots[1..], role) by {
        var i :| 0 <= i < |slots| && slots[i].roleName == role;
        assert slots[1..][i - 1] == slots[i];
      }
      1 + FirstIndex(slots[1..], role)
  }

  /** Each role's key comes before the keys of the roles that first
      appear later. */
  predicate InFirstAppearanceOrder(slots: seq<RoleSlot>) {
    forall j, k :: 0 <= j < k < |RoleOrder(slots)| ==>
      FirstIndex(slots, RoleOrder(slots)[j]) < FirstIndex(slots, RoleOrder(slots)[k])
  }

  /** Groups come in order of each role's first appearance in the input. */
  lemma {:induction false} RoleOrderIsFirstAppearance(slots: seq<RoleSlot>)
    ensures InFirstAppearanceOrder(slots)
  {
    if slots != [] {
      var init, last := slots[..|slots| - 1], slots[|slots| - 1];
      assert init + [last] == slots;
      RoleOrderIsFirstAppearance(init);
      forall j, k | 0 <= j < k < |RoleOrder(slots)|
        ensures FirstIndex(slots, RoleOrder(slots)[j]) < FirstIndex(slots, RoleOrder(slots)[k])
      {
        FirstAppearanceStep(init, last, j, k);
      }
    }
  }

  /** The order survives one more slot. */
  lemma FirstAppearanceStep(init: seq<RoleSlot>, last: RoleSlot, j: nat, k: nat)
    requires InFirstAppearanceOrder(init)
    requires j < k < |RoleOrder(init + [last])|
    ensures FirstIndex(init + [last], RoleOrder(init + [last])[j]) < FirstIndex(init + [last], RoleOrder(init + [last])[k])
  {
    var keys, keys' := RoleOrder(init), RoleOrder(init + [last]);
    RoleOrderStep(init, last);
    assert keys'[j] == keys[j] && keys[j] in keys;
    FirstIndexExtend(init, last, keys[j]);
    if k < |keys| {
      assert keys'[k] == keys[k] && keys[k] in keys;
      FirstIndexExtend(init, last, keys[k]);
    } else {
      assert keys'[k] == last.roleName && !HasRole(init, last.roleName);
      FirstIndexNew(init, last);
    }
  }

  /** Appending a slot does not move the first slot of a role already
      present. */
  lemma FirstIndexExtend(init: seq<RoleSlot>, last: RoleSlot, r: string)
    requires HasRole(init, r)
    ensures HasRole(init + [last], r) && FirstIndex(init + [last], r) == FirstIndex(init, r)
  {
    var slots := init + [last];
    var b := FirstIndex(init, r);
    assert slots[b] == init[b];
    var a := FirstIndex(slots, r);
    if a < |init| {
      assert init[a] == slots[a];
    }
  }

  /** The first slot of a new role is the appended one. */
  lemma FirstIndexNew(init: seq<RoleSlot>, last: RoleSlot)
    requires !HasRole(init, last.roleName)
    ensures HasRole(init + [last], last.roleName) && FirstIndex(init + [last], last.roleName) == |init|
  {
    var slots := init + [last];
    assert slots[|init|] == last;
    assert forall i :: 0 <= i < |init| ==> slots[i] == init[i];
  }

  /** The number of slots shown over all groups. */
  function TotalShown(groups: seq<Group>): nat {
    if groups == [] then 0 else TotalShown(groups[..|groups| - 1]) + |groups[|groups| - 1].1|
  }

  lemma {:induction false} TotalShownUpdate(groups: seq<Group>, j: nat, g: Group)
    requires j < |groups|
    ensures TotalShown(groups[j := g]) == TotalShown(groups) - |groups[j].1| + |g.1|
  {
    var n := |groups|;
    var u := groups[j := g];
    assert u[..n - 1] == if j < n - 1 then groups[..n - 1][j := g] else groups[..n - 1];
    if j < n - 1 {
      TotalShownUpdate(groups[..n - 1], j, g);
    }
  }

  /** Grouping loses and duplicates no slot: the groups hold exactly as
      many slots as the input. */
  lemma {:induction false} GroupedSlotsCount(slots: seq<RoleSlot>, canEdit: bool)
    ensures TotalShown(GroupedSlots(slots, canEdit)) == |slots|
  {
    if slots != [] {
      var init, last := slots[..|slots| - 1], slots[|slots| - 1];
      assert slots == init + [last];
      GroupedSlotsCount(init, canEdit);
      GroupedSlotsStep(init, last, canEdit);
      var g := GroupedSlots(init, canEdit);
      var j := KeyIndex(g, last.roleName);
      if j < |g| {
        TotalShownUpdate(g, j, (last.roleName, g[j].1 + [Annotate(last, canEdit)]));
      } else {
        var g' := g + [(last.roleName, [Annotate(last, canEdit)])];
        assert g'[..|g'| - 1] == g;
      }
    }
  }

  /** Filtering by role keeps the input order: the slots of a role in a
      longer list are those of the first part followed by those of the
      second. */
  lemma {:induction false} SlotsWithRoleConcat(a: seq<RoleSlot>, b: seq<RoleSlot>, role: string)
    ensures SlotsWithRole(a + b, role) == SlotsWithRole(a, role) + SlotsWithRole(b, role)
    decreases |b|
  {
    if b == [] {
      assert a + b == a;
    } else {
      var init, last := b[..|b| - 1], b[|b| - 1];
      assert a + b == (a + init) + [last] && b == init + [last];
      SlotsWithRoleConcat(a, init, role);
      SlotsWithRoleStep(a + init, last, role);
      SlotsWithRoleStep(init, last, role);
    }
  }

  /** Each group shows exactly the slots of its role, in input order. */
  lemma GroupHoldsRoleSlots(slots: seq<RoleSlot>, canEdit: bool, j: nat)
    requires j < |GroupedSlots(slots, canEdit)|
    ensures var g := GroupedSlots(slots, canEdit);
      SlotsShown(g[j].1) == SlotsWithRole(slots, g[j].0)
  {
    GroupAt(slots, canEdit, j);
  }

  /** Every input slot is shown, annotated, in the group of its own role. */
  lemma SlotInItsGroup(slots: seq<RoleSlot>, canEdit: bool, i: nat)
    requires i < |slots|
    ensures var g := GroupedSlots(slots, canEdit);
      exists j :: 0 <= j < |g| && g[j].0 == slots[i].roleName && Annotate(slots[i], canEdit) in g[j].1
  {
    var g, keys := GroupedSlots(slots, canEdit), RoleOrder(slots);
    var role := slots[i].roleName;
    assert HasRole(slots, role);
    var j :| 0 <= j < |keys| && keys[j] == role;
    GroupAt(slots, canEdit, j);
    var members := SlotsWithRole(slots, role);
    assert slots[i] in members;
    var m :| 0 <= m < |members| && members[m] == slots[i];
    assert g[j].1[m] == Annotate(slots[i], canEdit);
  }

  /** The slots of all groups, group by group. */
  function GroupMembers(groups: seq<Group>): seq<RoleSlot> {
    if groups == [] then [] else GroupMembers(groups[..|groups| - 1]) + SlotsShown(groups[|groups| - 1].1)
  }

  lemma SlotsShownAppend(shown: seq<DisplaySlot>, d: DisplaySlot)
    ensures SlotsShown(shown + [d]) == SlotsShown(shown) + [d.slot]
  {
  }

  /** Replacing one group changes the members by that group's slots. */
  lemma {:induction false} GroupMembersUpdate(groups: seq<Group>, j: nat, g: Group)
    requires j < |groups|
    ensures multiset(GroupMembers(groups[j := g])) + multiset(SlotsShown(groups[j].1)) ==
      multiset(GroupMembers(groups)) + multiset(SlotsShown(g.1))
  {
    var n := |groups|;
    var u, pre := groups[j := g], groups[..n - 1];
    var before, after := SlotsShown(groups[j].1), SlotsShown(g.1);
    assert GroupMembers(groups) == GroupMembers(pre) + SlotsShown(groups[n - 1].1);
    var last := multiset(SlotsShown(groups[n - 1].1));
    if j < n - 1 {
      assert u[..n - 1] == pre[j := g] && u[n - 1] == groups[n - 1];
      assert GroupMembers(u) == GroupMembers(pre[j := g]) + SlotsShown(groups[n - 1].1);
      GroupMembersUpdate(pre, j, g);
      AddBoth(multiset(GroupMembers(pre[j := g])), multiset(before), multiset(GroupMembers(pre)),
              multiset(after), last);
    } else {
      assert u[..n - 1] == pre && u[n - 1] == g;
      assert GroupMembers(u) == GroupMembers(pre) + after;
      AddBoth(multiset(GroupMembers(pre)), last, multiset(GroupMembers(pre)), last, multiset(after));
    }
  }

  /** Adding the same multiset to both sides of an equation. */
  lemma AddBoth<T>(x: multiset<T>, b: multiset<T>, p: multiset<T>, a: multiset<T>, l: multiset<T>)
    requires x + b == p + a
    ensures (x + l) + b == (p + l) + a
  {
    forall e ensures ((x + l) + b)[e] == ((p + l) + a)[e] {
      assert (x + b)[e] == (p + a)[e];
    }
  }

  /** Grouping is a partition of the input: taken together, the groups
      hold every input slot exactly as often as the input does, and
      nothing else. */
  lemma {:induction false} GroupedSlotsPartition(slots: seq<RoleSlot>, canEdit: bool)
    ensures multiset(GroupMembers(GroupedSlots(slots, canEdit))) == multiset(slots)
  {
    if slots != [] {
      var init, last := slots[..|slots| - 1], slots[|slots| - 1];
      assert slots == init + [last];
      GroupedSlotsPartition(init, canEdit);
      GroupedSlotsStep(init, last, canEdit);
      var g := GroupedSlots(init, canEdit);
      var j := KeyIndex(g, last.roleName);
      var shown := Annotate(last, canEdit);
      if j < |g| {
        PartitionSeen(g, j, shown);
      } else {
        var g' := g + [(last.roleName, [shown])];
        assert g'[..|g'| - 1] == g;
        assert SlotsShown([shown]) == [last];
      }
    }
  }

  lemma PartitionSeen(g: seq<Group>, j: nat, d: DisplaySlot)
    requires j < |g|
    ensures multiset(GroupMembers(g[j := (d.slot.roleName, g[j].1 + [d])])) ==
      multiset(GroupMembers(g)) + multiset{d.slot}
  {
    var ext := (d.slot.roleName, g[j].1 + [d]);
    GroupMembersUpdate(g, j, ext);
    SlotsShownAppend(g[j].1, d);
    var others, before := multiset(GroupMembers(g[j := ext])), multiset(SlotsShown(g[j].1));
    assert multiset(SlotsShown(ext.1)) == before + multiset{d.slot};
    forall e ensures others[e] == (multiset(GroupMembers(g)) + multiset{d.slot})[e] {
      assert (others + before)[e] == (multiset(GroupMembers(g)) + (before + multiset{d.slot}))[e];
    }
  }

  // ---------------------------------------------------------------------
  // A ship with its grouped slots (`prepare_ship_for_display`)

  predicate HasKey(groups: seq<Group>, key: string) {
    exists j :: 0 <= j < |groups| && groups[j].0 == key
  }

  /** `dict(items)` for items with distinct keys. */
  function ItemsToMap(groups: seq<Group>): (m: map<string, seq<DisplaySlot>>)
    ensures forall k :: k in m <==> HasKey(groups, k)
  {
    if groups == [] then map[]
    else
      var init, last := groups[..|groups| - 1], groups[|groups| - 1];
      assert forall k :: HasKey(groups, k) <==> HasKey(init, k) || last.0 == k by {
        forall k | HasKey(groups, k) ensures HasKey(init, k) || last.0 == k {
          var j :| 0 <= j < |groups| && groups[j].0 == k;
          if j < |init| { assert init[j] == groups[j]; }
        }
        forall k | HasKey(init, k) ensures HasKey(groups, k) {
          var j :| 0 <= j < |init| && init[j].0 == k;
          assert groups[j] == init[j];
        }
      }
      ItemsToMap(init)[last.0 := last.1]
  }

  lemma {:induction false} ItemsToMapAt(groups: seq<Group>, j: nat)
    requires j < |groups|
    requires forall a, b :: 0 <= a < b < |groups| ==> groups[a].0 != groups[b].0
    ensures groups[j].0 in ItemsToMap(groups) && ItemsToMap(groups)[groups[j].0] == groups[j].1
  {
    var init := groups[..|groups| - 1];
    if j < |groups| - 1 {
      assert init[j] == groups[j];
      ItemsToMapAt(init, j);
    }
  }

  /** A ship being prepared for a page: `grouped_slots` and `slots_by_role`
      are the attributes the source sets on the ship instance. */
  class ShipDisplay {
    const ship: Ship
    const roleSlots: seq<RoleSlot>
    var groupedSlots: seq<Group>
    var slotsByRole: map<string, seq<DisplaySlot>>

    constructor (ship: Ship, roleSlots: seq<RoleSlot>)
      ensures this.ship == ship && this.roleSlots == roleSlots
      ensures groupedSlots == [] && slotsByRole == map[]
    {
      this.ship := ship;
      this.roleSlots := roleSlots;
      groupedSlots := [];
      slotsByRole := map[];
    }
  }

  /** `prepare_ship_for_display`: group the ship's slots, store the items
      list in `grouped_slots` and the mapping in `slots_by_role`, and return
      the same ship. The two views agree: the mapping sends each listed role
      to exactly the listed group. */
  method PrepareShipForDisplay(display: ShipDisplay, canEdit: bool) returns (result: ShipDisplay)
    modifies display
    ensures result == display
    ensures display.groupedSlots == GroupedSlots(display.roleSlots, canEdit)
    ensures forall k :: k in display.slotsByRole <==> HasKey(display.groupedSlots, k)
    ensures forall j :: 0 <= j < |display.groupedSlots| ==>
      display.groupedSlots[j].0 in display.slotsByRole &&
      display.slotsByRole[display.groupedSlots[j].0] == display.groupedSlots[j].1
  {
    var grouped := PrepareSlotsForDisplay(display.roleSlots, canEdit);
    GroupedSlotsShape(display.roleSlots, canEdit);
    display.groupedSlots := grouped;
    display.slotsByRole := ItemsToMap(grouped);
    forall j | 0 <= j < |grouped|
      ensures grouped[j].0 in display.slotsByRole && display.slotsByRole[grouped[j].0] == grouped[j].1
    {
      ItemsToMapAt(grouped, j);
    }
    result := display;
  }

  // ---------------------------------------------------------------------
  // Ships grouped by category (`group_ships_by_category`)

  /** `CATEGORY_CHOICES` has one entry per code. */
  predicate DistinctCodes(choices: seq<(string, string)>) {
    forall i, j :: 0 <= i < j < |choices| ==> choices[i].0 != choices[j].0
  }

  function CodeSet(choices: seq<(string, string)>): set<string> {
    set i | 0 <= i < |choices| :: choices[i].0
  }

  /** The ships of one category, in input order. */
  function ShipsIn(ships: seq<Ship>, code: string): (r: seq<Ship>)
    ensures forall s :: s in r ==> s in ships && s.category == code
  {
    if ships == [] then []
    else
      var init, last := ships[..|ships| - 1], ships[|ships| - 1];
      ShipsIn(init, code) + (if last.category == code then [last] else [])
  }

  lemma ShipsInStep(ships: seq<Ship>, x: Ship, code: string)
    ensures ShipsIn(ships + [x], code) == ShipsIn(ships, code) + (if x.category == code then [x] else [])
  {
    var s := ships + [x];
    assert s[..|s| - 1] == ships && s[|s| - 1] == x;
  }

  /** `grouped` after the first loop over a prefix of the ships: every
      bucket holds the ships of its code, and a code without a bucket has
      no ships. */
  ghost predicate Bucketed(grouped: map<string, seq<Ship>>, ships: seq<Ship>) {
    && (forall c :: c in grouped ==> grouped[c] == ShipsIn(ships, c))
    && (forall c :: c !in grouped ==> ShipsIn(ships, c) == [])
  }

  /** `grouped.setdefault(ship.category, []).append(ship)` keeps the
      buckets exact. */
  lemma BucketedStep(grouped: map<string, seq<Ship>>, ships: seq<Ship>, x: Ship)
    requires Bucketed(grouped, ships)
    ensures Bucketed(grouped[x.category := (if x.category in grouped then grouped[x.category] else []) + [x]], ships + [x])
  {
    var grouped' := grouped[x.category := (if x.category in grouped then grouped[x.category] else []) + [x]];
    forall c ensures (c in grouped' ==> grouped'[c] == ShipsIn(ships + [x], c)) &&
                     (c !in grouped' ==> ShipsIn(ships + [x], c) == [])
    {
      BucketAt(grouped, ships, x, c);
    }
  }

  /** The bucketing step, for one code. */
  lemma BucketAt(grouped: map<string, seq<Ship>>, ships: seq<Ship>, x: Ship, c: string)
    requires c in grouped ==> grouped[c] == ShipsIn(ships, c)
    requires c !in grouped ==> ShipsIn(ships, c) == []
    ensures var grouped' := grouped[x.category := (if x.category in grouped then grouped[x.category] else []) + [x]];
      && (c in grouped' ==> grouped'[c] == ShipsIn(ships + [x], c))
      && (c !in grouped' ==> ShipsIn(ships + [x], c) == [])
  {
    ShipsInStep(ships, x, c);
  }

  /** The result of the final comprehension: a (label, ships) pair per
      declared category, in declared order, when the category has ships. */
  function CategoryGroups(ships: seq<Ship>, choices: seq<(string, string)>): seq<(string, seq<Ship>)> {
    if choices == [] then []
    else
      var init, last := choices[..|choices| - 1], choices[|choices| - 1];
      var members := ShipsIn(ships, last.0);
      CategoryGroups(ships, init) + (if members == [] then [] else [(last.1, members)])
  }

  /** `group_ships_by_category`: bucket the ships by their category code,
      then list the non-empty buckets of the declared categories in
      declared order, under their labels. */
  method GroupShipsByCategory(ships: seq<Ship>, choices: seq<(string, string)>) returns (groups: seq<(string, seq<Ship>)>)
    requires DistinctCodes(choices)
    ensures groups == CategoryGroups(ships, choices)
  {
    var grouped := BucketShips(ships, choices);
    groups := [];
    var k := 0;
    while k < |choices|
      invariant 0 <= k <= |choices|
      invariant groups == CategoryGroups(ships, choices[..k])
    {
      var code, title := choices[k].0, choices[k].1;
      assert code in CodeSet(choices);
      if grouped[code] != [] {
        groups := groups + [(title, grouped[code])];
      }
      CategoryGroupsStep(ships, choices, k);
      k := k + 1;
    }
    assert choices[..|choices|] == choices;
  }

  lemma CategoryGroupsStep(ships: seq<Ship>, choices: seq<(string, string)>, k: nat)
    requires k < |choices|
    ensures CategoryGroups(ships, choices[..k + 1]) == CategoryGroups(ships, choices[..k]) +
      (if ShipsIn(ships, choices[k].0) == [] then [] else [(choices[k].1, ShipsIn(ships, choices[k].0))])
  {
    assert choices[..k + 1][..k] == choices[..k];
  }

  /** The first loop of `group_ships_by_category`: one empty bucket per
      declared code, then every ship appended to the bucket of its code
      (created on first sight when the code is not declared). */
  method BucketShips(ships: seq<Ship>, choices: seq<(string, string)>) returns (grouped: map<string, seq<Ship>>)
    ensures CodeSet(choices) <= grouped.Keys
    ensures Bucketed(grouped, ships)
  {
    grouped := map code | code in CodeSet(choices) :: [];
    var i := 0;
    while i < |ships|
      invariant 0 <= i <= |ships|
      invariant CodeSet(choices) <= grouped.Keys
      invariant Bucketed(grouped, ships[..i])
    {
      var ship := ships[i];
      BucketedStep(grouped, ships[..i], ship);
      ShipsPrefixStep(ships, i);
      grouped := grouped[ship.category := (if ship.category in grouped then grouped[ship.category] else []) + [ship]];
      i := i + 1;
    }
    assert ships[..|ships|] == ships;
  }

  lemma ShipsPrefixStep(ships: seq<Ship>, i: nat)
    requires i < |ships|
    ensures ships[..i + 1] == ships[..i] + [ships[i]]
  {
  }

  /** The declared categories that have ships, as positions in the
      declaration. */
  function Sources(ships: seq<Ship>, choices: seq<(string, string)>): (src: seq<nat>)
    ensures forall j :: 0 <= j < |src| ==> src[j] < |choices|
  {
    if choices == [] then []
    else
      var init := choices[..|choices| - 1];
      Sources(ships, init) + (if ShipsIn(ships, choices[|choices| - 1].0) == [] then [] else [|choices| - 1])
  }

  /** Group j is the label and the ships of the src[j]-th declared
      category, and it is never empty. */
  lemma {:induction false} CategoryGroupsFollowChoices(ships: seq<Ship>, choices: seq<(string, string)>)
    ensures var groups, src := CategoryGroups(ships, choices), Sources(ships, choices);
      && |groups| == |src|
      && (forall j :: 0 <= j < |src| ==>
            groups[j] == (choices[src[j]].1, ShipsIn(ships, choices[src[j]].0)) && groups[j].1 != [])
  {
    if choices != [] {
      var init, last := choices[..|choices| - 1], choices[|choices| - 1];
      CategoryGroupsFollowChoices(ships, init);
      var groups, src := CategoryGroups(ships, init), Sources(ships, init);
      var groups', src' := CategoryGroups(ships, choices), Sources(ships, choices);
      forall j | 0 <= j < |src'|
        ensures groups'[j] == (choices[src'[j]].1, ShipsIn(ships, choices[src'[j]].0)) && groups'[j].1 != []
      {
        if j < |src| {
          assert groups'[j] == groups[j] && src'[j] == src[j];
          assert init[src[j]] == choices[src[j]];
        }
      }
    }
  }

  predicate Increasing(src: seq<nat>) {
    forall a, b :: 0 <= a < b < |src| ==> src[a] < src[b]
  }

  /** The groups come in declared order: the positions increase. */
  lemma {:induction false} SourcesInDeclaredOrder(ships: seq<Ship>, choices: seq<(string, string)>)
    ensures Increasing(Sources(ships, choices))
  {
    if choices != [] {
      var init := choices[..|choices| - 1];
      SourcesInDeclaredOrder(ships, init);
      var src, src' := Sources(ships, init), Sources(ships, choices);
      forall a, b | 0 <= a < b < |src'| ensures src'[a] < src'[b] {
        assert src'[a] == src[a] && src[a] < |init|;
        if b < |src| {
          assert src'[b] == src[b];
        }
      }
    }
  }

  /** Only the categories without ships are skipped: every declared
      category that has ships has a group. */
  lemma {:induction false} SourcesCoverNonEmpty(ships: seq<Ship>, choices: seq<(string, string)>)
    ensures forall k :: 0 <= k < |choices| && ShipsIn(ships, choices[k].0) != [] ==> k in Sources(ships, choices)
  {
    if choices != [] {
      var init := choices[..|choices| - 1];
      SourcesCoverNonEmpty(ships, init);
      forall k | 0 <= k < |choices| && ShipsIn(ships, choices[k].0) != [] ensures k in Sources(ships, choices) {
        if k < |init| {
          assert init[k] == choices[k];
          assert k in Sources(ships, init);
        }
      }
    }
  }

  /** Only ships of a declared category are listed, each under its own
      category: a ship with an undeclared code appears in no group. */
  lemma CategoryGroupsOnlyDeclared(ships: seq<Ship>, choices: seq<(string, string)>, j: nat, s: Ship)
    requires j < |CategoryGroups(ships, choices)| && s in CategoryGroups(ships, choices)[j].1
    ensures s in ships && s.category in CodeSet(choices)
  {
    CategoryGroupsFollowChoices(ships, choices);
    var src := Sources(ships, choices);
    assert s.category == choices[src[j]].0;
  }

  /** Every ship of a declared category is listed in the group of that
      category; with distinct codes no other group holds it. */
  lemma CategoryGroupsHoldEveryDeclared(ships: seq<Ship>, choices: seq<(string, string)>, i: nat, k: nat)
    requires i < |ships| && k < |choices| && ships[i].category == choices[k].0
    ensures exists j :: (0 <= j < |CategoryGroups(ships, choices)| &&
      CategoryGroups(ships, choices)[j].0 == choices[k].1 && ships[i] in CategoryGroups(ships, choices)[j].1)
  {
    ShipsInHas(ships, i);
    CategoryGroupsFollowChoices(ships, choices);
    SourcesCoverNonEmpty(ships, choices);
    var src := Sources(ships, choices);
    assert k in src;
    var j :| 0 <= j < |src| && src[j] == k;
    assert CategoryGroups(ships, choices)[j].1 == ShipsIn(ships, choices[k].0);
  }

  lemma {:induction false} ShipsInHas(ships: seq<Ship>, i: nat)
    requires i < |ships|
    ensures ships[i] in ShipsIn(ships, ships[i].category)
  {
    var init := ships[..|ships| - 1];
    if i < |ships| - 1 {
      assert init[i] == ships[i];
      ShipsInHas(init, i);
    }
  }
}
