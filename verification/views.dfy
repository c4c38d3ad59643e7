/** The decision logic of the operations views (ops/views.py): who may edit
    crew allocations, and how the ship list sanitises and applies its
    category and type filters. Rendering, forms and redirects are not part
    of this model. */
module Views {
  import opened Wrappers
  import opened Text
  import opened Models
  import opened GroupLabels
  import opened Permissions
  import Services

  // ---------------------------------------------------------------------
  // is_planner

  /** The groups whose members may edit allocations. */
  const PlannerGroups: seq<string> := ["Planner", "Administrateur", "Planificateur"]

  /** `is_planner`: a superuser, or a member of a planner group. The
      authentication flag is not consulted. */
  function IsPlanner(user: User, table: seq<Group>): (r: bool)
    ensures r <==> user.isSuperuser || exists n :: n in PlannerGroups && n in GroupNames(user, table)
  {
    InNamedGroupByName(user, table, PlannerGroups);
    user.isSuperuser || InNamedGroup(user, table, PlannerGroups)
  }

  /** None of the groups that the permission helpers and the group
      relabelling know ("Admin", "SuperAdmin", "Member", "Membre") makes a
      planner: a non-superuser in only those groups cannot edit, even when
      the user may manage operations. */
  lemma ManagersAreNotPlanners(user: User, table: seq<Group>)
    requires !user.isSuperuser
    requires forall n :: n in GroupNames(user, table) ==> n in MemberGroups || n in Groups
    ensures !IsPlanner(user, table)
  {
  }

  /** Joining more groups never takes planning rights away. */
  lemma PlannerMonotone(user: User, table: seq<Group>, more: set<nat>)
    requires IsPlanner(user, table)
    ensures IsPlanner(user.(groupIds := user.groupIds + more), table)
  {
    var bigger := user.(groupIds := user.groupIds + more);
    if !user.isSuperuser {
      var n :| n in PlannerGroups && n in GroupNames(user, table);
      var j :| 0 <= j < |table| && table[j].id in user.groupIds && table[j].name == n;
      assert table[j].name in GroupNames(bigger, table);
    }
  }

  // ---------------------------------------------------------------------
  // ships_list: the filter parameters

  /** The `cat` parameter: kept when it is one of the category codes,
      otherwise reset to none. The filter never invents a category, every
      category that survives is a declared code, and no declared code is
      ever dropped. */
  function SanitizeCategory(cat: Option<string>, choices: seq<(string, string)>): (r: Option<string>)
    ensures r == cat || r == None
    ensures r.Some? ==> exists i :: 0 <= i < |choices| && choices[i].0 == r.value
    ensures cat.Some? && (exists i :: 0 <= i < |choices| && choices[i].0 == cat.value) ==> r == cat
  {
    if cat.Some? && cat.value in Services.CodeSet(choices) then cat else None
  }

  /** Strictly ascending in string order, hence without duplicates. */
  predicate StrictlyAscending(s: seq<string>) {
    forall i, j :: 0 <= i < j < |s| ==> Below(s[i], s[j])
  }

  /** Insert one value into a strictly ascending list unless present. */
  function InsertSorted(s: seq<string>, x: string): (r: seq<string>)
    requires StrictlyAscending(s)
    ensures StrictlyAscending(r)
    ensures forall y :: y in r <==> y in s || y == x
  {
    if s == [] then [x]
    else if s[0] == x then s
    else if Below(x, s[0]) then
      assert forall j :: 0 <= j < |s| ==> Below(x, s[j]) by {
        forall j | 0 <= j < |s| ensures Below(x, s[j]) {
          if j > 0 {
            BelowTransitive(x, s[0], s[j]);
          }
        }
      }
      [x] + s
    else
      BelowTotal(x, s[0]);
      var rest := InsertSorted(s[1..], x);
      assert forall y :: y in s[1..] ==> Below(s[0], y);
      assert forall j :: 0 <= j < |rest| ==> Below(s[0], rest[j]) by {
        forall j | 0 <= j < |rest| ensures Below(s[0], rest[j]) {
          assert rest[j] in rest;
        }
      }
      assert forall y :: y in s <==> y == s[0] || y in s[1..] by {
        assert s == [s[0]] + s[1..];
      }
      [s[0]] + rest
  }

  /** The distinct non-empty `role` values of the ship table, ascending:
      `exclude(role="").order_by("role").values_list("role").distinct()`. */
  function AvailableTypes(ships: seq<Ship>): (r: seq<string>)
    ensures StrictlyAscending(r)
    ensures forall t :: t in r <==> t != "" && exists s :: s in ships && s.role == t
  {
    if ships == [] then []
    else
      var init, last := ships[..|ships| - 1], ships[|ships| - 1];
      assert forall s :: s in ships <==> s in init || s == last by {
        assert ships == init + [last];
      }
      var rest := AvailableTypes(init);
      if last.role == "" then rest else InsertSorted(rest, last.role)
  }

  /** The `type` parameter: kept when it is one of the available types,
      otherwise reset to none. The filter never invents a type, every type
      that survives is one some ship has, and no available type is ever
      dropped. */
  function SanitizeType(shipType: Option<string>, available: seq<string>): (r: Option<string>)
    ensures r == shipType || r == None
    ensures r.Some? ==> r.value in available
    ensures shipType.Some? && shipType.value in available ==> r == shipType
  {
    if shipType.Some? && shipType.value in available then shipType else None
  }

  /** Sanitising twice is sanitising once. */
  lemma SanitizeIdempotent(cat: Option<string>, shipType: Option<string>, choices: seq<(string, string)>,
                           available: seq<string>)
    ensures SanitizeCategory(SanitizeCategory(cat, choices), choices) == SanitizeCategory(cat, choices)
    ensures SanitizeType(SanitizeType(shipType, available), available) == SanitizeType(shipType, available)
  {
  }

  // ---------------------------------------------------------------------
  // ships_list: filtering and ordering

  /** Python truthiness of an optional filter value. */
  predicate IsSet(f: Option<string>) {
    f.Some? && f.value != ""
  }

  /** The ship passes every filter that is set. */
  predicate Matches(s: Ship, category: Option<string>, shipType: Option<string>) {
    && (IsSet(category) ==> s.category == category.value)
    && (IsSet(shipType) ==> s.role == shipType.value)
  }

  /** `queryset.filter(category=...).filter(role=...)`, in table order. */
  function Filtered(ships: seq<Ship>, category: Option<string>, shipType: Option<string>): (r: seq<Ship>)
    ensures forall s :: s in r <==> s in ships && Matches(s, category, shipType)
    ensures |r| <= |ships|
  {
    if ships == [] then []
    else
      var init, last := ships[..|ships| - 1], ships[|ships| - 1];
      assert forall s :: s in ships <==> s in init || s == last by {
        assert ships == init + [last];
      }
      var rest := Filtered(init, category, shipType);
      if Matches(last, category, shipType) then rest + [last] else rest
  }

  /** `a` comes no later than `b` under `order_by("name")`. */
  predicate NameAtMost(a: Ship, b: Ship) {
    a.name == b.name || Below(a.name, b.name)
  }

  predicate ByName(s: seq<Ship>) {
    forall i, j :: 0 <= i < j < |s| ==> NameAtMost(s[i], s[j])
  }

  lemma NameAtMostTransitive(a: Ship, b: Ship, c: Ship)
    requires NameAtMost(a, b) && NameAtMost(b, c)
    ensures NameAtMost(a, c)
  {
    if Below(a.name, b.name) && Below(b.name, c.name) {
      BelowTransitive(a.name, b.name, c.name);
    }
  }

  /** Insert one ship into a list ordered by name. */
  function InsertByName(s: seq<Ship>, x: Ship): (r: seq<Ship>)
    requires ByName(s)
    ensures ByName(r)
    ensures multiset(r) == multiset(s) + multiset{x}
  {
    if s == [] then [x]
    else if NameAtMost(x, s[0]) then
      InsertFront(s, x);
      [x] + s
    else
      var rest := InsertByName(s[1..], x);
      InsertBehind(s, x, rest);
      [s[0]] + rest
  }

  /** A ship named no later than the head goes first. */
  lemma InsertFront(s: seq<Ship>, x: Ship)
    requires ByName(s) && s != [] && NameAtMost(x, s[0])
    ensures ByName([x] + s)
  {
    forall j | 0 <= j < |s| ensures NameAtMost(x, s[j]) {
      if j > 0 {
        NameAtMostTransitive(x, s[0], s[j]);
      }
    }
  }

  /** Otherwise the head stays first, ahead of the rest with the ship
      inserted. */
  lemma InsertBehind(s: seq<Ship>, x: Ship, rest: seq<Ship>)
    requires ByName(s) && s != [] && !NameAtMost(x, s[0])
    requires ByName(rest) && multiset(rest) == multiset(s[1..]) + multiset{x}
    ensures ByName([s[0]] + rest)
    ensures multiset([s[0]] + rest) == multiset(s) + multiset{x}
  {
    BelowTotal(x.name, s[0].name);
    assert s == [s[0]] + s[1..];
    forall j | 0 <= j < |rest| ensures NameAtMost(s[0], rest[j]) {
      assert rest[j] in multiset(rest);
      if rest[j] != x {
        assert rest[j] in s[1..];
      }
    }
  }

  /** `order_by("name")`. */
  function SortByName(s: seq<Ship>): (r: seq<Ship>)
    ensures ByName(r)
    ensures multiset(r) == multiset(s)
  {
    if s == [] then []
    else
      var init, last := s[..|s| - 1], s[|s| - 1];
      assert s == init + [last];
      InsertByName(SortByName(init), last)
  }

  /** `ships_list`: sanitise both parameters, filter by each one that is
      set, and order by name. */
  function ShipsList(ships: seq<Ship>, choices: seq<(string, string)>,
                     cat: Option<string>, shipType: Option<string>): (r: seq<Ship>)
    ensures ByName(r)
    ensures multiset(r) == multiset(Filtered(ships, SanitizeCategory(cat, choices),
                                             SanitizeType(shipType, AvailableTypes(ships))))
  {
    SortByName(Filtered(ships, SanitizeCategory(cat, choices), SanitizeType(shipType, AvailableTypes(ships))))
  }

  /** A ship is listed exactly when it is in the table and matches every
      filter that survived sanitising; an unknown category or type imposes
      no restriction at all. */
  lemma ShipsListContents(ships: seq<Ship>, choices: seq<(string, string)>,
                          cat: Option<string>, shipType: Option<string>, s: Ship)
    ensures s in ShipsList(ships, choices, cat, shipType) <==>
      && s in ships
      && (cat.Some? && cat.value != "" && cat.value in Services.CodeSet(choices) ==> s.category == cat.value)
      && (shipType.Some? && shipType.value in AvailableTypes(ships) ==> s.role == shipType.value)
  {
    var r := ShipsList(ships, choices, cat, shipType);
    var f := Filtered(ships, SanitizeCategory(cat, choices), SanitizeType(shipType, AvailableTypes(ships)));
    assert s in r <==> s in multiset(r);
    assert s in f <==> s in multiset(f);
  }

  /** Without filters every ship of the table is listed, each as often as
      it occurs in the table. */
  lemma ShipsListUnfiltered(ships: seq<Ship>, choices: seq<(string, string)>)
    ensures multiset(ShipsList(ships, choices, None, None)) == multiset(ships)
  {
    FilteredNone(ships);
  }

  lemma {:induction false} FilteredNone(ships: seq<Ship>)
    ensures Filtered(ships, None, None) == ships
  {
    if ships != [] {
      FilteredNone(ships[..|ships| - 1]);
      assert ships == ships[..|ships| - 1] + [ships[|ships| - 1]];
    }
  }
}
