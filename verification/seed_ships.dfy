/** The `seed_ships_basic` management command
    (ops/management/commands/seed_ships_basic.py): make sure every starter
    ship exists with its fixed category, and give a starter ship the default
    role templates of its category when it has no template at all. */
module SeedShips {
  import opened Wrappers
  import opened Models

  /** `STARTERS`: (ship name, category code). */
  const Starters: seq<(string, string)> := [
    ("Anvil Arrow", "LF"), ("Aegis Gladius", "LF"), ("Anvil Hawk", "LF"),
    ("Origin 125a", "LF"), ("Consolidated Outland Mustang Delta", "LF"),
    ("Aopoa Khartu-al", "LF"), ("MISC Reliant Tana", "LF"), ("Esperia Talon", "LF"),
    ("Aegis Sabre", "MF"), ("Aegis Sabre Comet", "MF"), ("Banu Defender", "MF"),
    ("Anvil F7C Hornet Mk I", "MF"), ("Anvil F7C-M Super Hornet Mk I", "MF"),
    ("Anvil Hurricane", "HF"), ("RSI Scorpius", "HF"), ("RSI Scorpius Antares", "HF"),
    ("Crusader Ares Inferno", "HF"), ("Crusader Ares Ion", "HF"), ("Anvil F8C Lightning", "HF"),
    ("Drake Cutlass Black", "MR"), ("Aegis Avenger Titan", "MR"), ("MISC Freelancer MIS", "MR"),
    ("RSI Polaris", "CAP"), ("Aegis Idris-P", "CAP")]

  /** `CATEGORY_ROLES`: (role name, slots) per category code. */
  const CategoryRoles: map<string, seq<(string, nat)>> := map[
    "LF" := [("Pilote", 1)],
    "MF" := [("Pilote", 1)],
    "HF" := [("Pilote", 1), ("Artilleur", 1)],
    "MR" := [("Pilote", 1), ("Artilleur", 1)],
    "CAP" := [("Commandant", 1), ("Pilote", 1), ("Navigateur", 1), ("Ingénierie", 2), ("Artilleur", 4)]]

  /** The fallback of `CATEGORY_ROLES.get(cat, ...)`. */
  const DefaultRoles: seq<(string, nat)> := [("Pilote", 1)]

  predicate DistinctRoles(roles: seq<(string, nat)>) {
    forall i, j :: 0 <= i < j < |roles| ==> roles[i].0 != roles[j].0
  }

  /** The roles to seed for a category: never empty, each role once. */
  function RolesFor(cat: string): (roles: seq<(string, nat)>)
    ensures roles != [] && DistinctRoles(roles)
    ensures cat !in CategoryRoles ==> roles == DefaultRoles
  {
    if cat in CategoryRoles then CategoryRoles[cat] else DefaultRoles
  }

  /** The two tables the command touches. */
  datatype Store = Store(ships: map<string, Ship>, templates: seq<ShipRoleTemplate>)

  /** The largest crew the command gives a starter ship. */
  const StarterMaxCrew: nat := 2

  /** The row `get_or_create` inserts for a missing starter: the given
      category, crew from the model's default minimum up to two, and empty
      text fields. The row can be stored under its own name, and its crew
      range is a valid one. */
  function StarterShip(name: string, cat: string): (ship: Ship)
    ensures ShipTable(map[name := ship])
    ensures ship.category == cat
    ensures ship.minCrew == DefaultMinCrew && ship.maxCrew == StarterMaxCrew
    ensures ship.minCrew <= ship.maxCrew
    ensures ship.manufacturer == "" && ship.role == "" && ship.cargoCapacity == ""
  {
    Ship(name, "", "", "", DefaultMinCrew, StarterMaxCrew, cat)
  }

  predicate HasTemplate(templates: seq<ShipRoleTemplate>, ship: string, role: string) {
    exists i :: 0 <= i < |templates| && templates[i].ship == ship && templates[i].roleName == role
  }

  /** `ShipRoleTemplate.objects.get_or_create(ship=..., role_name=..., defaults={"slots": ...})`. */
  function GetOrCreateTemplate(templates: seq<ShipRoleTemplate>, ship: string, role: string, slots: nat): seq<ShipRoleTemplate> {
    if HasTemplate(templates, ship, role) then templates else templates + [ShipRoleTemplate(ship, role, slots)]
  }

  /** The inner loop over the roles of a category. */
  function AddRoles(templates: seq<ShipRoleTemplate>, ship: string, roles: seq<(string, nat)>): seq<ShipRoleTemplate> {
    if roles == [] then templates
    else
      var init, last := roles[..|roles| - 1], roles[|roles| - 1];
      GetOrCreateTemplate(AddRoles(templates, ship, init), ship, last.0, last.1)
  }

  /** One turn of the outer loop for the starter (name, cat). */
  function SeedOne(s: Store, name: string, cat: string): Store {
    var ship := if name in s.ships then s.ships[name] else StarterShip(name, cat);
    var saved := if ship.category != cat then ship.(category := cat) else ship;
    var templates := if TemplatesOf(s.templates, name) == [] then AddRoles(s.templates, name, RolesFor(cat)) else s.templates;
    Store(s.ships[name := saved], templates)
  }

  /** The outer loop over a list of starters, in order. */
  function SeedAll(s: Store, starters: seq<(string, string)>): Store {
    if starters == [] then s
    else
      var init, last := starters[..|starters| - 1], starters[|starters| - 1];
      SeedOne(SeedAll(s, init), last.0, last.1)
  }

  /** `Command.handle`: for each starter, get or create the ship, correct
      its category, and add the category's role templates when the ship
      has none. */
  method Handle(store: Store) returns (result: Store)
    ensures result == SeedAll(store, Starters)
  {
    result := store;
    var i := 0;
    while i < |Starters|
      invariant 0 <= i <= |Starters|
      invariant result == SeedAll(store, Starters[..i])
    {
      var name, cat := Starters[i].0, Starters[i].1;
      var ships, templates := result.ships, result.templates;
      var ship: Ship;
      if name in ships {
        ship := ships[name];
      } else {
        ship := StarterShip(name, cat);
        ships := ships[name := ship];
      }
      if ship.category != cat {
        ship := ship.(category := cat);
        ships := ships[name := ship];
      }
      if TemplatesOf(templates, name) == [] {
        var roles := RolesFor(cat);
        var k := 0;
        while k < |roles|
          invariant 0 <= k <= |roles|
          invariant templates == AddRoles(result.templates, name, roles[..k])
        {
          var role, slots := roles[k].0, roles[k].1;
          AddRolesStep(result.templates, name, roles, k);
          if !HasTemplate(templates, name, role) {
            templates := templates + [ShipRoleTemplate(name, role, slots)];
          }
          k := k + 1;
        }
        assert roles[..|roles|] == roles;
      }
      SeedOneParts(result, name, cat, ships, templates);
      SeedAllStep(store, Starters, i);
      result := Store(ships, templates);
      i := i + 1;
    }
    assert Starters[..|Starters|] == Starters;
  }

  lemma SeedOneParts(s: Store, name: string, cat: string, ships: map<string, Ship>, templates: seq<ShipRoleTemplate>)
    requires name in ships && ships == s.ships[name := ships[name]]
    requires ships[name] == (if name in s.ships then s.ships[name] else StarterShip(name, cat)).(category := cat)
    requires templates == if TemplatesOf(s.templates, name) == [] then AddRoles(s.templates, name, RolesFor(cat)) else s.templates
    ensures SeedOne(s, name, cat) == Store(ships, templates)
  {
  }

  lemma AddRolesStep(templates: seq<ShipRoleTemplate>, ship: string, roles: seq<(string, nat)>, k: nat)
    requires k < |roles|
    ensures AddRoles(templates, ship, roles[..k + 1]) ==
      GetOrCreateTemplate(AddRoles(templates, ship, roles[..k]), ship, roles[k].0, roles[k].1)
  {
    assert roles[..k + 1][..k] == roles[..k];
  }

  lemma SeedAllStep(s: Store, starters: seq<(string, string)>, i: nat)
    requires i < |starters|
    ensures SeedAll(s, starters[..i + 1]) == SeedOne(SeedAll(s, starters[..i]), starters[i].0, starters[i].1)
  {
    assert starters[..i + 1][..i] == starters[..i];
  }

  // ---------------------------------------------------------------------
  // What the command does to one ship name

  /** Everything the command can change about one name: its ship row and
      its role templates. */
  datatype View = View(ship: Option<Ship>, templates: seq<ShipRoleTemplate>)

  function ViewOf(s: Store, name: string): View {
    View(if name in s.ships then Some(s.ships[name]) else None, TemplatesOf(s.templates, name))
  }

  /** The templates seeded for a ship with none: one per category role. */
  function Defaults(name: string, roles: seq<(string, nat)>): (ts: seq<ShipRoleTemplate>)
    ensures |ts| == |roles|
    ensures forall i :: 0 <= i < |roles| ==> ts[i] == ShipRoleTemplate(name, roles[i].0, roles[i].1)
  {
    seq(|roles|, i requires 0 <= i < |roles| => ShipRoleTemplate(name, roles[i].0, roles[i].1))
  }

  /** The effect of seeding (name, cat) on that name, stated on its view: the
      ship exists with category `cat`, keeping its other fields when it
      existed, and holds its old templates, or the category's defaults when
      it had none. */
  function SeedView(v: View, name: string, cat: string): View {
    var ship := if v.ship.Some? then v.ship.value else StarterShip(name, cat);
    View(Some(ship.(category := cat)), if v.templates == [] then Defaults(name, RolesFor(cat)) else v.templates)
  }

  lemma {:induction false} TemplatesOfConcat(a: seq<ShipRoleTemplate>, b: seq<ShipRoleTemplate>, ship: string)
    ensures TemplatesOf(a + b, ship) == TemplatesOf(a, ship) + TemplatesOf(b, ship)
  {
    if a == [] {
      assert a + b == b;
    } else {
      assert (a + b)[1..] == a[1..] + b;
      TemplatesOfConcat(a[1..], b, ship);
    }
  }

  lemma {:induction false} TemplatesOfAll(ts: seq<ShipRoleTemplate>, ship: string)
    requires forall i :: 0 <= i < |ts| ==> ts[i].ship == ship
    ensures TemplatesOf(ts, ship) == ts
  {
    if ts != [] {
      TemplatesOfAll(ts[1..], ship);
    }
  }

  lemma {:induction false} TemplatesOfNone(ts: seq<ShipRoleTemplate>, ship: string)
    requires forall i :: 0 <= i < |ts| ==> ts[i].ship != ship
    ensures TemplatesOf(ts, ship) == []
  {
    if ts != [] {
      TemplatesOfNone(ts[1..], ship);
    }
  }

  /** The inner loop only appends templates of the ship being seeded. */
  lemma {:induction false} AddRolesAppends(ts: seq<ShipRoleTemplate>, ship: string, roles: seq<(string, nat)>)
    ensures var r := AddRoles(ts, ship, roles);
      |ts| <= |r| && r[..|ts|] == ts && forall j :: |ts| <= j < |r| ==> r[j].ship == ship
  {
    if roles != [] {
      AddRolesAppends(ts, ship, roles[..|roles| - 1]);
    }
  }

  /** On a ship without templates and with distinct roles, every
      `get_or_create` creates: the result is exactly the defaults. */
  lemma {:induction false} AddRolesOnEmpty(ts: seq<ShipRoleTemplate>, ship: string, roles: seq<(string, nat)>)
    requires TemplatesOf(ts, ship) == [] && DistinctRoles(roles)
    ensures AddRoles(ts, ship, roles) == ts + Defaults(ship, roles)
  {
    if roles != [] {
      var init, last := roles[..|roles| - 1], roles[|roles| - 1];
      DistinctRolesInit(roles);
      AddRolesOnEmpty(ts, ship, init);
      NewRoleAbsent(ts, ship, roles);
      assert Defaults(ship, roles) == Defaults(ship, init) + [ShipRoleTemplate(ship, last.0, last.1)];
    }
  }

  lemma DistinctRolesInit(roles: seq<(string, nat)>)
    requires roles != [] && DistinctRoles(roles)
    ensures DistinctRoles(roles[..|roles| - 1])
  {
    var init := roles[..|roles| - 1];
    forall i, j | 0 <= i < j < |init| ensures init[i].0 != init[j].0 {
      assert init[i] == roles[i] && init[j] == roles[j];
    }
  }

  /** Before the last role is added, neither the old table (which has no
      template of the ship) nor the defaults of the earlier roles hold it. */
  lemma NewRoleAbsent(ts: seq<ShipRoleTemplate>, ship: string, roles: seq<(string, nat)>)
    requires roles != [] && TemplatesOf(ts, ship) == [] && DistinctRoles(roles)
    ensures !HasTemplate(ts + Defaults(ship, roles[..|roles| - 1]), ship, roles[|roles| - 1].0)
  {
    var init, last := roles[..|roles| - 1], roles[|roles| - 1];
    var prev := ts + Defaults(ship, init);
    forall k | 0 <= k < |ts| ensures ts[k].ship != ship {
      assert ts[k] in ts;
    }
    forall i | 0 <= i < |prev| && prev[i].ship == ship ensures prev[i].roleName != last.0 {
      if i >= |ts| {
        assert prev[i] == ShipRoleTemplate(ship, init[i - |ts|].0, init[i - |ts|].1);
        assert init[i - |ts|] == roles[i - |ts|];
      }
    }
  }

  /** Seeding (name, cat) acts on the view of `name` as `SeedView` says. */
  lemma SeedOneView(s: Store, name: string, cat: string)
    ensures ViewOf(SeedOne(s, name, cat), name) == SeedView(ViewOf(s, name), name, cat)
  {
    SeedOneShip(s, name, cat);
    SeedOneTemplates(s, name, cat);
  }

  /** The ship row of the seeded name. */
  lemma SeedOneShip(s: Store, name: string, cat: string)
    ensures name in SeedOne(s, name, cat).ships
    ensures SeedOne(s, name, cat).ships[name] ==
      (if name in s.ships then s.ships[name] else StarterShip(name, cat)).(category := cat)
  {
  }

  /** The templates of the seeded name: the defaults when it had none. */
  lemma SeedOneTemplates(s: Store, name: string, cat: string)
    ensures TemplatesOf(SeedOne(s, name, cat).templates, name) ==
      if TemplatesOf(s.templates, name) == [] then Defaults(name, RolesFor(cat)) else TemplatesOf(s.templates, name)
  {
    var ts := s.templates;
    if TemplatesOf(ts, name) == [] {
      var roles := RolesFor(cat);
      AddRolesOnEmpty(ts, name, roles);
      TemplatesOfConcat(ts, Defaults(name, roles), name);
      TemplatesOfAll(Defaults(name, roles), name);
    }
  }

  /** Seeding (name, cat) leaves the view of every other name alone. */
  lemma SeedOneFrame(s: Store, name: string, cat: string, other: string)
    requires other != name
    ensures ViewOf(SeedOne(s, name, cat), other) == ViewOf(s, other)
  {
    var ts := s.templates;
    if TemplatesOf(ts, name) == [] {
      var r := AddRoles(ts, name, RolesFor(cat));
      AddRolesAppends(ts, name, RolesFor(cat));
      assert r == ts + r[|ts|..];
      TemplatesOfConcat(ts, r[|ts|..], other);
      TemplatesOfNone(r[|ts|..], other);
    }
  }

  /** The code a name is seeded with, if it is a starter. */
  function CodeOf(starters: seq<(string, string)>, name: string): (code: Option<string>)
    ensures code.None? <==> forall i :: 0 <= i < |starters| ==> starters[i].0 != name
    ensures code.Some? ==> exists i :: 0 <= i < |starters| && starters[i] == (name, code.value)
  {
    if starters == [] then None
    else
      var init, last := starters[..|starters| - 1], starters[|starters| - 1];
      if last.0 == name then Some(last.1)
      else
        var c := CodeOf(init, name);
        assert forall i :: 0 <= i < |init| ==> init[i] == starters[i];
        c
  }

  predicate DistinctNames(starters: seq<(string, string)>) {
    forall i, j :: 0 <= i < j < |starters| ==> starters[i].0 != starters[j].0
  }

  /** With distinct starter names, the whole loop acts on each name
      separately: a starter's view is seeded once with its code, and any
      other name is untouched. */
  lemma {:induction false} SeedAllView(s: Store, starters: seq<(string, string)>, name: string)
    requires DistinctNames(starters)
    ensures ViewOf(SeedAll(s, starters), name) ==
      match CodeOf(starters, name)
      case None => ViewOf(s, name)
      case Some(cat) => SeedView(ViewOf(s, name), name, cat)
  {
    if starters != [] {
      var init, last := starters[..|starters| - 1], starters[|starters| - 1];
      assert DistinctNames(init) by {
        forall i, j | 0 <= i < j < |init| ensures init[i].0 != init[j].0 {
          assert init[i] == starters[i] && init[j] == starters[j];
        }
      }
      SeedAllView(s, init, name);
      if last.0 == name {
        assert CodeOf(init, name).None? by {
          forall i | 0 <= i < |init| ensures init[i].0 != name {
            assert init[i] == starters[i];
          }
        }
        SeedOneView(SeedAll(s, init), name, last.1);
      } else {
        SeedOneFrame(SeedAll(s, init), last.0, last.1, name);
      }
    }
  }

  // The distinctness of the 24 literal names is proved two rows at a time:
  // each lemma compares two names with every later one, which keeps each
  // proof obligation about literal strings small enough for the solver.

  lemma NamesDistinctFrom0()
    ensures forall i, j :: 0 <= i < 2 && i < j < |Starters| ==> Starters[i].0 != Starters[j].0
  {
    forall j | 0 < j < |Starters| ensures Starters[0].0 != Starters[j].0 { }
    forall j | 1 < j < |Starters| ensures Starters[1].0 != Starters[j].0 { }
  }

  lemma NamesDistinctFrom2()
    ensures forall i, j :: 2 <= i < 4 && i < j < |Starters| ==> Starters[i].0 != Starters[j].0
  {
    forall j | 2 < j < |Starters| ensures Starters[2].0 != Starters[j].0 { }
    forall j | 3 < j < |Starters| ensures Starters[3].0 != Starters[j].0 { }
  }

  lemma NamesDistinctFrom4()
    ensures forall i, j :: 4 <= i < 6 && i < j < |Starters| ==> Starters[i].0 != Starters[j].0
  {
    forall j | 4 < j < |Starters| ensures Starters[4].0 != Starters[j].0 { }
    forall j | 5 < j < |Starters| ensures Starters[5].0 != Starters[j].0 { }
  }

  lemma NamesDistinctFrom6()
    ensures forall i, j :: 6 <= i < 8 && i < j < |Starters| ==> Starters[i].0 != Starters[j].0
  {
    forall j | 6 < j < |Starters| ensures Starters[6].0 != Starters[j].0 { }
    forall j | 7 < j < |Starters| ensures Starters[7].0 != Starters[j].0 { }
  }

  lemma NamesDistinctFrom8()
    ensures forall i, j :: 8 <= i < 10 && i < j < |Starters| ==> Starters[i].0 != Starters[j].0
  {
    forall j | 8 < j < |Starters| ensures Starters[8].0 != Starters[j].0 { }
    forall j | 9 < j < |Starters| ensures Starters[9].0 != Starters[j].0 { }
  }

  lemma NamesDistinctFrom10()
    ensures forall i, j :: 10 <= i < 12 && i < j < |Starters| ==> Starters[i].0 != Starters[j].0
  {
    forall j | 10 < j < |Starters| ensures Starters[10].0 != Starters[j].0 { }
    forall j | 11 < j < |Starters| ensures Starters[11].0 != Starters[j].0 { }
  }

  lemma NamesDistinctFrom12()
    ensures forall i, j :: 12 <= i < 14 && i < j < |Starters| ==> Starters[i].0 != Starters[j].0
  {
    forall j | 12 < j < |Starters| ensures Starters[12].0 != Starters[j].0 { }
    forall j | 13 < j < |Starters| ensures Starters[13].0 != Starters[j].0 { }
  }

  lemma NamesDistinctFrom14()
    ensures forall i, j :: 14 <= i < 16 && i < j < |Starters| ==> Starters[i].0 != Starters[j].0
  {
    forall j | 14 < j < |Starters| ensures Starters[14].0 != Starters[j].0 { }
    forall j | 15 < j < |Starters| ensures Starters[15].0 != Starters[j].0 { }
  }

  lemma NamesDistinctFrom16()
    ensures forall i, j :: 16 <= i < 18 && i < j < |Starters| ==> Starters[i].0 != Starters[j].0
  {
    forall j | 16 < j < |Starters| ensures Starters[16].0 != Starters[j].0 { }
    forall j | 17 < j < |Starters| ensures Starters[17].0 != Starters[j].0 { }
  }

  lemma NamesDistinctFrom18()
    ensures forall i, j :: 18 <= i < 20 && i < j < |Starters| ==> Starters[i].0 != Starters[j].0
  {
    forall j | 18 < j < |Starters| ensures Starters[18].0 != Starters[j].0 { }
    forall j | 19 < j < |Starters| ensures Starters[19].0 != Starters[j].0 { }
  }

  lemma NamesDistinctFrom20()
    ensures forall i, j :: 20 <= i < 22 && i < j < |Starters| ==> Starters[i].0 != Starters[j].0
  {
    forall j | 20 < j < |Starters| ensures Starters[20].0 != Starters[j].0 { }
    forall j | 21 < j < |Starters| ensures Starters[21].0 != Starters[j].0 { }
  }

  lemma NamesDistinctFrom22()
    ensures forall i, j :: 22 <= i < 23 && i < j < |Starters| ==> Starters[i].0 != Starters[j].0
  {
    forall j | 22 < j < |Starters| ensures Starters[22].0 != Starters[j].0 { }
  }

  /** `STARTERS` names each ship once. */
  lemma StarterNamesDistinct()
    ensures DistinctNames(Starters)
  {
    NamesDistinctFrom0();
    NamesDistinctFrom2();
    NamesDistinctFrom4();
    NamesDistinctFrom6();
    NamesDistinctFrom8();
    NamesDistinctFrom10();
    NamesDistinctFrom12();
    NamesDistinctFrom14();
    NamesDistinctFrom16();
    NamesDistinctFrom18();
    NamesDistinctFrom20();
    NamesDistinctFrom22();
  }

  // ---------------------------------------------------------------------
  // The promises of the command, for any store

  /** Every starter ship exists afterwards with exactly its code as
      category, whatever category it had before. */
  lemma HandleSeedsEveryStarter(s: Store, starters: seq<(string, string)>, i: nat)
    requires DistinctNames(starters) && i < |starters|
    ensures var r := SeedAll(s, starters);
      starters[i].0 in r.ships && r.ships[starters[i].0].category == starters[i].1
  {
    var name := starters[i].0;
    SeedAllView(s, starters, name);
    var c := CodeOf(starters, name).value;
    var j :| 0 <= j < |starters| && starters[j] == (name, c);
    assert i == j;
  }

  /** A new ship gets crew 1 to 2 and the starter's code; a ship that
      existed keeps every field but its category; a ship that is not a
      starter is unchanged. */
  lemma HandleShipRows(s: Store, starters: seq<(string, string)>, name: string)
    requires DistinctNames(starters)
    ensures var r := SeedAll(s, starters);
      && (name in s.ships ==> name in r.ships && r.ships[name] == s.ships[name].(category := r.ships[name].category))
      && (name !in s.ships && name in r.ships ==>
            CodeOf(starters, name).Some? && r.ships[name] == StarterShip(name, CodeOf(starters, name).value))
      && (CodeOf(starters, name).None? ==> (name in r.ships <==> name in s.ships))
      && (CodeOf(starters, name).None? && name in s.ships ==> r.ships[name] == s.ships[name])
  {
    SeedAllView(s, starters, name);
  }

  /** A ship that had templates keeps exactly those; a starter ship without
      templates receives the roles of its category (the single "Pilote"
      seat for an unknown code); templates of other names are unchanged. */
  lemma HandleTemplates(s: Store, starters: seq<(string, string)>, name: string)
    requires DistinctNames(starters)
    ensures var r := SeedAll(s, starters);
      && (TemplatesOf(s.templates, name) != [] ==> TemplatesOf(r.templates, name) == TemplatesOf(s.templates, name))
      && (TemplatesOf(s.templates, name) == [] && CodeOf(starters, name).Some? ==>
            TemplatesOf(r.templates, name) == Defaults(name, RolesFor(CodeOf(starters, name).value)))
      && (CodeOf(starters, name).None? ==> TemplatesOf(r.templates, name) == TemplatesOf(s.templates, name))
  {
    SeedAllView(s, starters, name);
  }

  /** The command only inserts templates: the old table is a prefix. */
  lemma {:induction false} HandleOnlyAppendsTemplates(s: Store, starters: seq<(string, string)>)
    ensures var r := SeedAll(s, starters);
      |s.templates| <= |r.templates| && r.templates[..|s.templates|] == s.templates
  {
    if starters != [] {
      var init, last := starters[..|starters| - 1], starters[|starters| - 1];
      HandleOnlyAppendsTemplates(s, init);
      var mid := SeedAll(s, init);
      if TemplatesOf(mid.templates, last.0) == [] {
        AddRolesAppends(mid.templates, last.0, RolesFor(last.1));
      }
    }
  }

  /** Ship names stay the keys of the ship table. */
  lemma {:induction false} HandleKeepsShipTable(s: Store, starters: seq<(string, string)>)
    requires ShipTable(s.ships)
    ensures ShipTable(SeedAll(s, starters).ships)
  {
    if starters != [] {
      HandleKeepsShipTable(s, starters[..|starters| - 1]);
    }
  }

  /** A store where seeding (name, cat) changes nothing. */
  lemma SeedOneOnSeeded(s: Store, name: string, cat: string)
    requires name in s.ships && s.ships[name].category == cat && TemplatesOf(s.templates, name) != []
    ensures SeedOne(s, name, cat) == s
  {
    assert s.ships[name := s.ships[name]] == s.ships;
  }

  lemma {:induction false} SeedAllFixpoint(s: Store, starters: seq<(string, string)>)
    requires forall i :: 0 <= i < |starters| ==> SeedOne(s, starters[i].0, starters[i].1) == s
    ensures SeedAll(s, starters) == s
  {
    if starters != [] {
      var init := starters[..|starters| - 1];
      assert forall i :: 0 <= i < |init| ==> init[i] == starters[i];
      SeedAllFixpoint(s, init);
    }
  }

  /** Running the command twice gives the same tables as running it once. */
  lemma HandleIdempotent(s: Store, starters: seq<(string, string)>)
    requires DistinctNames(starters)
    ensures SeedAll(SeedAll(s, starters), starters) == SeedAll(s, starters)
  {
    var r := SeedAll(s, starters);
    forall i | 0 <= i < |starters| ensures SeedOne(r, starters[i].0, starters[i].1) == r {
      var name := starters[i].0;
      HandleSeedsEveryStarter(s, starters, i);
      SeedAllView(s, starters, name);
      assert TemplatesOf(r.templates, name) != [];
      SeedOneOnSeeded(r, name, starters[i].1);
    }
    SeedAllFixpoint(r, starters);
  }
}
