/** The records of the operations app (ops/models.py) as values.

    Tables are Dafny collections: ships are a map from their unique name to
    the row, so a foreign key to a ship is the ship's name; role templates,
    assignments and operation ships are sequences in insertion order. */
module Models {
  import opened Wrappers
  import opened Text

  /** `Ship`: a ship type of the catalog. `category` is the stored category
      code; it is a plain string because the database does not restrict it to
      the declared category choices. */
  datatype Ship = Ship(
    name: string,
    manufacturer: string,
    role: string,
    cargoCapacity: string,
    minCrew: nat,
    maxCrew: nat,
    category: string)

  /** `ShipRoleTemplate`: the ship needs `slots` seats of role `roleName`. */
  datatype ShipRoleTemplate = ShipRoleTemplate(ship: string, roleName: string, slots: nat)

  /** `OperationShip`: a ship taking part in an operation. */
  datatype OperationShip = OperationShip(id: nat, operation: nat, ship: string, notes: string)

  /** `Assignment`: one seat of a role on an operation ship; `user` is the
      username of the assigned member, `None` for an open seat. */
  datatype Assignment = Assignment(operationShip: nat, roleName: string, user: Option<string>, status: string)

  /** Field defaults: `Ship.min_crew`, `Assignment.status`. */
  const DefaultMinCrew: nat := 1
  const DefaultStatus: string := "open"

  /** The choices of `Assignment.status`. */
  const StatusChoices: seq<string> := ["open", "assigned", "confirmed"]

  /** The ship table is keyed by the unique ship name. */
  predicate ShipTable(ships: map<string, Ship>) {
    forall n :: n in ships ==> ships[n].name == n
  }

  /** `unique_together = ("ship", "role_name")`. */
  predicate UniqueTemplates(ts: seq<ShipRoleTemplate>) {
    forall i, j :: 0 <= i < j < |ts| ==>
      ts[i].ship != ts[j].ship || ts[i].roleName != ts[j].roleName
  }

  predicate DistinctRoleNames(ts: seq<ShipRoleTemplate>) {
    forall i, j :: 0 <= i < j < |ts| ==> ts[i].roleName != ts[j].roleName
  }

  /** `ship.roles.all()`: the templates of one ship, in table order. */
  function TemplatesOf(ts: seq<ShipRoleTemplate>, ship: string): (r: seq<ShipRoleTemplate>)
    ensures forall t :: t in r <==> t in ts && t.ship == ship
    ensures |r| <= |ts|
  {
    if ts == [] then []
    else (if ts[0].ship == ship then [ts[0]] else []) + TemplatesOf(ts[1..], ship)
  }

  /** Because (ship, role_name) is unique, the roles of one ship are
      distinct: each role of a ship has a single slot count. */
  lemma {:induction false} TemplatesOfDistinctRoles(ts: seq<ShipRoleTemplate>, ship: string)
    requires UniqueTemplates(ts)
    ensures DistinctRoleNames(TemplatesOf(ts, ship))
  {
    if ts != [] {
      UniqueTemplatesTail(ts);
      TemplatesOfDistinctRoles(ts[1..], ship);
      if ts[0].ship == ship {
        HeadRoleFresh(ts, ship);
        DistinctRoleNamesCons(ts[0], TemplatesOf(ts[1..], ship));
      }
    }
  }

  lemma UniqueTemplatesTail(ts: seq<ShipRoleTemplate>)
    requires ts != [] && UniqueTemplates(ts)
    ensures UniqueTemplates(ts[1..])
  {
    forall i, j | 0 <= i < j < |ts[1..]|
      ensures ts[1..][i].ship != ts[1..][j].ship || ts[1..][i].roleName != ts[1..][j].roleName
    {
      assert ts[1..][i] == ts[i + 1] && ts[1..][j] == ts[j + 1];
    }
  }

  /** The first template's role is not repeated among the later
      templates of its ship. */
  lemma HeadRoleFresh(ts: seq<ShipRoleTemplate>, ship: string)
    requires ts != [] && UniqueTemplates(ts) && ts[0].ship == ship
    ensures forall t :: t in TemplatesOf(ts[1..], ship) ==> t.roleName != ts[0].roleName
  {
    forall t | t in TemplatesOf(ts[1..], ship) ensures t.roleName != ts[0].roleName {
      var m :| 0 <= m < |ts[1..]| && ts[1..][m] == t;
      assert ts[m + 1] == t;
    }
  }

  lemma DistinctRoleNamesCons(t: ShipRoleTemplate, rest: seq<ShipRoleTemplate>)
    requires DistinctRoleNames(rest)
    requires forall u :: u in rest ==> u.roleName != t.roleName
    ensures DistinctRoleNames([t] + rest)
  {
    var r := [t] + rest;
    forall i, j | 0 <= i < j < |r| ensures r[i].roleName != r[j].roleName {
      assert r[j] == rest[j - 1] && rest[j - 1] in rest;
      if i > 0 {
        assert r[i] == rest[i - 1];
      }
    }
  }

  /** A valid assignment has one of the declared status choices. */
  predicate ValidAssignment(a: Assignment) {
    a.status in StatusChoices
  }

  /** `Assignment.objects.create(operation_ship=..., role_name=...)`: the
      remaining fields take their defaults, no user and status "open". */
  function NewAssignment(operationShip: nat, roleName: string): (a: Assignment)
    ensures ValidAssignment(a) && a.user.None?
    ensures a.operationShip == operationShip && a.roleName == roleName
  {
    Assignment(operationShip, roleName, None, DefaultStatus)
  }

  /** `Assignment.__str__`, given the text of its operation ship: the
      operation ship, the role and the assigned user, or "open" when the
      seat has no user. */
  function AssignmentLabel(operationShipLabel: string, a: Assignment): (s: string)
    ensures |operationShipLabel| <= |s| && s[..|operationShipLabel|] == operationShipLabel
    ensures a.user.None? ==> |s| >= 4 && s[|s| - 4..] == "open"
    ensures a.user.Some? ==> |s| >= |a.user.value| && s[|s| - |a.user.value|..] == a.user.value
  {
    operationShipLabel + " · " + a.roleName + " → " + a.user.GetOr("open")
  }

  /** A seat given to a member whose username is "open" reads exactly like
      an open seat: the label alone does not tell them apart. */
  lemma AssignmentLabelAmbiguous(operationShipLabel: string, roleName: string)
    ensures AssignmentLabel(operationShipLabel, Assignment(0, roleName, None, "open"))
         == AssignmentLabel(operationShipLabel, Assignment(0, roleName, Some("open"), "assigned"))
  {
  }
}
