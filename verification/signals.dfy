/** The `post_save` receiver on operation ships (ops/signals.py): when an
    operation ship is first saved, one open assignment is created for every
    seat that the ship's role templates declare. */
module Signals {
  import opened Wrappers
  import opened Models

  /** `n` copies of one assignment. */
  function Repeat(a: Assignment, n: nat): (r: seq<Assignment>)
    ensures |r| == n && forall b :: b in r ==> b == a
  {
    if n == 0 then [] else Repeat(a, n - 1) + [a]
  }

  /** The assignments the receiver creates for a list of role templates:
      for each template in turn, `slots` fresh assignments of its role. */
  function Seeded(operationShip: nat, templates: seq<ShipRoleTemplate>): seq<Assignment> {
    if templates == [] then []
    else
      var init, last := templates[..|templates| - 1], templates[|templates| - 1];
      Seeded(operationShip, init) + Repeat(NewAssignment(operationShip, last.roleName), last.slots)
  }

  /** `seed_slots`: nothing happens on an update; on creation, one
      `Assignment` per seat of each role template of the ship is appended to
      the assignment table, in template order. Existing rows are kept. */
  method SeedSlots(created: bool, instance: OperationShip, templates: seq<ShipRoleTemplate>,
                   assignments: seq<Assignment>) returns (result: seq<Assignment>)
    ensures !created ==> result == assignments
    ensures created ==> result == assignments + Seeded(instance.id, TemplatesOf(templates, instance.ship))
    ensures |result| == |assignments| + (if created then SlotTotal(TemplatesOf(templates, instance.ship)) else 0)
    ensures result[..|assignments|] == assignments
  {
    result := assignments;
    if created {
      var roles := TemplatesOf(templates, instance.ship);
      var i := 0;
      while i < |roles|
        invariant 0 <= i <= |roles|
        invariant result == assignments + Seeded(instance.id, roles[..i])
      {
        var rt := roles[i];
        result := CreateSeats(result, NewAssignment(instance.id, rt.roleName), rt.slots);
        SeededStep(instance.id, roles, i);
        i := i + 1;
      }
      assert roles[..|roles|] == roles;
      SeededCount(instance.id, roles);
    }
  }

  /** The inner loop `for _ in range(rt.slots): Assignment.objects.create(...)`:
      `slots` copies of the new seat are appended. */
  method CreateSeats(assignments: seq<Assignment>, seat: Assignment, slots: nat) returns (result: seq<Assignment>)
    ensures result == assignments + Repeat(seat, slots)
  {
    result := assignments;
    var n := 0;
    while n < slots
      invariant 0 <= n <= slots
      invariant result == assignments + Repeat(seat, n)
    {
      result := result + [seat];
      n := n + 1;
    }
  }

  lemma SeededStep(operationShip: nat, templates: seq<ShipRoleTemplate>, i: nat)
    requires i < |templates|
    ensures Seeded(operationShip, templates[..i + 1]) ==
      Seeded(operationShip, templates[..i]) + Repeat(NewAssignment(operationShip, templates[i].roleName), templates[i].slots)
  {
    assert templates[..i + 1][..i] == templates[..i];
  }

  /** The total number of seats the templates declare. */
  function SlotTotal(templates: seq<ShipRoleTemplate>): nat {
    if templates == [] then 0
    else SlotTotal(templates[..|templates| - 1]) + templates[|templates| - 1].slots
  }

  /** Exactly as many assignments are created as the templates have seats. */
  lemma {:induction false} SeededCount(operationShip: nat, templates: seq<ShipRoleTemplate>)
    ensures |Seeded(operationShip, templates)| == SlotTotal(templates)
  {
    if templates != [] {
      SeededCount(operationShip, templates[..|templates| - 1]);
    }
  }

  /** Every created assignment belongs to the new operation ship, is open
      (status "open", no user), is valid, and is for a role of a template. */
  lemma {:induction false} SeededAreOpen(operationShip: nat, templates: seq<ShipRoleTemplate>)
    ensures forall a :: a in Seeded(operationShip, templates) ==>
      && a.operationShip == operationShip && a.user.None? && a.status == "open" && ValidAssignment(a)
      && exists t :: t in templates && t.roleName == a.roleName
  {
    if templates != [] {
      var init, last := templates[..|templates| - 1], templates[|templates| - 1];
      SeededAreOpen(operationShip, init);
      forall a | a in Seeded(operationShip, templates)
        ensures && a.operationShip == operationShip && a.user.None? && a.status == "open" && ValidAssignment(a)
                && exists t :: t in templates && t.roleName == a.roleName
      {
        if a in Seeded(operationShip, init) {
          var t :| t in init && t.roleName == a.roleName;
          assert t in templates;
        } else {
          assert last in templates;
        }
      }
    }
  }

  /** The number of assignments for one role. */
  function CountRole(assignments: seq<Assignment>, role: string): nat {
    if assignments == [] then 0
    else
      var init, last := assignments[..|assignments| - 1], assignments[|assignments| - 1];
      CountRole(init, role) + (if last.roleName == role then 1 else 0)
  }

  lemma {:induction false} CountRoleConcat(a: seq<Assignment>, b: seq<Assignment>, role: string)
    ensures CountRole(a + b, role) == CountRole(a, role) + CountRole(b, role)
    decreases |b|
  {
    if b == [] {
      assert a + b == a;
    } else {
      var init := b[..|b| - 1];
      assert (a + b)[..|a + b| - 1] == a + init;
      CountRoleConcat(a, init, role);
    }
  }

  lemma {:induction false} CountRoleRepeat(a: Assignment, n: nat, role: string)
    ensures CountRole(Repeat(a, n), role) == if a.roleName == role then n else 0
  {
    if n > 0 {
      assert Repeat(a, n)[..n - 1] == Repeat(a, n - 1);
      CountRoleRepeat(a, n - 1, role);
    }
  }

  /** The seats the templates declare for one role. */
  function RoleSlots(templates: seq<ShipRoleTemplate>, role: string): nat {
    if templates == [] then 0
    else
      var init, last := templates[..|templates| - 1], templates[|templates| - 1];
      RoleSlots(init, role) + (if last.roleName == role then last.slots else 0)
  }

  /** Each role receives as many assignments as its templates have seats. */
  lemma {:induction false} SeededPerRole(operationShip: nat, templates: seq<ShipRoleTemplate>, role: string)
    ensures CountRole(Seeded(operationShip, templates), role) == RoleSlots(templates, role)
  {
    if templates != [] {
      var init, last := templates[..|templates| - 1], templates[|templates| - 1];
      SeededPerRole(operationShip, init, role);
      CountRoleConcat(Seeded(operationShip, init), Repeat(NewAssignment(operationShip, last.roleName), last.slots), role);
      CountRoleRepeat(NewAssignment(operationShip, last.roleName), last.slots, role);
    }
  }

  /** With distinct role names, a role's seats are those of its one
      template, and a role without a template has none. */
  lemma {:induction false} RoleSlotsOfDistinct(templates: seq<ShipRoleTemplate>, role: string)
    requires DistinctRoleNames(templates)
    ensures forall t :: t in templates && t.roleName == role ==> RoleSlots(templates, role) == t.slots
    ensures (forall t :: t in templates ==> t.roleName != role) ==> RoleSlots(templates, role) == 0
  {
    if templates != [] {
      var init, last := templates[..|templates| - 1], templates[|templates| - 1];
      assert DistinctRoleNames(init) by {
        forall i, j | 0 <= i < j < |init| ensures init[i].roleName != init[j].roleName {
          assert init[i] == templates[i] && init[j] == templates[j];
        }
      }
      RoleSlotsOfDistinct(init, role);
      forall t | t in templates && t.roleName == role ensures RoleSlots(templates, role) == t.slots {
        if t in init {
          var i :| 0 <= i < |init| && init[i] == t;
          assert templates[i] == t;
          assert last.roleName != role;
        } else {
          assert t == last;
          forall u | u in init ensures u.roleName != role {
            var i :| 0 <= i < |init| && init[i] == u;
            assert templates[i] == u;
          }
        }
      }
      if forall t :: t in templates ==> t.roleName != role {
        assert last in templates;
        forall u | u in init ensures u.roleName != role {
          assert u in templates;
        }
      }
    }
  }

  /** The signal's promise for a ship whose templates respect
      `unique_together`: every role template of the ship gets exactly
      `slots` open assignments on the new operation ship, and a role that is
      not a template of the ship gets none. */
  lemma SeedSlotsPerTemplate(instance: OperationShip, templates: seq<ShipRoleTemplate>, role: string)
    requires UniqueTemplates(templates)
    ensures var seeded := Seeded(instance.id, TemplatesOf(templates, instance.ship));
      && (forall t :: t in templates && t.ship == instance.ship && t.roleName == role ==>
            CountRole(seeded, role) == t.slots)
      && ((forall t :: t in templates && t.ship == instance.ship ==> t.roleName != role) ==>
            CountRole(seeded, role) == 0)
  {
    var roles := TemplatesOf(templates, instance.ship);
    TemplatesOfDistinctRoles(templates, instance.ship);
    SeededPerRole(instance.id, roles, role);
    RoleSlotsOfDistinct(roles, role);
  }
}
