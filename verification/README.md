# Crew allocation rules of the CKFR operations app, in Dafny

CKFR is a Django site where a community plans "operations": ships take part
in an operation, every ship type declares role templates ("this ship needs
N seats of role R"), and members are assigned to the seats. This project
models the deterministic rules at the heart of the site, with the database
tables as Dafny values (the ship table is a map keyed by the unique ship
name; templates, assignments, sessions and groups are sequences in table
order), and proves what the rules promise:

- `ShipCatalog`: the ship-catalog data migration. It has a lenient crew-range
  parser (`"2-4"`, `"3"`, `"-"`, `"?"`) and a first-match keyword classifier
  that maps a free-text role to `LF`/`MF`/`HF`/`MR`/`CAP`. Its upsert loop
  keeps `max_crew >= min_crew`.
- `Services`: the display helpers. They group role slots by role in
  first-appearance order with status badges, attach the grouping to a ship
  object, and group ships by declared category.
- `Signals`: on creation of an operation ship, one open assignment is created
  per seat of every role template of the ship.
- `Models`: the records, their defaults and uniqueness rules, and the label
  of an assignment.
- `SeedShips`: the starter-ship seeding command. It is idempotent.
- `GroupLabels`: the group-relabelling data migration ("Member" becomes
  "Membre") and its reverse step.
- `Permissions` and `Views`: the access predicates, the planner test, and the
  sanitising, filtering and ordering of the ship list.
- `UserAdmin`: the guard that protects superusers from other staff, the
  masked password widget, and the trimmed bulk actions.
- `Sessions`: the login receiver that keeps one active session per user.

`Wrappers` (Option/Result) and `Text` are support modules.
- `Text` covers Python whitespace, `strip`, `lower`, `int()` on ASCII digits,
  `str()` of a natural number, and string order.

Loops that change tables in the source are methods with `while` loops that
return the new table. Each is proved equal to a specification function,
and the promises are proved as lemmas about that function. The
`prepare_ship_for_display` helper sets attributes on a ship object, so it is
a method on the class `ShipDisplay`.

## Model

| member | source | states |
|---|---|---|
| Text.RemoveSpaces | ops/migrations/0006_load_ship_catalog.py:11 | the result has no whitespace and is no longer than the input |
| Text.RemoveSpacesOfStrip | ops/migrations/0006_load_ship_catalog.py:7-11 | removing all whitespace after `strip()` is the same as removing it from the raw text |
| Text.ParseInt | ops/migrations/0006_load_ship_catalog.py:13-16 | `int()` succeeds exactly on a digit or a sign followed only by digits (at least one); only a leading minus gives a negative value, and unsigned digits give their decimal value |
| Text.ParseIntOfDecimal | ops/migrations/0006_load_ship_catalog.py:24 | `int(str(n)) == n` for every natural number |
| Text.ParseIntOfSigned | ops/migrations/0006_load_ship_catalog.py:13-16 | `int("-" + str(n)) == -n` and `int("+" + str(n)) == n` |
| Text.ParseIntRejects | ops/migrations/0006_load_ship_catalog.py:13-16 | the empty text, a bare sign, "1-2" and a letter do not parse |
| Text.NatToDecimal | ckfr_site/session_management.py:19 | `str(user.pk)` is a non-empty run of decimal digits |
| Text.DecimalValue | ckfr_site/session_management.py:19 | the digits of `str(n)` read back as `n` |
| Text.ToLower | ops/migrations/0006_load_ship_catalog.py:35 | lower-casing keeps the length |
| Text.BelowTransitive | ops/views.py:30-43 | the string order used by `order_by` is transitive |
| Text.BelowTotal | ops/views.py:30-43 | any two different strings are ordered one way or the other |
| Text.BelowAsymmetric | ops/views.py:30-43 | the string order is asymmetric |
| Models.TemplatesOf | ops/models.py:12 | a ship's templates are exactly the template rows pointing at it, in table order |
| Models.TemplatesOfDistinctRoles | ops/models.py:16 | under `unique_together` on (ship, role_name), a ship's templates have distinct role names |
| Models.NewAssignment | ops/models.py:34-36 | a created assignment has the given ship and role, no user, and a valid status ("open") |
| Models.AssignmentLabel | ops/models.py:37 | the label starts with the operation ship's text and ends with the user, or "open" when there is none |
| Models.AssignmentLabelAmbiguous | ops/models.py:37 | an open seat and a seat held by a user named "open" get the same label |
| ShipCatalog.IndexOf | ops/migrations/0006_load_ship_catalog.py:13 | the cut of `split("-", 1)` is at the first hyphen |
| ShipCatalog.ParseCrew | ops/migrations/0006_load_ship_catalog.py:6-31 | every crew text gives `0 <= min <= max` |
| ShipCatalog.ParseCrewBlank | ops/migrations/0006_load_ship_catalog.py:7-9 | empty or whitespace-only text gives (0, 0) |
| ShipCatalog.ParseCrewPlaceholder | ops/migrations/0006_load_ship_catalog.py:7-9 | a lone "-" or "?" placeholder, with any surrounding whitespace, gives (0, 0) |
| ShipCatalog.ParseCrewIgnoresWhitespace | ops/migrations/0006_load_ship_catalog.py:7-11 | whitespace anywhere does not change the result ("2 - 4" parses like "2-4") |
| ShipCatalog.ParseCrewRange | ops/migrations/0006_load_ship_catalog.py:12-29 | with a hyphen: an unparseable start gives min 0, an unparseable end gives max = min, and max is raised to min |
| ShipCatalog.ParseCrewSingle | ops/migrations/0006_load_ship_catalog.py:22-26 | without a hyphen, min = max = the parsed integer, or 0 when it does not parse |
| ShipCatalog.ParseCrewOfNumber | ops/migrations/0006_load_ship_catalog.py:22-24 | the text of a number `n` gives (n, n) |
| ShipCatalog.ParseCrewOfRange | ops/migrations/0006_load_ship_catalog.py:12-29 | "a-b" gives (a, max(a, b)) |
| ShipCatalog.DetermineCategory | ops/migrations/0006_load_ship_catalog.py:34-91 | the result is always one of LF, MF, HF, MR, CAP |
| ShipCatalog.FirstMatch | ops/migrations/0006_load_ship_catalog.py:52-91 | an ordered rule list yields the fallback or the code of one of its rules |
| ShipCatalog.FirstMatchIsEarliest | ops/migrations/0006_load_ship_catalog.py:52-65 | the earliest rule with a matching keyword decides |
| ShipCatalog.DetermineCategoryFollowsRules | ops/migrations/0006_load_ship_catalog.py:34-91 | the classifier is the ordered rule list applied to the lower-cased role, with MR as fallback |
| ShipCatalog.SupportKeywordsAreRedundant | ops/migrations/0006_load_ship_catalog.py:67-91 | dropping the support-keyword check changes nothing, because its code equals the fallback |
| ShipCatalog.DetermineCategoryIgnoresCase | ops/migrations/0006_load_ship_catalog.py:35 | lower-casing the role first does not change the category |
| ShipCatalog.HeavyGunshipIsCapital | ops/migrations/0006_load_ship_catalog.py:45-53 | a role containing "heavy gunship" is CAP |
| ShipCatalog.GunshipIsHeavyFighter | ops/migrations/0006_load_ship_catalog.py:62-63 | the role "gunship" (any case) is HF |
| ShipCatalog.ShipFromEntry | ops/migrations/0006_load_ship_catalog.py:100-113 | the written row has the entry's name, min <= max, a declared category and a non-blank cargo; `ShipFromEntryFields` gives each field |
| ShipCatalog.ShipFromEntryFields | ops/migrations/0006_load_ship_catalog.py:100-113 | the row's manufacturer and role are the entry's own; its crew is exactly `ParseCrew` of the entry's crew (the raise of max to min never changes it); its category is `DetermineCategory` of the role; its cargo is "-" when missing or blank and the stripped cargo otherwise |
| ShipCatalog.LoadedKeys | ops/migrations/0006_load_ship_catalog.py:99-105 | afterwards the table holds the old names plus every catalog name |
| ShipCatalog.LoadedKeepsOthers | ops/migrations/0006_load_ship_catalog.py:104-105 | ships the catalog does not name are untouched |
| ShipCatalog.LoadedLastWins | ops/migrations/0006_load_ship_catalog.py:104-114 | a name's row is built from its last catalog entry |
| ShipCatalog.LoadedRow | ops/migrations/0006_load_ship_catalog.py:99-113 | after loading, a catalog name's row holds the parsed crew, derived category, own manufacturer and role, and stripped-or-"-" cargo of that name's last entry |
| ShipCatalog.LoadedCrewOrdered | ops/migrations/0006_load_ship_catalog.py:111-119 | every loaded ship has `max_crew >= min_crew` |
| ShipCatalog.LoadedKeepsKeys | ops/models.py:6 | the table stays keyed by the unique ship name |
| ShipCatalog.LoadShipCatalog | ops/migrations/0006_load_ship_catalog.py:94-119 | the upsert loop yields the specified table: old and catalog names, others kept, last entry wins, crew ordered |
| Services.BadgeClass | ops/services.py:41 | every status gets a declared badge; a known status gets its own, an unknown one the "open" badge |
| Services.AnnotateAll | ops/services.py:35-41 | annotating keeps every slot, in order (the slots behind the shown list are the input), and each shown slot carries the form flag and the badge of its own status |
| Services.RoleOrder | ops/services.py:34-42 | the group keys are distinct and are exactly the role names of the slots |
| Services.RoleOrderIsFirstAppearance | ops/services.py:34-42 | the keys are ordered by where each role first appears |
| Services.SlotsWithRole | ops/services.py:42 | a slot is in its role's list exactly when it is an input slot of that role |
| Services.SlotsWithRoleConcat | ops/services.py:35-42 | filtering by role keeps input order: the slots of a role in `a + b` are those in `a` followed by those in `b` |
| Services.GroupedSlotsStep | ops/services.py:42 | `setdefault(...).append` adds the slot to its role's group, or opens a new group at the end |
| Services.PrepareSlotsForDisplay | ops/services.py:26-43 | the loop yields exactly the grouping `GroupedSlots` of all the slots, a partition of them by role in input order (`GroupedSlotsShape`, `GroupedSlotsPartition`, `SlotInItsGroup`, `GroupHoldsRoleSlots`) |
| Services.AddSlot | ops/services.py:35-42 | one turn of the loop turns the grouping of the slots seen so far into the grouping of those slots and one more |
| Services.GroupedSlotsShape | ops/services.py:34-42 | the group keys are distinct, every slot's role has a group, and every member of a group has that group's role, the form flag and its status badge |
| Services.GroupedSlotsCount | ops/services.py:35-42 | the groups together show exactly as many slots as were given |
| Services.GroupedSlotsPartition | ops/services.py:35-42 | the groups together hold every input slot exactly as often as the input does and nothing else: the grouping is a partition of the slots |
| Services.SlotInItsGroup | ops/services.py:42 | every input slot is shown, annotated, in the group keyed by its own role (the only one, as keys are distinct) |
| Services.GroupHoldsRoleSlots | ops/services.py:42 | the slots behind each group are exactly the input slots of its role, in input order |
| Services.ItemsToMap | ops/services.py:59-60 | the mapping has exactly the keys of the item list |
| Services.ItemsToMapAt | ops/services.py:59-60 | with distinct keys, each key maps to its item's slots |
| Services.ShipDisplay.constructor | ops/services.py:46-51 | a ship object starts with its slots and no grouping |
| Services.PrepareShipForDisplay | ops/services.py:46-61 | `grouped_slots` is the grouping of the ship's slots and `slots_by_role` holds exactly the same items; the same ship object is returned |
| Services.ShipsIn | ops/services.py:70-71 | a category bucket holds only ships of that category, from the input |
| Services.BucketedStep | ops/services.py:70-71 | appending a ship to its category's bucket keeps every bucket exact |
| Services.GroupShipsByCategory | ops/services.py:64-77 | the loop and comprehension yield the specified category groups |
| Services.BucketShips | ops/services.py:67-71 | after the first loop every declared code has a bucket, each bucket holds exactly the ships of its code in input order, and a code without a bucket has no ships |
| Services.CategoryGroupsFollowChoices | ops/services.py:73-77 | each group is (label, the ships of that code in input order) and is never empty |
| Services.SourcesInDeclaredOrder | ops/services.py:67-77 | groups follow the declared category order |
| Services.SourcesCoverNonEmpty | ops/services.py:73-77 | every declared category that has ships has a group; only empty ones are skipped |
| Services.CategoryGroupsOnlyDeclared | ops/services.py:73-76 | ships of an undeclared category appear in no group |
| Services.CategoryGroupsHoldEveryDeclared | ops/services.py:70-77 | every ship of a declared category is in its category's group |
| Signals.Repeat | ops/signals.py:9-10 | `range(n)` creations give exactly n copies of the same new assignment |
| Signals.CreateSeats | ops/signals.py:9-10 | the inner loop appends exactly `slots` copies of the template's new open seat after the existing rows |
| Signals.SeedSlots | ops/signals.py:4-10 | nothing happens on an update; on creation the seeded assignments are appended, their number is the sum of the template slots, and existing rows are kept |
| Signals.SeededCount | ops/signals.py:8-10 | exactly as many assignments are created as the templates have seats |
| Signals.SeededAreOpen | ops/signals.py:10 | every created assignment belongs to the new operation ship, is open with no user, and has a template's role |
| Signals.SeededPerRole | ops/signals.py:8-10 | each role gets as many assignments as its templates have seats |
| Signals.SeedSlotsPerTemplate | ops/signals.py:8-10 | under `unique_together`, each role template of the ship gets exactly `slots` assignments (none for `slots = 0`), and other roles get none |
| SeedShips.RolesFor | ops/management/commands/seed_ships_basic.py:16-33 | a category's roles are never empty and distinct, and an unknown code gets [("Pilote", 1)] |
| SeedShips.StarterShip | ops/management/commands/seed_ships_basic.py:28 | a created starter row fits the name-keyed ship table under its own name, is filed under the starter's code, and has the valid crew range from the model's default minimum 1 up to 2, with the empty text that a `CharField` without a default takes; `HandleShipRows` shows it is exactly the row a missing starter gets |
| SeedShips.Handle | ops/management/commands/seed_ships_basic.py:26-34 | the nested loops yield the specified store |
| SeedShips.AddRolesOnEmpty | ops/management/commands/seed_ships_basic.py:32-34 | for a ship without templates, the category's roles are appended as templates |
| SeedShips.SeedOneView | ops/management/commands/seed_ships_basic.py:27-34 | one starter turn gets or creates the ship, corrects its category, and adds templates only when there are none |
| SeedShips.SeedOneFrame | ops/management/commands/seed_ships_basic.py:27-34 | one starter turn leaves every other name untouched |
| SeedShips.SeedAllView | ops/management/commands/seed_ships_basic.py:27-34 | with distinct starter names, each name is seeded once with its own code, and other names are untouched |
| SeedShips.StarterNamesDistinct | ops/management/commands/seed_ships_basic.py:4-14 | the starter names are distinct |
| SeedShips.HandleSeedsEveryStarter | ops/management/commands/seed_ships_basic.py:27-31 | afterwards every starter ship exists with its starter code, even if it had another category before |
| SeedShips.HandleShipRows | ops/management/commands/seed_ships_basic.py:28-31 | an existing ship changes only its category; a new ship is the default starter row; non-starters are untouched |
| SeedShips.HandleTemplates | ops/management/commands/seed_ships_basic.py:32-34 | a ship with templates keeps them; a starter without any gets exactly its category's roles; non-starters are untouched |
| SeedShips.HandleOnlyAppendsTemplates | ops/management/commands/seed_ships_basic.py:34 | template rows are only appended, never changed or removed |
| SeedShips.HandleKeepsShipTable | ops/models.py:6 | the ship table stays keyed by the unique name |
| SeedShips.HandleIdempotent | ops/management/commands/seed_ships_basic.py:26-34 | running the command twice gives the same state as running it once |
| GroupLabels.IndexOfName | ops/migrations/0008_update_group_labels.py:10-27 | `get(name=...)` finds the first row with that name, or reports that none exists |
| GroupLabels.NextId | ops/migrations/0008_update_group_labels.py:19 | a new row's id is above every existing id |
| GroupLabels.RenameGroups | ops/migrations/0008_update_group_labels.py:7-19 | the forward step renames "Member" in place (or fails on the unique name) and then gets or creates each group |
| GroupLabels.RevertGroupChanges | ops/migrations/0008_update_group_labels.py:22-29 | the reverse step renames "Membre" back, or does nothing |
| GroupLabels.EnsureGroupsExtends | ops/migrations/0008_update_group_labels.py:18-19 | `get_or_create` keeps every row and appends only missing listed names, after which all of them exist |
| GroupLabels.EnsureGroupsUnique | ops/migrations/0008_update_group_labels.py:18-19 | `get_or_create` keeps names and ids unique |
| GroupLabels.EnsureGroupsPresent | ops/migrations/0008_update_group_labels.py:18-19 | `get_or_create` of names that exist changes nothing |
| GroupLabels.ForwardFailsOnlyOnClash | ops/migrations/0008_update_group_labels.py:10-16 | the forward step fails exactly when both "Member" and "Membre" already exist |
| GroupLabels.ForwardOutcome | ops/migrations/0008_update_group_labels.py:4-19 | afterwards the three groups exist, "Member" keeps its id under the name "Membre", other rows are unchanged, and only listed groups are added |
| GroupLabels.ForwardIdempotent | ops/migrations/0008_update_group_labels.py:7-19 | running the forward step again changes nothing |
| GroupLabels.ForwardKeepsUnique | ops/migrations/0008_update_group_labels.py:10-19 | the forward step keeps names and ids unique |
| GroupLabels.BackwardNeverDeletes | ops/migrations/0008_update_group_labels.py:22-29 | the reverse step keeps every row and id and touches only "Membre" |
| GroupLabels.BackwardFailsOnlyOnClash | ops/migrations/0008_update_group_labels.py:24-29 | the reverse step fails exactly when both "Membre" and "Member" already exist |
| GroupLabels.BackwardOutcome | ops/migrations/0008_update_group_labels.py:22-29 | afterwards "Membre" is gone, its row keeps its id under the name "Member", other rows are unchanged, and "Member" exists iff either name existed before |
| GroupLabels.BackwardUndoesRename | ops/migrations/0008_update_group_labels.py:10-29 | without a prior "Membre", the reverse step restores every original row |
| Permissions.UserInGroups | ops/permissions.py:15-22 | false for anonymous users, true for superusers, otherwise true iff a group name of the user is listed |
| Permissions.CanManageOps | ops/permissions.py:7-28 | true iff authenticated and a superuser or in "Admin" or "SuperAdmin" |
| Permissions.CanAccessMemberHome | ops/permissions.py:31-38 | false for anonymous users, and true for every manager |
| Permissions.UserInGroupsMonotone | ops/permissions.py:15-22 | listing more groups never takes access away |
| Permissions.MemberHomeIsMemberGroups | ops/permissions.py:8-38 | the member page is open exactly to `user_in_groups(MEMBER_GROUPS)` |
| Permissions.MemberHomeByName | ops/permissions.py:8-38 | a non-superuser gets in iff in "Admin", "SuperAdmin" or "Member" |
| Permissions.AfterRelabelOnlyManagersAdmitted | ops/permissions.py:8-38 | after the relabelling migration only managers reach the member page |
| Permissions.MemberLosesAccess | ops/permissions.py:8-38 | a member of "Member" is admitted before the relabelling and refused after it |
| Permissions.CanAccessMemberHomeRelabelled | ops/permissions.py:31-38 | with "Membre" as member group, a non-superuser gets in iff in "Admin", "SuperAdmin" or "Membre" |
| Permissions.RelabelledKeepsAccess | ops/permissions.py:8-38 | with "Membre" as member group, whoever was admitted before the relabelling is admitted after it |
| Views.IsPlanner | ops/views.py:11-15 | true iff a superuser or in "Planner", "Administrateur" or "Planificateur" |
| Views.ManagersAreNotPlanners | ops/views.py:11-15 | none of the manager or member groups makes a non-superuser a planner |
| Views.PlannerMonotone | ops/views.py:11-15 | joining more groups keeps planner rights |
| Views.SanitizeCategory | ops/views.py:22-25 | the filter never invents a category: what survives is the requested value and a declared code, and a declared code is never dropped; `ShipsListContents` shows that an undeclared one filters nothing |
| Views.InsertSorted | ops/views.py:28-33 | inserting into a strictly ascending list keeps it strictly ascending and adds exactly the value |
| Views.AvailableTypes | ops/views.py:28-34 | the available types are strictly ascending (so distinct) and are exactly the non-empty roles of the ship table |
| Views.SanitizeType | ops/views.py:35-36 | the filter never invents a type: what survives is the requested value and a type some ship has, and an available type is never dropped; `ShipsListContents` shows that an unknown one filters nothing |
| Views.SanitizeIdempotent | ops/views.py:22-36 | sanitising a parameter twice is sanitising it once |
| Views.Filtered | ops/views.py:38-42 | a ship is kept iff it is in the table and matches each filter that is set |
| Views.InsertByName | ops/views.py:43 | inserting into a list ordered by name keeps it ordered and adds exactly that ship |
| Views.SortByName | ops/views.py:43 | the result is ordered by name and is a permutation of the input |
| Views.ShipsList | ops/views.py:22-43 | the listed ships are ordered by name and are a permutation of the filtered ships |
| Views.ShipsListContents | ops/views.py:22-43 | a ship is listed iff it matches the sanitised filters; an invalid parameter restricts nothing |
| Views.ShipsListUnfiltered | ops/views.py:38-43 | without parameters every ship is listed |
| UserAdmin.RenderMasked | ckfr_site/user_admin.py:7-9 | the widget renders eight asterisks |
| UserAdmin.RenderRevealsNothing | ckfr_site/user_admin.py:7-9 | the rendering is the same for every name and value |
| UserAdmin.ProtectSuperadmin | ckfr_site/user_admin.py:39-40 | the guard never holds back a superuser requester, never applies without a target or to an ordinary target, and always applies to a non-superuser acting on a superuser |
| UserAdmin.HasChangePermission | ckfr_site/user_admin.py:42-45 | the override only takes permission away; a superuser requester, a list page and an ordinary target all get the stock decision, and a non-superuser is always refused a superuser target |
| UserAdmin.HasDeletePermission | ckfr_site/user_admin.py:47-50 | the override only takes permission away; a superuser requester, a list page and an ordinary target all get the stock decision, and a non-superuser is always refused a superuser target |
| UserAdmin.SuperuserNeverBlocked | ckfr_site/user_admin.py:40 | a superuser requester always gets the stock decisions |
| UserAdmin.SuperuserTargetsProtected | ckfr_site/user_admin.py:39-50 | a non-superuser can never change or delete a superuser, and other targets get the stock decisions |
| UserAdmin.NoTargetNoGuard | ckfr_site/user_admin.py:40 | without a target object the stock decisions apply |
| UserAdmin.GetActions | ckfr_site/user_admin.py:52-56 | only "delete_selected" is removed, and only for non-superusers; other actions are unchanged |
| Sessions.Survivors | ckfr_site/session_management.py:20-27 | a session remains iff it is expired, is the current session, or belongs to another user |
| Sessions.TerminatePreviousSessions | ckfr_site/session_management.py:11-27 | with no session key nothing changes; otherwise the loop leaves exactly the specified survivors |
| Sessions.SurvivorsPromise | ckfr_site/session_management.py:15-27 | the current session, other users' sessions and expired sessions are kept; the user has no other unexpired session left |
| Sessions.SurvivorsConcat | ckfr_site/session_management.py:24-27 | deletion preserves the order of the remaining rows |
| Sessions.SurvivorsIdempotent | ckfr_site/session_management.py:11-27 | a second run of the receiver with the same session deletes nothing more |

## Left out

- Database mechanics are not modelled: transactions, the atomicity of `update_or_create` and `get_or_create`, concurrent requests, and integrity errors other than the duplicate group name in the relabelling migration.
- `ships_with_slots` (ops/services.py:15-23) is not modelled: its prefetch and its ordering of slots by role and index. The slots are taken in the order given.
- The edit forms attached to slots are reduced to a flag. Their user query set is not modelled.
- Rendering, messages, redirects and form handling in the views are not modelled. This covers `ships_allocation`, `ship_detail` and `role_slot_update`, including the open-redirect check.
- `is_planner` reads no authentication flag, exactly as in the source. The views that use it require a login.
- `order_by` is modelled as code-point string order. A database collation may order differently.
- `Ship.CATEGORY_CHOICES` is taken as a parameter: an ordered list of (code, label) pairs with distinct codes. The shown ops/models.py is older than the code that uses it and lacks that field, as well as `Ship.category`, `role`, `manufacturer` and `cargo_capacity` and the `RoleSlot` record. The model gives `Ship` these fields and defines `RoleSlot` from its use in ops/services.py.
- The external catalog `ops.data.ships_catalog` is not part of this model. Its entries are an arbitrary input sequence whose name key is always present.
- `Text.ParseInt` accepts an optional `+` or `-` sign followed by ASCII digits only. Python's `int()` also accepts surrounding whitespace, underscores between digits and non-ASCII digits. The parser is only ever given text with the whitespace already removed.
- `Text.ToLower` lowers ASCII letters only. Every keyword of the classifier is ASCII.
- Field bounds such as `PositiveSmallIntegerField` (at most 32767) and `max_length` are not modelled. Counts are unbounded natural numbers.
- `Operation.__str__` formats a date. Labels of operation ships are therefore taken as given text.
- Sessions take the decoded `_auth_user_id` and the current time as inputs. `session.get_decoded()` and `timezone.now()` are not modelled.
- `SeedShips.StarterShip` gives a created starter an empty manufacturer, role and cargo text. The command passes only the category and crew, and the shown models declare no default for these fields, so the model takes Django's implicit empty string for a `CharField` without a default. An empty role keeps such a ship out of the type filter's choices.
- The methods that delete rows (sessions) or keys (admin actions) return the new table instead of changing it in place.
- `Services.AnnotateAll` builds new `DisplaySlot` values instead of setting `form` and `badge_class` on the slot objects themselves, so the aliasing between `grouped_slots` and `slots_by_role` (both hold the same annotated objects) is not modelled; the model shows both hold equal values.
- ckfr_site/user_admin.py:11-37 only configures the admin: field labels, widget wiring and registration. The stock admin's permission decision is an input.
- The seeding command reads a ship's templates through `ship.role_templates` (ops/management/commands/seed_ships_basic.py:32), while ops/models.py names the relation `roles`. The model uses "the ship's templates". The command's success message is not modelled.
- The order of `instance.ship.roles.all()` is taken to be table order.

## Findings

| source | as written | input that shows it | evidently intended | confidence | as-written member | corrected member |
|---|---|---|---|---|---|---|
| ops/permissions.py:8 | member access is granted by a group named "Member", but migration 0008 renames that group in place to "Membre" | a non-superuser whose only group is "Member" (id 1): admitted before the forward migration, refused after it | the member group follows the relabelling, so `MEMBER_GROUPS` names "Membre" | not executed; high | Permissions.MemberLosesAccess | Permissions.RelabelledKeepsAccess |
