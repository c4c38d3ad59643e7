/** The customised user admin (ckfr_site/user_admin.py): the password is
    always shown masked, and a staff member who is not a superuser may
    neither change nor delete a superuser, nor bulk-delete users. */
module UserAdmin {
  import opened Wrappers
  import opened Permissions

  /** The text shown in place of the password hash. */
  const Mask: string := "********"

  /** `MaskedPasswordWidget.render`: the widget's name, value and
      attributes are ignored. */
  function RenderMasked<V>(name: string, value: Option<V>): (r: string)
    ensures |r| == 8 && forall i :: 0 <= i < |r| ==> r[i] == '*'
  {
    Mask
  }

  /** The widget shows the same text whatever the password. */
  lemma RenderRevealsNothing<V>(name1: string, value1: Option<V>, name2: string, value2: Option<V>)
    ensures RenderMasked(name1, value1) == RenderMasked(name2, value2)
  {
  }

  /** `_protect_superadmin`: a target user is given, it is a superuser, and
      the requesting user is not. A model instance is always truthy, so
      `bool(obj)` is the presence of the target. The guard never holds back
      a superuser, never applies on a list page (no target) or to an
      ordinary target, and always applies when a non-superuser acts on a
      superuser. */
  function ProtectSuperadmin(requester: User, obj: Option<User>): (r: bool)
    ensures requester.isSuperuser ==> !r
    ensures obj.None? ==> !r
    ensures obj.Some? && !obj.value.isSuperuser ==> !r
    ensures obj.Some? && obj.value.isSuperuser && !requester.isSuperuser ==> r
  {
    obj.Some? && obj.value.isSuperuser && !requester.isSuperuser
  }

  /** `has_change_permission`: refused when the guard applies, otherwise
      the decision of the stock user admin, `base`. The override only ever
      takes a permission away, and only from a non-superuser editing a
      superuser. */
  function HasChangePermission(requester: User, obj: Option<User>, base: bool): (r: bool)
    ensures r ==> base
    ensures requester.isSuperuser ==> r == base
    ensures obj.None? ==> r == base
    ensures obj.Some? && !obj.value.isSuperuser ==> r == base
    ensures obj.Some? && obj.value.isSuperuser && !requester.isSuperuser ==> !r
  {
    if ProtectSuperadmin(requester, obj) then false else base
  }

  /** `has_delete_permission`: refused when the guard applies, otherwise
      the decision of the stock user admin, `base`, with the same cases as
      `HasChangePermission`. */
  function HasDeletePermission(requester: User, obj: Option<User>, base: bool): (r: bool)
    ensures r ==> base
    ensures requester.isSuperuser ==> r == base
    ensures obj.None? ==> r == base
    ensures obj.Some? && !obj.value.isSuperuser ==> r == base
    ensures obj.Some? && obj.value.isSuperuser && !requester.isSuperuser ==> !r
  {
    if ProtectSuperadmin(requester, obj) then false else base
  }

  /** A superuser is never held back by the guard: both decisions are those
      of the stock admin. */
  lemma SuperuserNeverBlocked(requester: User, obj: Option<User>, base: bool)
    requires requester.isSuperuser
    ensures HasChangePermission(requester, obj, base) == base
    ensures HasDeletePermission(requester, obj, base) == base
  {
  }

  /** A non-superuser can neither change nor delete a superuser, whatever
      the stock admin would allow; other targets are left to the stock
      admin. */
  lemma SuperuserTargetsProtected(requester: User, target: User, base: bool)
    requires !requester.isSuperuser
    ensures target.isSuperuser ==> !HasChangePermission(requester, Some(target), base)
    ensures target.isSuperuser ==> !HasDeletePermission(requester, Some(target), base)
    ensures !target.isSuperuser ==> HasChangePermission(requester, Some(target), base) == base
    ensures !target.isSuperuser ==> HasDeletePermission(requester, Some(target), base) == base
  {
  }

  /** Without a target (the list page) the stock admin decides. */
  lemma NoTargetNoGuard(requester: User, base: bool)
    ensures HasChangePermission(requester, None, base) == base
    ensures HasDeletePermission(requester, None, base) == base
  {
  }

  /** The bulk-delete action's key. */
  const DeleteSelected: string := "delete_selected"

  /** `get_actions`: the stock actions, with the bulk-delete action removed
      for a requester who is not a superuser. */
  method GetActions<A>(actions: map<string, A>, requester: User) returns (result: map<string, A>)
    ensures DeleteSelected in result <==> DeleteSelected in actions && requester.isSuperuser
    ensures forall k :: k != DeleteSelected ==> (k in result <==> k in actions)
    ensures forall k :: k in result ==> k in actions && result[k] == actions[k]
  {
    result := actions;
    if !requester.isSuperuser && DeleteSelected in result {
      result := result - {DeleteSelected};
    }
  }
}
