/**
 * The rule tables every host reads: the closed list of valid ARIA roles and,
 * for each role, the `aria-*` attribute names allowed on an element with
 * that role.  Both are constant data; the allowed lists keep the table's own
 * order, which is the order the "Allowed attributes are:" message prints.
 */
module AriaTables {

  const ValidRoles: seq<string> := [
    "alert", "button", "checkbox", "dialog", "grid", "heading", "img",
    "link", "menu", "menuitem", "progressbar", "tab", "tabpanel", "textbox"
  ]

  const AriaAttributesByRole: map<string, seq<string>> := map[
    "button" := ["aria-pressed", "aria-expanded", "aria-label", "aria-labelledby"],
    "checkbox" := ["aria-checked", "aria-label", "aria-labelledby"],
    "dialog" := ["aria-labelledby", "aria-label", "aria-modal"],
    "heading" := ["aria-level", "aria-label", "aria-labelledby"],
    "alert" := ["aria-label", "aria-labelledby"],
    "grid" := ["aria-label", "aria-labelledby"],
    "img" := ["aria-label", "aria-labelledby"],
    "link" := ["aria-label", "aria-labelledby"],
    "menu" := ["aria-label", "aria-labelledby"],
    "menuitem" := ["aria-label", "aria-labelledby"],
    "progressbar" := ["aria-label", "aria-labelledby", "aria-valuenow", "aria-valuemin", "aria-valuemax"],
    "tab" := ["aria-label", "aria-labelledby", "aria-selected"],
    "tabpanel" := ["aria-label", "aria-labelledby"],
    "textbox" := ["aria-label", "aria-labelledby", "aria-placeholder"]
  ]

  predicate IsValidRole(role: string) {
    role in ValidRoles
  }

  /** `name.startsWith("aria-")`. */
  predicate IsAriaName(name: string) {
    |name| >= 5 && name[..5] == "aria-"
  }

  /** The allowed list of a valid role. */
  function AllowedAttributes(role: string): (allowed: seq<string>)
    requires IsValidRole(role)
    ensures role in AriaAttributesByRole && allowed == AriaAttributesByRole[role]
  {
    TableCoversRoles();
    AriaAttributesByRole[role]
  }

  /** Strict lexicographic order on strings, comparing characters by code point. */
  predicate StringLess(a: string, b: string)
    decreases |a|
  {
    if a == [] then b != []
    else if b == [] then false
    else a[0] < b[0] || (a[0] == b[0] && StringLess(a[1..], b[1..]))
  }

  lemma {:induction false} StringLessTransitive(a: string, b: string, c: string)
    requires StringLess(a, b) && StringLess(b, c)
    ensures StringLess(a, c)
    decreases |a|
  {
    if a != [] && a[0] == b[0] && b[0] == c[0] {
      StringLessTransitive(a[1..], b[1..], c[1..]);
    }
  }

  lemma {:induction false} StringLessIrreflexive(a: string)
    ensures !StringLess(a, a)
    decreases |a|
  {
    if a != [] {
      StringLessIrreflexive(a[1..]);
    }
  }

  /** The roles are listed in ascending order, so the "Valid roles are:" list is sorted and free of repeats. */
  lemma ValidRolesSorted()
    ensures |ValidRoles| == 14
    ensures forall i, j | 0 <= i < j < |ValidRoles| :: StringLess(ValidRoles[i], ValidRoles[j])
    ensures forall i, j | 0 <= i < j < |ValidRoles| :: ValidRoles[i] != ValidRoles[j]
  {
    var v := ValidRoles;
    assert forall k | 0 <= k < |v| - 1 :: StringLess(v[k], v[k + 1]) by {
      assert StringLess(v[0], v[1]) && StringLess(v[1], v[2]) && StringLess(v[2], v[3]);
      assert StringLess(v[3], v[4]) && StringLess(v[4], v[5]) && StringLess(v[5], v[6]);
      assert StringLess(v[6], v[7]) && StringLess(v[7], v[8]) && StringLess(v[8], v[9]);
      assert StringLess(v[9], v[10]) && StringLess(v[10], v[11]) && StringLess(v[11], v[12]);
      assert StringLess(v[12], v[13]);
    }
    forall i, j | 0 <= i < j < |v|
      ensures StringLess(v[i], v[j])
    {
      AdjacentToAll(v, i, j);
    }
    forall i, j | 0 <= i < j < |v|
      ensures v[i] != v[j]
    {
      AdjacentToAll(v, i, j);
      StringLessIrreflexive(v[i]);
    }
  }

  lemma {:induction false} AdjacentToAll(v: seq<string>, i: nat, j: nat)
    requires forall k | 0 <= k < |v| - 1 :: StringLess(v[k], v[k + 1])
    requires i < j < |v|
    ensures StringLess(v[i], v[j])
    decreases j - i
  {
    if j > i + 1 {
      AdjacentToAll(v, i + 1, j);
      StringLessTransitive(v[i], v[i + 1], v[j]);
    }
  }

  /** Every valid role has exactly one entry in the table and the table has no other entries. */
  lemma TableCoversRoles()
    ensures AriaAttributesByRole.Keys == set r | r in ValidRoles
  {
  }

  /** Every allowed name is an `aria-*` name. */
  lemma AllowedNamesAreAria()
    ensures forall r, n | r in AriaAttributesByRole && n in AriaAttributesByRole[r] :: IsAriaName(n)
  {
  }

  /** Every role allows `aria-label` and `aria-labelledby`. */
  lemma LabellingAllowedEverywhere()
    ensures forall r | IsValidRole(r) :: "aria-label" in AllowedAttributes(r) && "aria-labelledby" in AllowedAttributes(r)
  {
  }

  /** The roles, among the valid ones, that allow `name`. */
  function RolesAllowing(name: string): (roles: set<string>)
    ensures forall r :: r in roles <==> IsValidRole(r) && name in AllowedAttributes(r)
  {
    set r | r in ValidRoles && name in AllowedAttributes(r)
  }

  /** `name` is allowed by `role` and by no other valid role. */
  lemma {:induction false} OnlyRoleAllowing(name: string, role: string)
    requires IsValidRole(role) && name in AllowedAttributes(role)
    requires forall k | 0 <= k < |ValidRoles| && ValidRoles[k] != role :: name !in AriaAttributesByRole[ValidRoles[k]]
    ensures RolesAllowing(name) == {role}
  {
    forall r | r in RolesAllowing(name) ensures r == role {
      var k :| 0 <= k < |ValidRoles| && ValidRoles[k] == r;
    }
  }

  /** `aria-pressed` and `aria-expanded` are allowed only on the `button` role. */
  lemma ButtonOnlyStates()
    ensures RolesAllowing("aria-pressed") == {"button"}
    ensures RolesAllowing("aria-expanded") == {"button"}
  {
    OnlyRoleAllowing("aria-pressed", "button");
    OnlyRoleAllowing("aria-expanded", "button");
  }

  /** `aria-checked` is allowed only on the `checkbox` role. */
  lemma CheckedOnlyCheckbox()
    ensures RolesAllowing("aria-checked") == {"checkbox"}
  {
    OnlyRoleAllowing("aria-checked", "checkbox");
  }

  /** `aria-modal` is allowed only on the `dialog` role. */
  lemma ModalOnlyDialog()
    ensures RolesAllowing("aria-modal") == {"dialog"}
  {
    OnlyRoleAllowing("aria-modal", "dialog");
  }

  /** `aria-selected` is allowed only on the `tab` role. */
  lemma SelectedOnlyTab()
    ensures RolesAllowing("aria-selected") == {"tab"}
  {
    OnlyRoleAllowing("aria-selected", "tab");
  }

  /** The value-range attributes are allowed only on the `progressbar` role. */
  lemma ValueRangeOnlyProgressbar()
    ensures RolesAllowing("aria-valuenow") == {"progressbar"}
    ensures RolesAllowing("aria-valuemin") == {"progressbar"}
    ensures RolesAllowing("aria-valuemax") == {"progressbar"}
  {
    OnlyRoleAllowing("aria-valuenow", "progressbar");
    OnlyRoleAllowing("aria-valuemin", "progressbar");
    OnlyRoleAllowing("aria-valuemax", "progressbar");
  }
}
