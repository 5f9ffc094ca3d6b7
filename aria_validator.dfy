/**
 * The built-in rules as the Babel host states them (class `AriaValidator`,
 * which has no fields: every check is a function of the element and its
 * ancestors).  Each check yields the violation it finds; `CheckElement` runs
 * them in the source's order and the first violation wins.
 */
module AriaValidator {
  import opened Options
  import opened ElementTree
  import opened AriaTables
  import opened Diagnostics
  import Traversal

  /**
   * The value the attribute checks take as the element's role: the text of
   * the first `role` attribute when it is a string literal, and nothing for
   * an expression, a missing value or a missing attribute.
   */
  function LiteralRole(e: Element): (r: Option<string>)
    ensures r.None? <==> FindAttribute(e.attributes, "role").None? || !FindAttribute(e.attributes, "role").value.value.Literal?
    ensures r.Some? ==> exists i | 0 <= i < |e.attributes| ::
              e.attributes[i] == Attribute("role", Literal(r.value))
              && forall j | 0 <= j < i :: e.attributes[j].name != "role"
  {
    LiteralAttribute(e, "role")
  }

  /** `validateRole`, called only when a `role` attribute exists: a literal role must be a valid one. */
  function CheckRole(e: Element): (r: Option<Violation>)
    ensures r.Some? <==> LiteralRole(e).Some? && LiteralRole(e).value !in ValidRoles
    ensures r.Some? ==> r.value == InvalidRole(LiteralRole(e).value)
  {
    match LiteralRole(e)
    case Some(role) => if IsValidRole(role) then None else Some(InvalidRole(role))
    case None => None
  }

  /** An `aria-*` attribute the role does not allow. */
  predicate Disallowed(a: Attribute, allowed: seq<string>) {
    IsAriaName(a.name) && a.name !in allowed
  }

  /** The name of the first disallowed `aria-*` attribute, in attribute order. */
  function FirstDisallowed(attrs: seq<Attribute>, allowed: seq<string>): (r: Option<string>)
    ensures r.None? <==> forall j | 0 <= j < |attrs| :: !Disallowed(attrs[j], allowed)
    ensures r.Some? ==> exists i | 0 <= i < |attrs| :: attrs[i].name == r.value && Disallowed(attrs[i], allowed)
                          && forall j | 0 <= j < i :: !Disallowed(attrs[j], allowed)
  {
    if |attrs| == 0 then None
    else if Disallowed(attrs[0], allowed) then Some(attrs[0].name)
    else
      var r := FirstDisallowed(attrs[1..], allowed);
      assert r.Some? ==> exists i | 0 <= i < |attrs| :: attrs[i].name == r.value && Disallowed(attrs[i], allowed)
                          && forall j | 0 <= j < i :: !Disallowed(attrs[j], allowed) by {
        if r.Some? {
          var i :| 0 <= i < |attrs[1..]| && attrs[1..][i].name == r.value && Disallowed(attrs[1..][i], allowed)
                   && forall j | 0 <= j < i :: !Disallowed(attrs[1..][j], allowed);
          assert attrs[i + 1] == attrs[1..][i];
          forall j | 0 <= j < i + 1 ensures !Disallowed(attrs[j], allowed) {
            if j > 0 { assert attrs[j] == attrs[1..][j - 1]; }
          }
        }
      }
      assert r.None? ==> forall j | 0 <= j < |attrs| :: !Disallowed(attrs[j], allowed) by {
        if r.None? {
          forall j | 0 <= j < |attrs| ensures !Disallowed(attrs[j], allowed) {
            if j > 0 { assert attrs[j] == attrs[1..][j - 1]; }
          }
        }
      }
      r
  }

  /**
   * `validateAriaAttributes`: with a literal role, the first `aria-*`
   * attribute, in attribute order, that the role does not allow is reported
   * with the role's allowed list in table order.  The caller has already
   * rejected an unknown literal role, so the table is only read for valid ones.
   */
  function CheckAriaAttributes(e: Element): (r: Option<Violation>)
    requires LiteralRole(e).Some? ==> IsValidRole(LiteralRole(e).value)
    ensures r.None? <==> LiteralRole(e).None?
                         || forall j | 0 <= j < |e.attributes| :: !Disallowed(e.attributes[j], AllowedAttributes(LiteralRole(e).value))
    ensures r.Some? ==> var role := LiteralRole(e).value;
                        && r.value.DisallowedAttribute? && r.value.role == role
                        && r.value.allowed == AriaAttributesByRole[role]
                        && exists i | 0 <= i < |e.attributes| :: e.attributes[i].name == r.value.name
                             && IsAriaName(r.value.name) && r.value.name !in AriaAttributesByRole[role]
                             && forall j | 0 <= j < i :: !Disallowed(e.attributes[j], AriaAttributesByRole[role])
  {
    match LiteralRole(e)
    case None => None
    case Some(role) =>
      var allowed := AllowedAttributes(role);
      match FirstDisallowed(e.attributes, allowed)
      case None => None
      case Some(name) => Some(DisallowedAttribute(name, role, allowed))
  }

  /** `validateImgAlt`: an `img` must carry an `alt` attribute, whatever its value. */
  function CheckImgAlt(e: Element): (r: Option<Violation>)
    ensures r.Some? <==> HasTag(e, "img") && forall i | 0 <= i < |e.attributes| :: e.attributes[i].name != "alt"
    ensures r.Some? ==> r.value == MissingAlt
  {
    if HasTag(e, "img") && FindAttribute(e.attributes, "alt").None? then Some(MissingAlt) else None
  }

  /** The level of the innermost heading among `ancestors` (outermost first), as `findParent` finds it. */
  function NearestHeadingLevel(ancestors: seq<Element>): (r: Option<nat>)
    ensures r.None? <==> forall i | 0 <= i < |ancestors| :: !IsHeading(ancestors[i])
    ensures r.Some? ==> exists i | 0 <= i < |ancestors| :: IsHeading(ancestors[i])
                          && HeadingLevel(ancestors[i].tag.value) == r.value
                          && forall j | i < j < |ancestors| :: !IsHeading(ancestors[j])
  {
    if |ancestors| == 0 then None
    else
      var last := ancestors[|ancestors| - 1];
      if IsHeading(last) then Some(HeadingLevel(last.tag.value))
      else
        var r := NearestHeadingLevel(ancestors[..|ancestors| - 1]);
        assert forall i | 0 <= i < |ancestors| - 1 :: ancestors[..|ancestors| - 1][i] == ancestors[i];
        r
  }

  /**
   * `validateHeadingStructure`: a heading at level L whose nearest heading
   * ancestor is at level P fails exactly when L - P > 1.
   */
  function CheckHeading(e: Element, ancestors: seq<Element>): (r: Option<Violation>)
    ensures r.Some? <==> IsHeading(e) && NearestHeadingLevel(ancestors).Some?
                         && HeadingLevel(e.tag.value) - NearestHeadingLevel(ancestors).value > 1
    ensures r.Some? ==> r.value == HeadingSkip(HeadingLevel(e.tag.value), NearestHeadingLevel(ancestors).value)
                        && r.value.parentLevel + 1 < r.value.level <= 6
  {
    if !IsHeading(e) then None
    else
      var level := HeadingLevel(e.tag.value);
      match NearestHeadingLevel(ancestors)
      case None => None
      case Some(parentLevel) => if level - parentLevel > 1 then Some(HeadingSkip(level, parentLevel)) else None
  }

  /** `validateJSXElement`: role, then `aria-*` attributes, then img alt, then heading structure. */
  function CheckElement(e: Element, ancestors: seq<Element>): (r: Option<Violation>)
    ensures r.None? <==> CheckRole(e).None? && CheckAriaAttributes(e).None? && CheckImgAlt(e).None?
                         && CheckHeading(e, ancestors).None?
    ensures CheckRole(e).Some? ==> r == CheckRole(e)
    ensures CheckRole(e).None? && CheckAriaAttributes(e).Some? ==> r == CheckAriaAttributes(e)
    ensures CheckRole(e).None? && CheckAriaAttributes(e).None? && CheckImgAlt(e).Some? ==> r == CheckImgAlt(e)
    ensures CheckRole(e).None? && CheckAriaAttributes(e).None? && CheckImgAlt(e).None? ==> r == CheckHeading(e, ancestors)
  {
    match CheckRole(e)
    case Some(v) => Some(v)
    case None =>
      match CheckAriaAttributes(e)
      case Some(v) => Some(v)
      case None =>
        match CheckImgAlt(e)
        case Some(v) => Some(v)
        case None => CheckHeading(e, ancestors)
  }

  /**
   * One pass of the Babel plugin over a tree: nothing when every element
   * passes `CheckElement`, otherwise the first failing element in pre-order.
   */
  function Validate(root: Element): (r: Option<Diagnostic>)
    ensures r.None? <==> Traversal.AllPass(root, [], CheckElement)
    ensures r.Some? ==> Traversal.Reports(root, [], CheckElement, r.value)
                        && Traversal.PassesBefore(root, [], CheckElement, r.value.at)
  {
    Traversal.FirstViolationWins(root, CheckElement);
    Traversal.Validate(root, CheckElement)
  }

  // ---------------------------------------------------------------------
  // Properties of the rules
  // ---------------------------------------------------------------------

  /** A role that is an expression, has no value or is absent yields neither a role nor an attribute error. */
  lemma NonLiteralRoleNeverFlagged(e: Element, ancestors: seq<Element>)
    requires FindAttribute(e.attributes, "role").None? || !FindAttribute(e.attributes, "role").value.value.Literal?
    ensures CheckElement(e, ancestors).None? || !(CheckElement(e, ancestors).value.InvalidRole? || CheckElement(e, ancestors).value.DisallowedAttribute?)
  {
  }

  /** The role error is reported exactly for a literal role outside the role list, before any other check. */
  lemma InvalidRoleIff(e: Element, ancestors: seq<Element>, role: string)
    ensures CheckElement(e, ancestors) == Some(InvalidRole(role)) <==> LiteralRole(e) == Some(role) && role !in ValidRoles
  {
  }

  /**
   * The attribute error is reported exactly for a valid literal role and the
   * first `aria-*` attribute that role does not allow; the message lists the
   * role's allowed names in table order.
   */
  lemma DisallowedAttributeIff(e: Element, ancestors: seq<Element>, name: string, role: string, allowed: seq<string>)
    ensures CheckElement(e, ancestors) == Some(DisallowedAttribute(name, role, allowed)) <==>
              && LiteralRole(e) == Some(role) && IsValidRole(role) && allowed == AriaAttributesByRole[role]
              && FirstDisallowed(e.attributes, allowed) == Some(name)
  {
  }

  /** An allowed `aria-*` attribute never triggers the attribute error, wherever it stands. */
  lemma AllowedAttributesPass(e: Element, ancestors: seq<Element>, role: string)
    requires LiteralRole(e) == Some(role) && IsValidRole(role)
    requires forall j | 0 <= j < |e.attributes| :: IsAriaName(e.attributes[j].name) ==> e.attributes[j].name in AllowedAttributes(role)
    ensures CheckElement(e, ancestors).None? || !CheckElement(e, ancestors).value.DisallowedAttribute?
  {
  }

  /** An element without a literal role is never checked against the table, whatever its `aria-*` attributes. */
  lemma NoRoleNoAttributeCheck(e: Element)
    requires LiteralRole(e).None?
    ensures CheckAriaAttributes(e).None?
  {
  }

  /** Past the role checks, an `img` fails exactly when it has no `alt`; any `alt` value passes. */
  lemma ImgAltIff(e: Element, ancestors: seq<Element>)
    requires CheckRole(e).None? && CheckAriaAttributes(e).None?
    ensures CheckElement(e, ancestors) == Some(MissingAlt) <==>
              HasTag(e, "img") && forall i | 0 <= i < |e.attributes| :: e.attributes[i].name != "alt"
  {
  }

  /** Only the innermost heading ancestor counts: headings farther out never change the outcome. */
  lemma {:induction false} NearestHeadingOnly(outer: seq<Element>, h: Element, inner: seq<Element>)
    requires IsHeading(h)
    requires forall i | 0 <= i < |inner| :: !IsHeading(inner[i])
    ensures NearestHeadingLevel(outer + [h] + inner) == Some(HeadingLevel(h.tag.value))
    decreases |inner|
  {
    var s := outer + [h] + inner;
    if |inner| > 0 {
      var shorter := inner[..|inner| - 1];
      assert s[..|s| - 1] == outer + [h] + shorter;
      NearestHeadingOnly(outer, h, shorter);
    }
  }

  /** A heading with no heading ancestor always passes the heading check. */
  lemma TopLevelHeadingPasses(e: Element, ancestors: seq<Element>)
    requires forall i | 0 <= i < |ancestors| :: !IsHeading(ancestors[i])
    ensures CheckHeading(e, ancestors).None?
  {
  }

  /** Only the two-character tags `h1` to `h6` are headings. */
  lemma HeadingTags()
    ensures forall t :: IsHeadingTag(t) <==> t in ["h1", "h2", "h3", "h4", "h5", "h6"]
    ensures HeadingLevel("h3") == 3
    ensures !IsHeadingTag("h0") && !IsHeadingTag("h7") && !IsHeadingTag("h10") && !IsHeadingTag("H1")
  {
    forall t | IsHeadingTag(t) ensures t in ["h1", "h2", "h3", "h4", "h5", "h6"] {
      assert t == ['h', t[1]];
    }
  }
}
