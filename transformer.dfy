/**
 * The same rules as the TypeScript compiler transformer states them: the
 * attribute check and the heading check are loops (an early-exit `for` over
 * the `aria-*` attributes, a `while (parent)` walk up the ancestors), and the
 * visitor validates a node before visiting its children.  Each method is
 * proved to compute what the corresponding `AriaValidator` function states, so
 * both hosts enforce one rule set.
 */
module Transformer {
  import opened Options
  import opened ElementTree
  import opened AriaTables
  import opened Diagnostics
  import AriaValidator
  import Traversal

  /** The `filter` in front of the attribute loop: the `aria-*` attributes, in order. */
  function AriaAttributes(attrs: seq<Attribute>): (r: seq<Attribute>)
    ensures forall a | a in r :: IsAriaName(a.name) && a in attrs
    ensures forall a | a in attrs && IsAriaName(a.name) :: a in r
  {
    if |attrs| == 0 then []
    else (if IsAriaName(attrs[0].name) then [attrs[0]] else []) + AriaAttributes(attrs[1..])
  }

  /** Filtering out the non-`aria-*` attributes keeps the first disallowed one. */
  lemma {:induction false} FilterKeepsFirstDisallowed(attrs: seq<Attribute>, allowed: seq<string>)
    ensures AriaValidator.FirstDisallowed(AriaAttributes(attrs), allowed) == AriaValidator.FirstDisallowed(attrs, allowed)
  {
    if |attrs| > 0 {
      var rest := attrs[1..];
      FilterKeepsFirstDisallowed(rest, allowed);
      if IsAriaName(attrs[0].name) {
        var r := AriaAttributes(attrs);
        assert r == [attrs[0]] + AriaAttributes(rest);
        assert r[0] == attrs[0] && r[1..] == AriaAttributes(rest);
        if !AriaValidator.Disallowed(attrs[0], allowed) {
          calc {
            AriaValidator.FirstDisallowed(r, allowed);
            AriaValidator.FirstDisallowed(r[1..], allowed);
            AriaValidator.FirstDisallowed(rest, allowed);
            AriaValidator.FirstDisallowed(attrs, allowed);
          }
        }
      } else {
        assert AriaAttributes(attrs) == AriaAttributes(rest);
        assert !AriaValidator.Disallowed(attrs[0], allowed);
      }
    }
  }

  /**
   * `validateAriaAttributes(element, roleAttr)`: the loop over the `aria-*`
   * attributes stops at the first one a literal role does not allow.
   */
  method ValidateAriaAttributes(e: Element, roleAttr: Option<Attribute>) returns (v: Option<Violation>)
    requires roleAttr == FindAttribute(e.attributes, "role")
    requires AriaValidator.LiteralRole(e).Some? ==> IsValidRole(AriaValidator.LiteralRole(e).value)
    ensures v == AriaValidator.CheckAriaAttributes(e)
  {
    var role: Option<string> := None;
    if roleAttr.Some? && roleAttr.value.value.Literal? {
      role := Some(roleAttr.value.value.text);
    }
    var ariaAttributes := AriaAttributes(e.attributes);
    FilterKeepsFirstDisallowed(e.attributes, if role.Some? then AllowedAttributes(role.value) else []);
    for i := 0 to |ariaAttributes|
      invariant role.Some? ==> AriaValidator.FirstDisallowed(ariaAttributes[i..], AllowedAttributes(role.value))
                               == AriaValidator.FirstDisallowed(ariaAttributes, AllowedAttributes(role.value))
    {
      var name := ariaAttributes[i].name;
      if role.Some? && name !in AllowedAttributes(role.value) {
        return Some(DisallowedAttribute(name, role.value, AllowedAttributes(role.value)));
      }
      assert ariaAttributes[i..][1..] == ariaAttributes[i + 1..];
    }
    return None;
  }

  /**
   * `validateHeadingStructure`: walk up from the innermost ancestor, stop
   * (`break`) at the first heading, and fail when the level jumps by more
   * than one.
   */
  method ValidateHeadingStructure(e: Element, ancestors: seq<Element>) returns (v: Option<Violation>)
    ensures v == AriaValidator.CheckHeading(e, ancestors)
  {
    v := None;
    if e.tag.Some? && IsHeadingTag(e.tag.value) {
      var level: int := HeadingLevel(e.tag.value);
      var k := |ancestors|;
      while k > 0
        invariant 0 <= k <= |ancestors|
        invariant forall j | k <= j < |ancestors| :: !IsHeading(ancestors[j])
      {
        var parent := ancestors[k - 1];
        if IsHeading(parent) {
          assert ancestors[..k - 1] + [parent] + ancestors[k..] == ancestors;
          AriaValidator.NearestHeadingOnly(ancestors[..k - 1], parent, ancestors[k..]);
          var parentLevel: int := HeadingLevel(parent.tag.value);
          if level - parentLevel > 1 {
            v := Some(HeadingSkip(level, parentLevel));
          }
          break;
        }
        k := k - 1;
      }
    }
  }

  /** `validateJsxElement`: the four checks in order; the first violation is thrown. */
  method ValidateJsxElement(e: Element, ancestors: seq<Element>) returns (v: Option<Violation>)
    ensures v == AriaValidator.CheckElement(e, ancestors)
  {
    var roleAttr := FindAttribute(e.attributes, "role");
    if roleAttr.Some? {
      v := AriaValidator.CheckRole(e);
      if v.Some? {
        return;
      }
    }
    v := ValidateAriaAttributes(e, roleAttr);
    if v.Some? {
      return;
    }
    v := AriaValidator.CheckImgAlt(e);
    if v.Some? {
      return;
    }
    v := ValidateHeadingStructure(e, ancestors);
  }

  /**
   * The visitor with every JSX element validated on entry, self-closing ones
   * included, then its children visited in order; the first violation ends
   * the walk.
   */
  method Visit(e: Element, ancestors: seq<Element>) returns (d: Option<Diagnostic>)
    ensures d == Traversal.ValidateNode(e, ancestors, AriaValidator.CheckElement)
    decreases e
  {
    var v := ValidateJsxElement(e, ancestors);
    if v.Some? {
      return Some(Diagnostic(v.value, []));
    }
    var i := 0;
    while i < |e.children|
      invariant 0 <= i <= |e.children|
      invariant Traversal.ValidateChildren(e, i, ancestors + [e], AriaValidator.CheckElement)
                == Traversal.ValidateNode(e, ancestors, AriaValidator.CheckElement)
    {
      var c := Visit(e.children[i], ancestors + [e]);
      if c.Some? {
        return Some(Diagnostic(c.value.violation, [i] + c.value.at));
      }
      i := i + 1;
    }
    return None;
  }

  /** A pass of the transformer over a tree gives exactly the Babel plugin's result. */
  method Transform(root: Element) returns (d: Option<Diagnostic>)
    ensures d == AriaValidator.Validate(root)
  {
    d := Visit(root, []);
  }

  /** The check the visitor as written applies: `ts.isJsxElement` is false for a self-closing element. */
  function AsWrittenCheck(e: Element, ancestors: seq<Element>): (r: Option<Violation>)
    ensures e.selfClosing ==> r.None?
    ensures !e.selfClosing ==> r == AriaValidator.CheckElement(e, ancestors)
  {
    if e.selfClosing then None else AriaValidator.CheckElement(e, ancestors)
  }

  predicate NotSelfClosing(e: Element) {
    !e.selfClosing
  }

  /** The transformer's pass as written, skipping every self-closing element. */
  function TransformAsWritten(root: Element): (r: Option<Diagnostic>)
    ensures EveryElement(root, NotSelfClosing) ==> r == AriaValidator.Validate(root)
  {
    if EveryElement(root, NotSelfClosing) then
      Traversal.ChecksAgree(root, [], AsWrittenCheck, AriaValidator.CheckElement, NotSelfClosing);
      Traversal.Validate(root, AsWrittenCheck)
    else
      Traversal.Validate(root, AsWrittenCheck)
  }

  /** `<img src="logo.png" />`: the Babel plugin rejects it, the transformer as written lets it through. */
  lemma SelfClosingImgEscapes()
    ensures var img := Element(Some("img"), [Attribute("src", Literal("logo.png"))], [], true);
            && TransformAsWritten(img).None?
            && AriaValidator.Validate(img) == Some(Diagnostic(MissingAlt, []))
  {
    var img := Element(Some("img"), [Attribute("src", Literal("logo.png"))], [], true);
    assert Traversal.ValidateChildren(img, 0, [img], AsWrittenCheck).None?;
    assert Traversal.ValidateChildren(img, 0, [img], AriaValidator.CheckElement).None?;
  }
}
