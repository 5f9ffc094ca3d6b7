/**
 * Whole-tree examples: the unit tests' two cases and the end-to-end cases the
 * rules are meant to decide, each stated as a lemma about the model.
 */
module Scenarios {
  import opened Options
  import opened ElementTree
  import opened Diagnostics
  import AriaTables
  import AriaValidator
  import Traversal
  import CustomValidator

  /** An element written with an opening and a closing tag, `<tag ...>children</tag>`. */
  function Node(tag: string, attributes: seq<Attribute>, children: seq<Element>): Element {
    Element(Some(tag), attributes, children, false)
  }

  function Lit(name: string, value: string): Attribute {
    Attribute(name, Literal(value))
  }

  /** `<div role="button">` validates, and `<div role="invalid-role">` is rejected with that role quoted. */
  lemma RoleTestCases()
    ensures AriaValidator.Validate(Node("div", [Lit("role", "button")], [])).None?
    ensures AriaValidator.Validate(Node("div", [Lit("role", "invalid-role")], []))
            == Some(Diagnostic(InvalidRole("invalid-role"), []))
  {
    var ok := Node("div", [Lit("role", "button")], []);
    assert Traversal.ValidateChildren(ok, 0, [ok], AriaValidator.CheckElement).None?;
  }

  /** `<button role="button" aria-pressed="true">` validates. */
  lemma ButtonPressedAllowed()
    ensures AriaValidator.Validate(Node("button", [Lit("role", "button"), Lit("aria-pressed", "true")], [])).None?
  {
    var ok := Node("button", [Lit("role", "button"), Lit("aria-pressed", "true")], []);
    assert AriaValidator.CheckElement(ok, []).None?;
    assert Traversal.ValidateChildren(ok, 0, [ok], AriaValidator.CheckElement).None?;
  }

  /** `aria-checked` on a button is rejected, and the diagnostic lists what a button allows. */
  lemma ButtonCheckedRejected()
    ensures AriaValidator.Validate(Node("button", [Lit("role", "button"), Lit("aria-checked", "true")], []))
            == Some(Diagnostic(DisallowedAttribute("aria-checked", "button",
                 ["aria-pressed", "aria-expanded", "aria-label", "aria-labelledby"]), []))
  {
    var bad := Node("button", [Lit("role", "button"), Lit("aria-checked", "true")], []);
    var allowed := ["aria-pressed", "aria-expanded", "aria-label", "aria-labelledby"];
    assert AriaValidator.LiteralRole(bad) == Some("button");
    assert AriaValidator.CheckRole(bad).None?;
    assert AriaTables.AllowedAttributes("button") == allowed;
    assert !AriaValidator.Disallowed(bad.attributes[0], allowed);
    assert AriaValidator.Disallowed(bad.attributes[1], allowed);
    assert AriaValidator.FirstDisallowed(bad.attributes[1..], allowed) == Some("aria-checked");
    assert AriaValidator.FirstDisallowed(bad.attributes, allowed) == Some("aria-checked");
    assert AriaValidator.CheckAriaAttributes(bad) == Some(DisallowedAttribute("aria-checked", "button",
                 ["aria-pressed", "aria-expanded", "aria-label", "aria-labelledby"]));
  }

  /** `<h1><h3/></h1>` is rejected at the `h3`, and the message names the missing `h2`. */
  lemma HeadingSkipReported()
    ensures AriaValidator.Validate(Node("h1", [], [Node("h3", [], [])])) == Some(Diagnostic(HeadingSkip(3, 1), [0]))
  {
    var h3 := Node("h3", [], []);
    var bad := Node("h1", [], [h3]);
    assert AriaValidator.CheckElement(h3, [bad]) == Some(HeadingSkip(3, 1));
    assert Traversal.ValidateNode(h3, [bad], AriaValidator.CheckElement) == Some(Diagnostic(HeadingSkip(3, 1), []));
    var at: seq<nat> := [0];
    assert at + [] == at;
    assert Traversal.ValidateChildren(bad, 0, [bad], AriaValidator.CheckElement) == Some(Diagnostic(HeadingSkip(3, 1), at));
  }

  /** An element with no attributes that is not an `img` is judged by the heading rule alone. */
  lemma BareElementChecks(e: Element, ancestors: seq<Element>)
    requires e.attributes == [] && !HasTag(e, "img")
    ensures AriaValidator.CheckElement(e, ancestors) == AriaValidator.CheckHeading(e, ancestors)
  {
    assert AriaValidator.LiteralRole(e).None?;
  }

  /** `<h1><h2><h3/></h2></h1>` validates. */
  lemma HeadingChainPasses()
    ensures AriaValidator.Validate(Node("h1", [], [Node("h2", [], [Node("h3", [], [])])])).None?
  {
    var h3 := Node("h3", [], []);
    var h2 := Node("h2", [], [h3]);
    var good := Node("h1", [], [h2]);
    assert [good] + [h2] == [good, h2];
    assert Traversal.ValidateNode(h3, [good, h2], AriaValidator.CheckElement).None? by {
      BareElementChecks(h3, [good, h2]);
      assert AriaValidator.NearestHeadingLevel([good, h2]) == Some(2);
    }
    assert Traversal.ValidateNode(h2, [good], AriaValidator.CheckElement).None? by {
      BareElementChecks(h2, [good]);
      assert AriaValidator.NearestHeadingLevel([good]) == Some(1);
      assert Traversal.ValidateChildren(h2, 0, [good, h2], AriaValidator.CheckElement).None?;
    }
    assert Traversal.ValidateNode(good, [], AriaValidator.CheckElement).None? by {
      BareElementChecks(good, []);
      var none: seq<Element> := [];
      assert none + [good] == [good];
      assert Traversal.ValidateChildren(good, 1, [good], AriaValidator.CheckElement).None?;
      assert Traversal.ValidateChildren(good, 0, [good], AriaValidator.CheckElement).None?;
    }
  }

  /** An outer element's violation is the one reported, even when an inner element also violates a rule. */
  lemma OuterViolationFirst()
    ensures AriaValidator.Validate(Node("div", [Lit("role", "bogus")], [Node("img", [], [])]))
            == Some(Diagnostic(InvalidRole("bogus"), []))
  {
    var root := Node("div", [Lit("role", "bogus")], [Node("img", [], [])]);
    assert AriaValidator.LiteralRole(root) == Some("bogus");
    assert AriaValidator.CheckElement(root, []) == Some(InvalidRole("bogus"));
  }

  /** Two sibling `main` elements fail the landmark rule; a single one passes. */
  lemma MainLandmarks()
    ensures var two := Node("body", [], [Node("main", [], []), Node("main", [], [])]);
            CustomValidator.ValidateMainLandmark(two) == Some(MultipleMain)
    ensures CustomValidator.ValidateMainLandmark(Node("body", [], [Node("main", [], [])])).None?
  {
    var two := Node("body", [], [Node("main", [], []), Node("main", [], [])]);
    CustomValidator.MultipleMainIff(two);
    var p: seq<nat> := [0];
    var q: seq<nat> := [1];
    assert ElementAt(two, p).Some? && ElementAt(two, q).Some?;

    var m := Node("main", [], []);
    var one := Node("body", [], [m]);
    assert CustomValidator.MainElementsFrom(m, 0) == [];
    assert CustomValidator.MainElementsFrom(one, 1) == [];
    var at: seq<nat> := [0];
    var here: seq<nat> := [];
    assert CustomValidator.FindMainElements(m) == [here];
    assert CustomValidator.UnderChild(0, [here])[0] == at + here == at;
    assert CustomValidator.UnderChild(0, [here]) == [at];
    assert CustomValidator.MainElementsFrom(one, 0) == [at];
  }

  /** A `ul` with a `div` child fails the list rule; with only `li` children it passes. */
  lemma ListChildren()
    ensures CustomValidator.ValidateListStructure(Node("ul", [], [Node("li", [], []), Node("div", [], [])]))
            == Some(InvalidListChildren)
    ensures CustomValidator.ValidateListStructure(Node("ul", [], [Node("li", [], []), Node("li", [], [])])).None?
  {
    var bad := Node("ul", [], [Node("li", [], []), Node("div", [], [])]);
    assert !HasTag(bad.children[1], "li");
  }

  /** `<input id="email">` needs a `label` with `htmlFor="email"`; adding one removes the violation. */
  lemma EmailLabel()
    ensures var input := Node("input", [Lit("type", "email"), Lit("id", "email")], []);
            && CustomValidator.ValidateFormRelationships(Node("form", [], [input]), input) == Some(MissingLabel)
            && CustomValidator.ValidateFormRelationships(
                 Node("form", [], [Node("label", [Lit("htmlFor", "email")], []), input]), input).None?
  {
    var input := Node("input", [Lit("type", "email"), Lit("id", "email")], []);
    var forEmail := Node("label", [Lit("htmlFor", "email")], []);
    var labelled := Node("form", [], [forEmail, input]);
    var p: seq<nat> := [0];
    assert ElementAt(labelled, p) == Some(forEmail);
    assert CustomValidator.IsLabelFor(forEmail, "email");
    var unlabelled := Node("form", [], [input]);
    forall p: seq<nat> | ElementAt(unlabelled, p).Some?
      ensures !CustomValidator.IsLabelFor(ElementAt(unlabelled, p).value, "email")
    {
      if p != [] {
        assert ElementAt(unlabelled, p) == ElementAt(input, p[1..]);
      }
    }
  }

  /** An `article` without a heading fails; one with an `h2` child passes. */
  lemma ArticleHeading()
    ensures var bad := Node("article", [], [Node("p", [], [])]);
            CustomValidator.ValidateSemanticStructure(bad, bad) == Some(ArticleWithoutHeading)
    ensures var good := Node("article", [], [Node("h2", [], [])]);
            CustomValidator.ValidateSemanticStructure(good, good).None?
  {
    var good := Node("article", [], [Node("h2", [], [])]);
    var p: seq<nat> := [0];
    assert ElementAt(good, p).Some? && IsHeading(ElementAt(good, p).value);
    var bad := Node("article", [], [Node("p", [], [])]);
    forall p: seq<nat> | p != [] && ElementAt(bad, p).Some?
      ensures !IsHeading(ElementAt(bad, p).value)
    {
      assert ElementAt(bad, p) == ElementAt(bad.children[0], p[1..]);
    }
  }
}
