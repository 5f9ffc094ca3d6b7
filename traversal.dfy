/**
 * The driving walk shared by every rule set: a depth-first pre-order walk of
 * the element tree that runs a per-element check with the stack of ancestors
 * and stops at the first violation.  Both hosts walk this way (Babel's
 * `JSXElement` visitor and the TypeScript `visitEachChild` visitor validate a
 * node on entry, before its children, and a thrown error ends the pass).
 */
module Traversal {
  import opened Options
  import opened ElementTree
  import opened Diagnostics

  /** A rule set: given an element and its ancestors (outermost first), the violation it finds, if any. */
  type Check = (Element, seq<Element>) -> Option<Violation>

  /** Check `e`; if it passes, walk its children left to right. */
  function ValidateNode(e: Element, ancestors: seq<Element>, check: Check): Option<Diagnostic>
    decreases e, 1
  {
    match check(e, ancestors)
    case Some(v) => Some(Diagnostic(v, []))
    case None => ValidateChildren(e, 0, ancestors + [e], check)
  }

  /** Walk `parent`'s children from index `i` on; `ancestors` already ends with `parent`. */
  function ValidateChildren(parent: Element, i: nat, ancestors: seq<Element>, check: Check): Option<Diagnostic>
    requires i <= |parent.children|
    decreases parent, 0, |parent.children| - i
  {
    if i == |parent.children| then None
    else
      match ValidateNode(parent.children[i], ancestors, check)
      case Some(d) => Some(Diagnostic(d.violation, [i] + d.at))
      case None => ValidateChildren(parent, i + 1, ancestors, check)
  }

  /** One validation pass over the tree rooted at `root`. */
  function Validate(root: Element, check: Check): Option<Diagnostic>
  {
    ValidateNode(root, [], check)
  }

  /** The check passes at the element at path `p` below `e`, whose own ancestors are `ancestors`. */
  predicate PassesAt(e: Element, ancestors: seq<Element>, check: Check, p: seq<nat>)
    requires ElementAt(e, p).Some?
  {
    check(ElementAt(e, p).value, ancestors + AncestorsAt(e, p)).None?
  }

  /** The check passes at every element of the subtree. */
  ghost predicate AllPass(e: Element, ancestors: seq<Element>, check: Check)
  {
    forall p: seq<nat> | ElementAt(e, p).Some? :: PassesAt(e, ancestors, check, p)
  }

  /** The check passes at every element visited before path `q`. */
  ghost predicate PassesBefore(e: Element, ancestors: seq<Element>, check: Check, q: seq<nat>)
  {
    forall p: seq<nat> | ElementAt(e, p).Some? && Before(p, q) :: PassesAt(e, ancestors, check, p)
  }

  /** `d` names an element of the subtree, and the check fails there with `d`'s violation. */
  predicate Reports(e: Element, ancestors: seq<Element>, check: Check, d: Diagnostic)
  {
    ElementAt(e, d.at).Some? && check(ElementAt(e, d.at).value, ancestors + AncestorsAt(e, d.at)) == Some(d.violation)
  }

  /** A subtree passes everywhere exactly when its root passes and every child subtree passes. */
  lemma {:induction false} AllPassSplit(e: Element, ancestors: seq<Element>, check: Check)
    ensures AllPass(e, ancestors, check) <==>
            check(e, ancestors).None? && forall j | 0 <= j < |e.children| :: AllPass(e.children[j], ancestors + [e], check)
  {
    var root: seq<nat> := [];
    assert ElementAt(e, root) == Some(e) && AncestorsAt(e, root) == [] && ancestors + [] == ancestors;
    if AllPass(e, ancestors, check) {
      assert PassesAt(e, ancestors, check, root);
      forall j, q: seq<nat> | 0 <= j < |e.children| && ElementAt(e.children[j], q).Some?
        ensures PassesAt(e.children[j], ancestors + [e], check, q)
      {
        PathIntoChild(e, j, q);
        var p: seq<nat> := [j] + q;
        assert PassesAt(e, ancestors, check, p);
        assert ancestors + AncestorsAt(e, p) == (ancestors + [e]) + AncestorsAt(e.children[j], q);
      }
    }
    if check(e, ancestors).None? && forall j | 0 <= j < |e.children| :: AllPass(e.children[j], ancestors + [e], check) {
      forall p: seq<nat> | ElementAt(e, p).Some? ensures PassesAt(e, ancestors, check, p) {
        if p != [] {
          PathStep(e, p);
          var j := p[0];
          assert PassesAt(e.children[j], ancestors + [e], check, p[1..]);
          assert ancestors + AncestorsAt(e, p) == (ancestors + [e]) + AncestorsAt(e.children[j], p[1..]);
        }
      }
    }
  }

  /**
   * What a walk from `e` returns: nothing when every element of the subtree
   * passes, otherwise a diagnostic for a failing element such that every
   * element visited before it passes.
   */
  lemma {:induction false} NodeOutcome(e: Element, ancestors: seq<Element>, check: Check)
    ensures ValidateNode(e, ancestors, check).None? ==> AllPass(e, ancestors, check)
    ensures ValidateNode(e, ancestors, check).Some? ==>
              Reports(e, ancestors, check, ValidateNode(e, ancestors, check).value)
              && PassesBefore(e, ancestors, check, ValidateNode(e, ancestors, check).value.at)
    decreases e, 1
  {
    var root: seq<nat> := [];
    assert ElementAt(e, root) == Some(e) && AncestorsAt(e, root) == [] && ancestors + [] == ancestors;
    match check(e, ancestors)
    case Some(v) =>
    case None =>
      ChildrenOutcome(e, 0, ancestors, check);
      var r := ValidateChildren(e, 0, ancestors + [e], check);
      if r.None? {
        AllPassSplit(e, ancestors, check);
      } else {
        var d := r.value;
        var j := d.at[0];
        var q := d.at[1..];
        PathIntoChild(e, j, q);
        assert d.at == [j] + q;
        assert ancestors + AncestorsAt(e, d.at) == (ancestors + [e]) + AncestorsAt(e.children[j], q);
        forall p: seq<nat> | ElementAt(e, p).Some? && Before(p, d.at) ensures PassesAt(e, ancestors, check, p) {
          if p != [] {
            PathStep(e, p);
            var k := p[0];
            assert ancestors + AncestorsAt(e, p) == (ancestors + [e]) + AncestorsAt(e.children[k], p[1..]);
            if k < j {
              assert AllPass(e.children[k], ancestors + [e], check);
              assert PassesAt(e.children[k], ancestors + [e], check, p[1..]);
            } else {
              assert k == j && Before(p[1..], q);
              assert PassesAt(e.children[k], ancestors + [e], check, p[1..]);
            }
          }
        }
      }
  }

  /** What a walk over `parent`'s children from index `i` returns; `ancestors` are `parent`'s own. */
  lemma {:induction false} ChildrenOutcome(parent: Element, i: nat, ancestors: seq<Element>, check: Check)
    requires i <= |parent.children|
    ensures ValidateChildren(parent, i, ancestors + [parent], check).None? ==>
              forall j | i <= j < |parent.children| :: AllPass(parent.children[j], ancestors + [parent], check)
    ensures ValidateChildren(parent, i, ancestors + [parent], check).Some? ==>
              var d := ValidateChildren(parent, i, ancestors + [parent], check).value;
              && d.at != [] && i <= d.at[0] < |parent.children|
              && Reports(parent.children[d.at[0]], ancestors + [parent], check, Diagnostic(d.violation, d.at[1..]))
              && PassesBefore(parent.children[d.at[0]], ancestors + [parent], check, d.at[1..])
              && forall j | i <= j < d.at[0] :: AllPass(parent.children[j], ancestors + [parent], check)
    decreases parent, 0, |parent.children| - i
  {
    if i < |parent.children| {
      var c := parent.children[i];
      NodeOutcome(c, ancestors + [parent], check);
      match ValidateNode(c, ancestors + [parent], check)
      case Some(d) =>
        var at: seq<nat> := [i] + d.at;
        assert at[1..] == d.at;
      case None =>
        ChildrenOutcome(parent, i + 1, ancestors, check);
    }
  }

  /**
   * One pass reports nothing exactly when the check passes at every element;
   * otherwise it reports the violation of the first failing element in
   * pre-order, by its path, with that element's ancestors as context.
   */
  lemma FirstViolationWins(root: Element, check: Check)
    ensures Validate(root, check).None? <==> AllPass(root, [], check)
    ensures Validate(root, check).Some? ==>
              Reports(root, [], check, Validate(root, check).value)
              && PassesBefore(root, [], check, Validate(root, check).value.at)
  {
    NodeOutcome(root, [], check);
    if Validate(root, check).Some? {
      var d := Validate(root, check).value;
      assert !PassesAt(root, [], check, d.at);
    }
  }

  /**
   * Two rule sets that agree on every element in `scope` give the same pass
   * over a subtree whose elements all lie in `scope`.
   */
  lemma {:induction false} ChecksAgree(e: Element, ancestors: seq<Element>, c1: Check, c2: Check, scope: Element -> bool)
    requires forall x, a :: scope(x) ==> c1(x, a) == c2(x, a)
    requires EveryElement(e, scope)
    ensures ValidateNode(e, ancestors, c1) == ValidateNode(e, ancestors, c2)
    decreases e, 1
  {
    if c1(e, ancestors).None? {
      ChildrenAgree(e, 0, ancestors + [e], c1, c2, scope);
    }
  }

  lemma {:induction false} ChildrenAgree(parent: Element, i: nat, ancestors: seq<Element>, c1: Check, c2: Check, scope: Element -> bool)
    requires i <= |parent.children|
    requires forall x, a :: scope(x) ==> c1(x, a) == c2(x, a)
    requires EveryElement(parent, scope)
    ensures ValidateChildren(parent, i, ancestors, c1) == ValidateChildren(parent, i, ancestors, c2)
    decreases parent, 0, |parent.children| - i
  {
    if i < |parent.children| {
      ChecksAgree(parent.children[i], ancestors, c1, c2, scope);
      ChildrenAgree(parent, i + 1, ancestors, c1, c2, scope);
    }
  }
}
