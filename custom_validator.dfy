/**
 * The structural rules of the custom validator example (a subclass of the
 * Babel validator): one `main` landmark per tree, a heading inside every
 * `article`, only `li` children in `ul`/`ol`, a `label` for every form control
 * with a literal `id`, and the colour-contrast threshold.
 *
 * The four tree searches these rules call are placeholders in the example
 * (they return fixed values); here they are defined by what their names and
 * their callers say: all `main` elements of the tree, a heading among the
 * descendants, a direct child that is not `li`, and a `label` anywhere in the
 * tree whose literal `htmlFor` is the id.
 */
module CustomValidator {
  import opened Options
  import opened ElementTree
  import opened Diagnostics

  predicate IsMainElement(e: Element) {
    HasTag(e, "main")
  }

  predicate IsArticleElement(e: Element) {
    HasTag(e, "article")
  }

  predicate IsListElement(e: Element) {
    HasTag(e, "ul") || HasTag(e, "ol")
  }

  predicate IsFormControl(e: Element) {
    HasTag(e, "input") || HasTag(e, "select") || HasTag(e, "textarea")
  }

  /** The tag sets that `ValidateSemanticStructure` dispatches on are pairwise disjoint. */
  lemma SemanticTagsDisjoint(e: Element)
    ensures !(IsMainElement(e) && IsArticleElement(e))
    ensures !(IsMainElement(e) && IsListElement(e))
    ensures !(IsArticleElement(e) && IsListElement(e))
    ensures !(IsFormControl(e) && (IsMainElement(e) || IsArticleElement(e) || IsListElement(e)))
  {
  }

  /** Prefix every path of `paths` with the child index `i`. */
  function UnderChild(i: nat, paths: seq<seq<nat>>): (r: seq<seq<nat>>)
    ensures |r| == |paths|
    ensures forall k | 0 <= k < |r| :: r[k] == [i] + paths[k]
  {
    seq(|paths|, k requires 0 <= k < |paths| => [i] + paths[k])
  }

  /** `findMainElements`: the paths of all `main` elements of the subtree, in pre-order. */
  function FindMainElements(e: Element): (r: seq<seq<nat>>)
    ensures forall k | 0 <= k < |r| :: ElementAt(e, r[k]).Some? && IsMainElement(ElementAt(e, r[k]).value)
    decreases e, 1
  {
    var here: seq<seq<nat>> := if IsMainElement(e) then [[]] else [];
    var below := MainElementsFrom(e, 0);
    assert ElementAt(e, []) == Some(e);
    here + below
  }

  /** The paths of the `main` elements below children `i` onwards of `parent`. */
  function MainElementsFrom(parent: Element, i: nat): (r: seq<seq<nat>>)
    requires i <= |parent.children|
    ensures forall k | 0 <= k < |r| :: r[k] != [] && i <= r[k][0] < |parent.children|
              && ElementAt(parent, r[k]).Some? && IsMainElement(ElementAt(parent, r[k]).value)
    decreases parent, 0, |parent.children| - i
  {
    if i == |parent.children| then []
    else
      var child := FindMainElements(parent.children[i]);
      var mine := UnderChild(i, child);
      assert forall k | 0 <= k < |mine| :: mine[k][1..] == child[k];
      mine + MainElementsFrom(parent, i + 1)
  }

  /** Every `main` element of the subtree is listed. */
  lemma {:induction false} MainElementsComplete(e: Element, p: seq<nat>)
    requires ElementAt(e, p).Some? && IsMainElement(ElementAt(e, p).value)
    ensures p in FindMainElements(e)
    decreases e, 1
  {
    if p != [] {
      MainElementsFromComplete(e, 0, p);
    }
  }

  lemma {:induction false} MainElementsFromComplete(parent: Element, i: nat, p: seq<nat>)
    requires i <= |parent.children|
    requires p != [] && i <= p[0] && ElementAt(parent, p).Some? && IsMainElement(ElementAt(parent, p).value)
    ensures p in MainElementsFrom(parent, i)
    decreases parent, 0, |parent.children| - i
  {
    assert p[0] < |parent.children|;
    if p[0] == i {
      var child := FindMainElements(parent.children[i]);
      MainElementsComplete(parent.children[i], p[1..]);
      var k :| 0 <= k < |child| && child[k] == p[1..];
      assert UnderChild(i, child)[k] == p;
    } else {
      MainElementsFromComplete(parent, i + 1, p);
    }
  }

  /** No `main` element is listed twice. */
  lemma {:induction false} MainElementsDistinct(e: Element)
    ensures forall a, b | 0 <= a < b < |FindMainElements(e)| :: FindMainElements(e)[a] != FindMainElements(e)[b]
    decreases e, 1
  {
    MainElementsFromDistinct(e, 0);
  }

  lemma {:induction false} MainElementsFromDistinct(parent: Element, i: nat)
    requires i <= |parent.children|
    ensures forall a, b | 0 <= a < b < |MainElementsFrom(parent, i)| :: MainElementsFrom(parent, i)[a] != MainElementsFrom(parent, i)[b]
    decreases parent, 0, |parent.children| - i
  {
    if i < |parent.children| {
      var child := FindMainElements(parent.children[i]);
      var mine := UnderChild(i, child);
      var rest := MainElementsFrom(parent, i + 1);
      MainElementsDistinct(parent.children[i]);
      MainElementsFromDistinct(parent, i + 1);
      var r := mine + rest;
      forall a, b | 0 <= a < b < |r| ensures r[a] != r[b] {
        if b < |mine| {
          assert r[a][1..] == child[a] && r[b][1..] == child[b];
        } else if a < |mine| {
          assert r[a][0] == i && r[b] == rest[b - |mine|] && rest[b - |mine|][0] > i;
        } else {
          assert r[a] == rest[a - |mine|] && r[b] == rest[b - |mine|];
        }
      }
    }
  }

  /** `validateMainLandmark`: fails when the tree holds more than one `main` element. */
  function ValidateMainLandmark(root: Element): (r: Option<Violation>)
    ensures r.Some? ==> r == Some(MultipleMain)
  {
    if |FindMainElements(root)| > 1 then Some(MultipleMain) else None
  }

  /** The landmark check fails exactly when two different elements of the tree are `main`. */
  lemma MultipleMainIff(root: Element)
    ensures ValidateMainLandmark(root).Some? <==>
              exists p: seq<nat>, q: seq<nat> :: p != q && ElementAt(root, p).Some? && ElementAt(root, q).Some?
                && IsMainElement(ElementAt(root, p).value) && IsMainElement(ElementAt(root, q).value)
  {
    var r := FindMainElements(root);
    if |r| > 1 {
      MainElementsDistinct(root);
      assert r[0] != r[1];
      assert ElementAt(root, r[0]).Some? && ElementAt(root, r[1]).Some?;
    }
    if exists p: seq<nat>, q: seq<nat> :: p != q && ElementAt(root, p).Some? && ElementAt(root, q).Some?
         && IsMainElement(ElementAt(root, p).value) && IsMainElement(ElementAt(root, q).value) {
      var p: seq<nat>, q: seq<nat> :| p != q && ElementAt(root, p).Some? && ElementAt(root, q).Some?
         && IsMainElement(ElementAt(root, p).value) && IsMainElement(ElementAt(root, q).value);
      MainElementsComplete(root, p);
      MainElementsComplete(root, q);
      var i :| 0 <= i < |r| && r[i] == p;
      var j :| 0 <= j < |r| && r[j] == q;
      assert i != j;
    }
  }

  /** `hasHeadingElement`: some descendant of `e` is a heading. */
  function HasHeadingElement(e: Element): (r: bool)
    ensures r <==> exists p: seq<nat> :: p != [] && ElementAt(e, p).Some? && IsHeading(ElementAt(e, p).value)
  {
    DescendantPaths(e, IsHeading);
    exists i | 0 <= i < |e.children| :: AnyElement(e.children[i], IsHeading)
  }

  /** A search of every child's subtree is a search over the non-empty paths. */
  lemma {:induction false} DescendantPaths(e: Element, test: Element -> bool)
    ensures (exists i | 0 <= i < |e.children| :: AnyElement(e.children[i], test)) <==>
            exists p: seq<nat> :: p != [] && ElementAt(e, p).Some? && test(ElementAt(e, p).value)
  {
    if exists i | 0 <= i < |e.children| :: AnyElement(e.children[i], test) {
      var i :| 0 <= i < |e.children| && AnyElement(e.children[i], test);
      AnyElementPaths(e.children[i], test);
      var q: seq<nat> :| ElementAt(e.children[i], q).Some? && test(ElementAt(e.children[i], q).value);
      PathIntoChild(e, i, q);
      var p: seq<nat> := [i] + q;
      assert p != [] && ElementAt(e, p).Some? && test(ElementAt(e, p).value);
    } else {
      forall p: seq<nat> | p != [] && ElementAt(e, p).Some? ensures !test(ElementAt(e, p).value) {
        PathStep(e, p);
        assert !AnyElement(e.children[p[0]], test);
        AnyElementPaths(e.children[p[0]], test);
      }
    }
  }

  /** `validateArticleStructure`: an article without a heading descendant fails. */
  function ValidateArticleStructure(e: Element): (r: Option<Violation>)
    ensures r.None? ==> exists p: seq<nat> :: p != [] && ElementAt(e, p).Some? && IsHeading(ElementAt(e, p).value)
    ensures (exists p: seq<nat> :: p != [] && ElementAt(e, p).Some? && IsHeading(ElementAt(e, p).value)) ==> r.None?
    ensures r.Some? ==> r == Some(ArticleWithoutHeading)
  {
    if HasHeadingElement(e) then None else Some(ArticleWithoutHeading)
  }

  /** `hasInvalidListChildren`: some direct child is not an `li`. */
  predicate HasInvalidListChildren(e: Element) {
    exists i | 0 <= i < |e.children| :: !HasTag(e.children[i], "li")
  }

  /** `validateListStructure`: a list with any direct child other than `li` fails. */
  function ValidateListStructure(e: Element): (r: Option<Violation>)
    ensures r.None? <==> forall i | 0 <= i < |e.children| :: e.children[i].tag == Some("li")
    ensures r.Some? ==> r == Some(InvalidListChildren)
  {
    if HasInvalidListChildren(e) then Some(InvalidListChildren) else None
  }

  /** `validateSemanticStructure`: the landmark, article and list rules, by tag. */
  function ValidateSemanticStructure(root: Element, e: Element): (r: Option<Violation>)
    ensures !IsMainElement(e) && !IsArticleElement(e) && !IsListElement(e) ==> r.None?
    ensures r == Some(MultipleMain) <==> IsMainElement(e) && ValidateMainLandmark(root).Some?
    ensures r == Some(ArticleWithoutHeading) <==> IsArticleElement(e) && !HasHeadingElement(e)
    ensures r == Some(InvalidListChildren) <==> IsListElement(e) && HasInvalidListChildren(e)
    ensures r.Some? ==> r.value in {MultipleMain, ArticleWithoutHeading, InvalidListChildren}
    ensures r.None? <==> !(IsMainElement(e) && ValidateMainLandmark(root).Some?)
                         && !(IsArticleElement(e) && !HasHeadingElement(e))
                         && !(IsListElement(e) && HasInvalidListChildren(e))
  {
    var main := if IsMainElement(e) then ValidateMainLandmark(root) else None;
    if main.Some? then main
    else
      var article := if IsArticleElement(e) then ValidateArticleStructure(e) else None;
      if article.Some? then article
      else if IsListElement(e) then ValidateListStructure(e) else None
  }

  /** A `label` element whose literal `htmlFor` is `id`. */
  predicate IsLabelFor(e: Element, id: string) {
    HasTag(e, "label") && LiteralAttribute(e, "htmlFor") == Some(id)
  }

  /** `findAssociatedLabel`: some element of the tree labels `id`. */
  function FindAssociatedLabel(root: Element, id: string): (r: bool)
    ensures r <==> exists p: seq<nat> :: ElementAt(root, p).Some? && IsLabelFor(ElementAt(root, p).value, id)
  {
    var labels := (x: Element) => IsLabelFor(x, id);
    AnyElementPaths(root, labels);
    AnyElement(root, labels)
  }

  /** `validateFormControlAssociations`: a literal `id` needs a label for it; other ids are not checked. */
  function ValidateFormControlAssociations(root: Element, e: Element): (r: Option<Violation>)
    ensures LiteralAttribute(e, "id").None? ==> r.None?
    ensures LiteralAttribute(e, "id").Some? ==>
              (r.None? ==> exists p: seq<nat> :: ElementAt(root, p).Some? && IsLabelFor(ElementAt(root, p).value, LiteralAttribute(e, "id").value))
    ensures LiteralAttribute(e, "id").Some? ==>
              ((exists p: seq<nat> :: ElementAt(root, p).Some? && IsLabelFor(ElementAt(root, p).value, LiteralAttribute(e, "id").value)) ==> r.None?)
    ensures r.Some? ==> r == Some(MissingLabel)
  {
    match LiteralAttribute(e, "id")
    case Some(id) =>
      if FindAssociatedLabel(root, id) then None else Some(MissingLabel)
    case None => None
  }

  /** `validateFormRelationships`: only `input`, `select` and `textarea` are checked. */
  function ValidateFormRelationships(root: Element, e: Element): (r: Option<Violation>)
    ensures !IsFormControl(e) ==> r.None?
    ensures IsFormControl(e) ==> r == ValidateFormControlAssociations(root, e)
  {
    if IsFormControl(e) then ValidateFormControlAssociations(root, e) else None
  }

  /** The colours `extractStyles` finds in a style expression, either of which may be missing. */
  datatype ExtractedStyles = ExtractedStyles(backgroundColor: Option<string>, color: Option<string>)

  /** A colour that is present and non-empty, as the `&&` test reads it. */
  predicate Present(c: Option<string>) {
    c.Some? && c.value != ""
  }

  /**
   * `validateColorContrast`: with a style expression whose background and
   * foreground colours both resolve, a contrast ratio below 4.5 fails.  The
   * style extraction and the ratio computation are supplied by the caller.
   */
  function ValidateColorContrast(e: Element, styles: ExtractedStyles, contrastRatio: (string, string) -> real): (r: Option<Violation>)
    ensures r.Some? <==> FindAttribute(e.attributes, "style").Some? && FindAttribute(e.attributes, "style").value.value == Dynamic
                         && Present(styles.backgroundColor) && Present(styles.color)
                         && contrastRatio(styles.backgroundColor.value, styles.color.value) < 4.5
    ensures r.Some? ==> r == Some(LowContrast)
  {
    match FindAttribute(e.attributes, "style")
    case Some(Attribute(_, Dynamic)) =>
      if Present(styles.backgroundColor) && Present(styles.color)
         && contrastRatio(styles.backgroundColor.value, styles.color.value) < 4.5
      then Some(LowContrast)
      else None
    case _ => None
  }
}
