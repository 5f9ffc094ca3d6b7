/**
 * The host-independent element tree that both host adapters (the Babel
 * plugin and the TypeScript transformer) feed to the rules: a tag, an
 * ordered attribute list and ordered children.  Elements are addressed by
 * paths of child indices from the root; a path is how a diagnostic refers
 * back to the offending element.
 */
module ElementTree {
  import opened Options

  /** What an attribute's value is at analysis time. */
  datatype AttrValue =
    | Literal(text: string)   // a string literal: `role="button"`
    | Dynamic                 // an expression container: `role={r}`
    | NoValue                 // no initializer at all: `<input disabled>`

  datatype Attribute = Attribute(name: string, value: AttrValue)

  /**
   * `tag` is None for a tag that is not a plain identifier (a member
   * expression such as `<Foo.Bar>` or a namespaced name); `selfClosing`
   * records `<x />`, which one host represents as a different kind of node.
   */
  datatype Element = Element(
    tag: Option<string>,
    attributes: seq<Attribute>,
    children: seq<Element>,
    selfClosing: bool)

  /** The first attribute called `name`, in attribute order. */
  function FindAttribute(attrs: seq<Attribute>, name: string): (r: Option<Attribute>)
    ensures r.None? <==> forall i | 0 <= i < |attrs| :: attrs[i].name != name
    ensures r.Some? ==> exists i | 0 <= i < |attrs| :: attrs[i] == r.value && attrs[i].name == name
                          && forall j | 0 <= j < i :: attrs[j].name != name
  {
    if |attrs| == 0 then None
    else if attrs[0].name == name then Some(attrs[0])
    else
      var r := FindAttribute(attrs[1..], name);
      assert r.Some? ==> exists i | 0 <= i < |attrs[1..]| :: attrs[1..][i] == r.value && attrs[1..][i].name == name
                          && forall j | 0 <= j < i :: attrs[1..][j].name != name;
      assert r.Some? ==> exists i | 0 <= i < |attrs| :: attrs[i] == r.value && attrs[i].name == name
                          && forall j | 0 <= j < i :: attrs[j].name != name by {
        if r.Some? {
          var i :| 0 <= i < |attrs[1..]| && attrs[1..][i] == r.value && attrs[1..][i].name == name
                   && forall j | 0 <= j < i :: attrs[1..][j].name != name;
          assert attrs[i + 1] == r.value;
          assert forall j | 0 <= j < i + 1 :: attrs[j].name != name by {
            forall j | 0 <= j < i + 1 ensures attrs[j].name != name {
              if j > 0 { assert attrs[j] == attrs[1..][j - 1]; }
            }
          }
        }
      }
      r
  }

  /** The literal text of the first attribute called `name`, if that value is a string literal. */
  function LiteralAttribute(e: Element, name: string): (r: Option<string>)
    ensures r.Some? <==> FindAttribute(e.attributes, name).Some? && FindAttribute(e.attributes, name).value.value.Literal?
    ensures r.Some? ==> FindAttribute(e.attributes, name).value.value == Literal(r.value)
  {
    match FindAttribute(e.attributes, name)
    case Some(Attribute(_, Literal(s))) => Some(s)
    case _ => None
  }

  predicate HasTag(e: Element, t: string) {
    e.tag == Some(t)
  }

  /** A tag matching `^h[1-6]$`. */
  predicate IsHeadingTag(t: string) {
    |t| == 2 && t[0] == 'h' && '1' <= t[1] <= '6'
  }

  /** `parseInt(tag.substring(1))` for a heading tag. */
  function HeadingLevel(t: string): (level: nat)
    requires IsHeadingTag(t)
    ensures 1 <= level <= 6
    ensures t == ['h', (level + '0' as int) as char]
  {
    (t[1] as int - '0' as int)
  }

  predicate IsHeading(e: Element) {
    e.tag.Some? && IsHeadingTag(e.tag.value)
  }

  /** The element at path `p` below `e`, if every index on the path is in range. */
  function ElementAt(e: Element, p: seq<nat>): Option<Element>
    decreases |p|
  {
    if p == [] then Some(e)
    else if p[0] < |e.children| then ElementAt(e.children[p[0]], p[1..])
    else None
  }

  /** The elements strictly above the one at `p`, outermost first. */
  function AncestorsAt(e: Element, p: seq<nat>): seq<Element>
    decreases |p|
  {
    if p == [] || p[0] >= |e.children| then []
    else [e] + AncestorsAt(e.children[p[0]], p[1..])
  }

  /** `p` is visited before `q` in a depth-first pre-order walk. */
  predicate Before(p: seq<nat>, q: seq<nat>)
    decreases |p|
  {
    if q == [] then false
    else if p == [] then true
    else p[0] < q[0] || (p[0] == q[0] && Before(p[1..], q[1..]))
  }

  /** A non-empty path goes through one child. */
  lemma PathStep(e: Element, p: seq<nat>)
    requires p != [] && ElementAt(e, p).Some?
    ensures p[0] < |e.children|
    ensures ElementAt(e, p) == ElementAt(e.children[p[0]], p[1..])
    ensures AncestorsAt(e, p) == [e] + AncestorsAt(e.children[p[0]], p[1..])
  {
  }

  /** A subtree's path, extended by the child index, is a path of the parent. */
  lemma PathIntoChild(e: Element, j: nat, q: seq<nat>)
    requires j < |e.children|
    ensures var p: seq<nat> := [j] + q;
            p[1..] == q && ElementAt(e, p) == ElementAt(e.children[j], q)
            && AncestorsAt(e, p) == [e] + AncestorsAt(e.children[j], q)
  {
    var p: seq<nat> := [j] + q;
    assert p[1..] == q;
  }

  /** Some element of the subtree rooted at `e`, `e` included, satisfies `test`. */
  predicate AnyElement(e: Element, test: Element -> bool)
  {
    test(e) || exists i | 0 <= i < |e.children| :: AnyElement(e.children[i], test)
  }

  /** Every element of the subtree rooted at `e`, `e` included, satisfies `test`. */
  predicate EveryElement(e: Element, test: Element -> bool)
  {
    test(e) && forall i | 0 <= i < |e.children| :: EveryElement(e.children[i], test)
  }

  /** A subtree some element of which passes `test` has a path to such an element. */
  lemma {:induction false} AnyElementHasPath(e: Element, test: Element -> bool) returns (p: seq<nat>)
    requires AnyElement(e, test)
    ensures ElementAt(e, p).Some? && test(ElementAt(e, p).value)
  {
    if test(e) {
      p := [];
    } else {
      var i :| 0 <= i < |e.children| && AnyElement(e.children[i], test);
      var q := AnyElementHasPath(e.children[i], test);
      PathIntoChild(e, i, q);
      p := [i] + q;
    }
  }

  /** An element reached by a path that passes `test` makes the search succeed. */
  lemma {:induction false} PathMakesAnyElement(e: Element, test: Element -> bool, p: seq<nat>)
    requires ElementAt(e, p).Some? && test(ElementAt(e, p).value)
    ensures AnyElement(e, test)
    decreases |p|
  {
    if p != [] {
      PathStep(e, p);
      PathMakesAnyElement(e.children[p[0]], test, p[1..]);
    }
  }

  /** AnyElement is a search over every path of the subtree. */
  lemma AnyElementPaths(e: Element, test: Element -> bool)
    ensures AnyElement(e, test) <==> exists p: seq<nat> :: ElementAt(e, p).Some? && test(ElementAt(e, p).value)
  {
    if AnyElement(e, test) {
      var p := AnyElementHasPath(e, test);
    }
    forall p: seq<nat> | ElementAt(e, p).Some? && test(ElementAt(e, p).value)
      ensures AnyElement(e, test)
    {
      PathMakesAnyElement(e, test, p);
    }
  }
}
