/**
 * What a failed check reports: which rule was violated, with the values the
 * message quotes, and the path of the offending element.  Host positions
 * (code frames, file:line:column) are added by the hosts and are not part of
 * a diagnostic here.
 */
module Diagnostics {
  import opened ElementTree
  import AriaTables

  datatype Violation =
    | InvalidRole(role: string)
    | DisallowedAttribute(name: string, role: string, allowed: seq<string>)
    | MissingAlt
    | HeadingSkip(level: nat, parentLevel: nat)
    | MultipleMain
    | ArticleWithoutHeading
    | InvalidListChildren
    | MissingLabel
    | LowContrast

  /** A violation together with the path, from the root, of the element it was found at. */
  datatype Diagnostic = Diagnostic(violation: Violation, at: seq<nat>)

  /** `xs.join(sep)`. */
  function Join(xs: seq<string>, sep: string): string
  {
    if |xs| == 0 then ""
    else if |xs| == 1 then xs[0]
    else xs[0] + sep + Join(xs[1..], sep)
  }

  function Digit(d: nat): (c: char)
    requires d < 10
    ensures '0' <= c <= '9'
  {
    (d + '0' as int) as char
  }

  /** The decimal text of `n`, as a template literal prints a number. */
  function NatToString(n: nat): (s: string)
    ensures |s| >= 1 && forall i | 0 <= i < |s| :: '0' <= s[i] <= '9'
    ensures n < 10 ==> |s| == 1
  {
    if n < 10 then [Digit(n)] else NatToString(n / 10) + [Digit(n % 10)]
  }

  /** The message text the Babel host puts into its code-frame error. */
  function Message(v: Violation): string
  {
    match v
    case InvalidRole(r) =>
      "Invalid ARIA role \"" + r + "\". Valid roles are: " + Join(AriaTables.ValidRoles, ", ")
    case DisallowedAttribute(n, r, allowed) =>
      "Invalid ARIA attribute \"" + n + "\" for role \"" + r + "\". "
      + "Allowed attributes are: " + Join(allowed, ", ")
    case MissingAlt => "img elements must have an alt attribute"
    case HeadingSkip(l, p) =>
      "Heading structure is invalid. Found h" + NatToString(l) + " after h" + NatToString(p) + ". "
      + "Missing h" + NatToString(p + 1) + "."
    case MultipleMain => "Multiple <main> elements found. Document should contain only one main landmark."
    case ArticleWithoutHeading => "Article elements should contain a heading for proper document structure."
    case InvalidListChildren => "List elements should only contain <li> elements as direct children."
    case MissingLabel => "Form control must have an associated label element."
    case LowContrast => "Color contrast ratio must be at least 4.5:1 for normal text (WCAG AA)"
  }

  /** The tag a heading message prints for a level read off a heading tag is that tag again. */
  lemma HeadingTagRoundTrip(t: string)
    requires IsHeadingTag(t)
    ensures "h" + NatToString(HeadingLevel(t)) == t
  {
  }
}
