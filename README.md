# JSX accessibility validator — a Dafny model

The repository is a compile-time accessibility checker for JSX. It ships in two forms:

- a Babel plugin (`AriaValidator`);
- a TypeScript transformer.

The Babel plugin visits every JSX element of a file. The transformer as written visits only elements that have a closing tag, and skips self-closing ones (see Findings). Each visited element gets four checks, in this order:

1. A literal `role` must be one of fourteen known ARIA roles.
2. When the role is a string literal, every `aria-*` attribute on the element must be one that role's table entry allows.
3. An `img` must carry an `alt` attribute.
4. A heading `h1`..`h6` may be at most one level deeper than its nearest enclosing heading element.

The first violation aborts the compilation. An example subclass adds semantic checks:

- at most one `main` landmark;
- an `article` must contain a heading;
- `ul`/`ol` may only have `li` children;
- a form control with a literal `id` needs a `label` whose `htmlFor` names it;
- colour contrast of at least 4.5:1.

The model works on a normalised element tree. It has these modules:

- `ElementTree`: elements, attributes, and the paths that address elements inside a tree.
- `AriaTables`: the role list and the role-to-attributes table. Lemmas cover the table's shape.
- `Diagnostics`: the violations and their messages.
- `Traversal`: a pre-order walk parameterised by a per-element check. It reports the first failing element and its path. It is proved to return nothing exactly when every element passes, and otherwise the first failing element in document order.
- `AriaValidator`: the Babel validator's four checks as functions, each characterised by lemmas.
- `Transformer`: the TypeScript transformer's loops as methods. Each method is proved equal to the Babel function it mirrors. The module also holds the visitor as the source writes it, and the finding below.
- `CustomValidator`: the example subclass's semantic checks.
- `Scenarios`: whole-tree examples, including the unit tests' two cases.

The Babel validator is written in the imperative style: a `for` loop over the `aria-*` attributes and a parent search. It is modelled as recursive functions, because the TypeScript transformer has the same loops and those are the ones modelled as methods. `Transformer.ValidateAriaAttributes` and `Transformer.ValidateHeadingStructure` keep the loops. Their postconditions equal `AriaValidator.CheckAriaAttributes` and `AriaValidator.CheckHeading`.

Behaviour the code fixes:

- `CustomValidator.ValidateMainLandmark` counts `main` elements in the whole tree. So when a tree holds two `main` elements, the first one in document order already fails.
- The allowed-attributes list in an attribute diagnostic is the role's table entry, in table order. The role list in a role diagnostic is in the order `src/types/aria.ts` declares it, which is ascending; `AriaTables.ValidRolesSorted` proves it.
- Form labels are matched through `htmlFor`, as in `examples/basic/form-validation.tsx`.

## Model

| member | source | states |
|---|---|---|
| ElementTree.FindAttribute | src/babel/aria-validator.ts:90-94 | the result is the first attribute with that name, and no earlier attribute has it; nothing is returned only when no attribute has the name |
| ElementTree.HeadingLevel | src/typescript/transformer.ts:88-89 | a tag matching `h[1-6]` has level 1..6, and the tag is `h` followed by that digit |
| AriaTables.AllowedAttributes | src/types/aria.ts:21-38 | a valid role's allowed attributes are exactly its table entry |
| AriaTables.ValidRolesSorted | src/types/aria.ts:2-17 | there are fourteen roles, strictly ascending, hence pairwise distinct |
| AriaTables.TableCoversRoles | src/types/aria.ts:19-21 | the table has an entry for exactly the valid roles |
| AriaTables.AllowedNamesAreAria | src/types/aria.ts:22-37 | every allowed attribute name starts with `aria-` |
| AriaTables.LabellingAllowedEverywhere | src/types/aria.ts:22-37 | `aria-label` and `aria-labelledby` are allowed for every role |
| AriaTables.ButtonOnlyStates | src/types/aria.ts:22 | `aria-pressed` and `aria-expanded` are allowed for `button` and no other role |
| AriaTables.CheckedOnlyCheckbox | src/types/aria.ts:23 | `aria-checked` is allowed only for `checkbox` |
| AriaTables.ModalOnlyDialog | src/types/aria.ts:24 | `aria-modal` is allowed only for `dialog` |
| AriaTables.SelectedOnlyTab | src/types/aria.ts:35 | `aria-selected` is allowed only for `tab` |
| AriaTables.ValueRangeOnlyProgressbar | src/types/aria.ts:34 | `aria-valuenow`, `aria-valuemin` and `aria-valuemax` are allowed only for `progressbar` |
| Diagnostics.HeadingTagRoundTrip | src/babel/aria-validator.ts:78-82 | the `h<level>` a heading diagnostic prints is the element's own tag |
| AriaValidator.LiteralRole | src/babel/aria-validator.ts:34-35 | the role is present exactly when the first `role` attribute is a string literal, and then it is that literal's text |
| AriaValidator.CheckRole | src/babel/aria-validator.ts:19-31 | it fails exactly when the element has a literal role outside the valid roles, reporting that role |
| AriaValidator.FirstDisallowed | src/babel/aria-validator.ts:37-48 | the result is the first `aria-*` attribute missing from the allowed list, and every earlier one is allowed; nothing is returned only when all are allowed |
| AriaValidator.CheckAriaAttributes | src/babel/aria-validator.ts:33-50 | it fails exactly when the literal role's entry rejects some `aria-*` attribute; it reports the first such attribute, the role, and the role's full entry |
| AriaValidator.CheckImgAlt | src/babel/aria-validator.ts:52-60 | it fails exactly when the element is an `img` without an `alt` attribute |
| AriaValidator.NearestHeadingLevel | src/babel/aria-validator.ts:69-73 | the result is the level of the nearest enclosing heading, and no closer ancestor is a heading; nothing is returned only when no ancestor is a heading |
| AriaValidator.CheckHeading | src/babel/aria-validator.ts:62-88 | it fails exactly when a heading is more than one level deeper than its nearest enclosing heading, reporting both levels |
| AriaValidator.CheckElement | src/babel/aria-validator.ts:6-17 | an element passes exactly when the role, attribute, alt and heading checks all pass; otherwise the violation of the first failing check, in that order, is reported |
| AriaValidator.Validate | src/babel/aria-validator.ts:6-17 | nothing is reported exactly when every element passes; otherwise the reported path addresses a failing element, reported with its own violation, and every element before it in document order passes |
| AriaValidator.NonLiteralRoleNeverFlagged | src/babel/aria-validator.ts:20-23 | a dynamic or valueless role never fails the role or attribute checks |
| AriaValidator.InvalidRoleIff | src/babel/aria-validator.ts:25-29 | the element check reports `InvalidRole(r)` exactly when `r` is the literal role and it is not valid |
| AriaValidator.DisallowedAttributeIff | src/babel/aria-validator.ts:41-48 | with a valid literal role, the attribute check reports `n` exactly when `n` is the first `aria-*` attribute the role's entry rejects |
| AriaValidator.AllowedAttributesPass | src/babel/aria-validator.ts:43 | when every `aria-*` attribute is in the role's entry, the attribute check passes |
| AriaValidator.NoRoleNoAttributeCheck | src/babel/aria-validator.ts:35 | without a literal role, no `aria-*` attribute is rejected |
| AriaValidator.ImgAltIff | src/babel/aria-validator.ts:54-58 | when the role and attribute checks pass, the element check reports a missing alt exactly when the element is an `img` without `alt` |
| AriaValidator.NearestHeadingOnly | src/babel/aria-validator.ts:69-73 | only the nearest enclosing heading matters; headings further out are ignored |
| AriaValidator.TopLevelHeadingPasses | src/babel/aria-validator.ts:75 | a heading with no heading ancestor passes the heading check, whatever its level |
| AriaValidator.HeadingTags | src/babel/aria-validator.ts:64-66 | a tag is a heading tag exactly when it is one of `h1`..`h6`; `h0`, `h7`, `h10` and `H1` are not |
| Traversal.FirstViolationWins | src/typescript/transformer.ts:7-14 | the walk returns nothing exactly when every element passes; otherwise it returns a failing element's path, and every element before it in pre-order passes |
| Transformer.AriaAttributes | src/typescript/transformer.ts:56-60 | the result holds exactly the element's attributes whose names start with `aria-` |
| Transformer.FilterKeepsFirstDisallowed | src/typescript/transformer.ts:56-70 | filtering to `aria-*` names first does not change which attribute is rejected first |
| Transformer.ValidateAriaAttributes | src/typescript/transformer.ts:51-71 | the loop reports exactly what the attribute check specifies |
| Transformer.ValidateHeadingStructure | src/typescript/transformer.ts:85-109 | the parent-walking loop reports exactly what the heading check specifies |
| Transformer.ValidateJsxElement | src/typescript/transformer.ts:25-36 | the four checks in sequence report exactly what the element check specifies |
| Transformer.Visit | src/typescript/transformer.ts:7-12 | corrected visitor (see Findings), which validates self-closing elements too: the recursive visit reports the first failing element of the subtree, as the pre-order walk specifies |
| Transformer.Transform | src/typescript/transformer.ts:4-17 | corrected transformer (see Findings): with every JSX element validated, it reports exactly what the Babel plugin reports |
| Transformer.AsWrittenCheck | src/typescript/transformer.ts:8-10 | a self-closing element is never reported; any other element is reported as the element check reports it |
| Transformer.TransformAsWritten | src/typescript/transformer.ts:7-14 | on trees without self-closing elements, the transformer as written agrees with the Babel plugin |
| Transformer.SelfClosingImgEscapes | src/typescript/transformer.ts:8 | `<img src="logo.png"/>` passes the transformer as written, but the Babel plugin reports the missing alt |
| CustomValidator.SemanticTagsDisjoint | examples/advanced/custom-validator.ts:77-93 | no element is more than one of main, article, list and form control |
| CustomValidator.FindMainElements | examples/advanced/custom-validator.ts:136-139 | every returned path addresses a `main` element of the tree |
| CustomValidator.MainElementsComplete | examples/advanced/custom-validator.ts:136-139 | every `main` element's path is returned |
| CustomValidator.MainElementsDistinct | examples/advanced/custom-validator.ts:136-139 | no path is returned twice |
| CustomValidator.ValidateMainLandmark | examples/advanced/custom-validator.ts:95-102 | a failure is always the multiple-main violation |
| CustomValidator.MultipleMainIff | examples/advanced/custom-validator.ts:95-102 | the landmark check fails exactly when the tree holds `main` elements at two different paths |
| CustomValidator.HasHeadingElement | examples/advanced/custom-validator.ts:141-144 | it holds exactly when some descendant, the element itself excluded, is a heading |
| CustomValidator.ValidateArticleStructure | examples/advanced/custom-validator.ts:104-111 | it fails exactly when the article has no heading descendant |
| CustomValidator.ValidateListStructure | examples/advanced/custom-validator.ts:113-120 | it passes exactly when every direct child is an `li` |
| CustomValidator.ValidateSemanticStructure | examples/advanced/custom-validator.ts:7-24 | it passes exactly when no rule for the element's kind fails; a `main` fails only by the landmark rule, an `article` only by the heading rule, a list only by the child rule, no other violation is ever reported, and any other element passes |
| CustomValidator.FindAssociatedLabel | examples/advanced/custom-validator.ts:151-154 | it holds exactly when some element of the tree is a `label` whose literal `htmlFor` is the id |
| CustomValidator.ValidateFormControlAssociations | examples/advanced/custom-validator.ts:122-134 | it fails exactly when the control has a literal `id` and no label names it; it passes without a literal id |
| CustomValidator.ValidateFormRelationships | examples/advanced/custom-validator.ts:37-43 | only a form control can fail, and it fails exactly by the association rule |
| CustomValidator.ValidateColorContrast | examples/advanced/custom-validator.ts:27-34 | it fails exactly when the `style` attribute is an expression, both colours are present, and their ratio is below 4.5 |
| Scenarios.RoleTestCases | tests/unit/validators/aria.test.ts:14-32 | `<div role="button">` passes; `<div role="invalid-role">` is rejected with that role |
| Scenarios.ButtonPressedAllowed | src/types/aria.ts:22 | a button with `aria-pressed` passes |
| Scenarios.ButtonCheckedRejected | src/babel/aria-validator.ts:41-48 | a button with `aria-checked` is rejected, and the diagnostic lists the button's entry |
| Scenarios.HeadingSkipReported | src/babel/aria-validator.ts:79-83 | `h3` inside `h1` is reported at the `h3`, as level 3 after level 1 |
| Scenarios.HeadingChainPasses | src/babel/aria-validator.ts:79 | `h1 > h2 > h3` passes |
| Scenarios.OuterViolationFirst | src/typescript/transformer.ts:7-11 | an outer element's violation is reported before an inner one's |
| Scenarios.MainLandmarks | examples/advanced/custom-validator.ts:95-101 | two sibling `main` elements fail; a single one passes |
| Scenarios.ListChildren | examples/advanced/custom-validator.ts:113-119 | a `ul` of `li` passes; a `ul` holding a `div` fails |
| Scenarios.EmailLabel | examples/basic/form-validation.tsx:22-30 | the email input passes because its label names it; without that label it fails |
| Scenarios.ArticleHeading | examples/advanced/custom-validator.ts:104-110 | an article holding an `h2` passes; an article holding only a `p` fails |

## Left out

- Source positions: Babel code frames and the transformer's `file:line:col` suffixes are not modelled. A diagnostic carries the element's path instead, and `Diagnostics.Message` gives the Babel wording.
- Exceptions: the first violation ends validation. This is modelled as the first diagnostic returned, not as a thrown error.
- Plugin wiring: `src/babel/plugin.ts` and `src/index.ts` only hand JSX elements to the validator. They are not part of this model.
- Attribute forms: spread attributes (`{...props}`) and namespaced attribute names are not represented. The tree holds named attributes only.
- Tree contents: JSX text is not in the tree. Both hosts also visit JSX elements nested inside expressions, such as `{items.map(i => <li/>)}` or an attribute value. The model takes the host to place each such element among the children of the nearest enclosing element, so it is visited and sees the headings that enclose it. The expression itself is not modelled: which elements a `map` or a conditional produces, and how many, is part of the given tree.
- Placeholder bodies: `findMainElements`, `hasHeadingElement`, `hasInvalidListChildren` and `findAssociatedLabel` are placeholders in the source that return `[]` or `false`. The model gives each the behaviour its name and comment describe, not the placeholder result.
- CustomValidator.ValidateColorContrast: style extraction and the contrast computation are placeholders in the source. They are parameters here, so the check is proved only relative to them.
- AriaValidator.CheckAriaAttributes: requires that a literal role is valid. The source would index the table with an unknown role, and that cannot happen because the role check always runs first.
- CustomValidator.ValidateMainLandmark: its own contract only names the violation. The full condition is stated by `CustomValidator.MultipleMainIff`.
- Custom-check scheduling: the custom checks are not wired into a traversal in the source. They are modelled per element, with the whole tree given where a check needs it.
- Message text: the exact message strings are defined in `Diagnostics.Message` but not proved about. The role list makes such proofs too costly.
- React example components: they are inputs to the validator, not part of it. The email-label case is kept as a scenario.

## Findings

| source | as written | input that shows it | evidently intended | confidence | as-written member | corrected member |
|---|---|---|---|---|---|---|
| src/typescript/transformer.ts:8 | the visitor validates only `ts.isJsxElement` nodes, so self-closing elements are never checked | `<img src="logo.png" />` passes the transformer, while the Babel plugin rejects it for the missing alt | every JSX element, self-closing or not, is validated, as the Babel plugin does | high, not executed | Transformer.TransformAsWritten, Transformer.SelfClosingImgEscapes | Transformer.Transform |
