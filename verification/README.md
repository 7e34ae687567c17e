# mkdocs-cms navigation-tree logic in Dafny

This project models the two read-only algorithms of `lib/file_utils.js` in mkdocs-cms, a
content manager for MkDocs documentation sites:

- `find` (the locator): given a requested URL slug, walk the site's navigation tree and
  resolve with the first page whose identifier matches, or reject with
  `'Could not associate path'`.
- `validate` (the collision validator): given a proposed section, sub-section or page,
  reject with one of three fixed messages if its title-cased name is already taken at the
  level the proposal's shape implies, except that, as written, the tertiary branch does not
  look at a group's child names (see "## Findings"), and otherwise resolve with the proposal
  unchanged.

The navigation tree is a sequence of one-key section objects `{title: entries}`. Each entry
is `{identifier: path}` (a `Leaf`) or `{identifier: [children]}` (a `Group`). Each child is
`{identifier: path}` (a `Page`). Both operations are pure functions returning a `Result`.
The promise's settle-once rule becomes "the first outcome in traversal order wins".

Files:

- `results.dfy`: `Option` and `Result`.
- `ascii.dfy`: ASCII lower-casing, and `split`/`join` written out as in JavaScript. It proves
  that `split('_').join(' ')` is a character substitution.
- `navigation.dfy`: the tree datatypes and the traversal order of its pages.
- `locator.dfy`: `find`, written as the three nested loops of lib/file_utils.js and proved equal to a
  linear first-match search over the flattened pages.
- `validator.dfy`: `validate` and the rejection condition of each of its four branches.
- `findings.dfy`: the tertiary-branch defect described under "## Findings".

`_.isTertiary` is a mkdocs-cms mixin defined outside lib/file_utils.js. `_.startCase` and
the group test `_.has(value, …)` are taken as parameters too, so the tertiary branch can be
studied both as written and corrected. All three are fields of the `Validator.Helpers` value
that `validate` receives, so every property holds for every choice of them.

The model follows the code as written; in particular:

- `validate` compares stored section and entry keys verbatim. Only the proposal side is
  title-cased (lines 78, 80, 86, 104, 106).
- In the tertiary branch, `_.has` is applied to the group's children array, not to the
  children (lines 93-96).
- `find` replaces `'_'` by `' '` on the requested slug only (lines 15, 23). A stored
  identifier containing `'_'` therefore never matches.

## Model

| member | source | states |
|---|---|---|
| Ascii.JoinSplitIsReplace | lib/file_utils.js:15 | `s.split('_').join(' ')` equals `s` with every `'_'` replaced by `' '` |
| Navigation.PagesAreStored | lib/file_utils.js:7-31 | the traversal visits exactly the pages stored as a section's leaf or as a group's child |
| Locator.FirstMatch | lib/file_utils.js:7-33 | the position of the first matching page: every earlier page fails to match, and the page there matches unless no page does |
| Locator.FirstMatchConcat | lib/file_utils.js:7-31 | the first match in a concatenation is in the left part if the left part has one, else it is the right part's first match shifted past the left part |
| Locator.ScanChildren | lib/file_utils.js:12-20 | a group's children scan returns a matching child, or nothing when no child matches; it returns the first match |
| Locator.ScanEntries | lib/file_utils.js:9-28 | the entry scan returns the first match among the entries' pages, with a group's children in place of the group |
| Locator.ScanSections | lib/file_utils.js:7-31 | the section scan returns the first match among all pages in traversal order |
| Locator.TargetKeyIsNormalised | lib/file_utils.js:15 | the literal key `url.toLowerCase().split('_').join(' ')` is the slug folded one character at a time |
| Locator.Locate | lib/file_utils.js:7-33 | a found page is stored in the tree, matches the normalised slug and is the first to do so; nothing is found exactly when no page matches |
| Locator.Find | lib/file_utils.js:3-35 | rejects with `'Could not associate path'` exactly when no leaf or group child matches; otherwise resolves with the first matching page's path and identifier, and with `html` if defined, else the tree |
| Locator.SameKeyIffEquivalent | lib/file_utils.js:23 | two slugs get the same key exactly when they differ only in ASCII case or `'_'` versus `' '` |
| Locator.EquivalentSlugsFindAlike | lib/file_utils.js:15-24 | `find` gives the same result for slugs that differ only in ASCII case or `'_'` versus `' '` |
| Locator.UnderscoreIdNeverMatches | lib/file_utils.js:23 | a stored identifier containing `'_'` matches no slug |
| Locator.FoundIdHasNoUnderscore | lib/file_utils.js:15-24 | `find` never resolves with an identifier containing `'_'` |
| Locator.TitlesIgnored | lib/file_utils.js:8-9 | retitling a section does not change what a slug resolves to |
| Locator.GroupIdsIgnored | lib/file_utils.js:10-13 | renaming a group does not change what a slug resolves to |
| Validator.HasEntryNamed | lib/file_utils.js:79-83 | the entry scan succeeds exactly when some entry, leaf or group, has the key as its identifier |
| Validator.HasGroupHolding | lib/file_utils.js:92-101 | the tertiary scan succeeds exactly when some group entry's children array satisfies `has`; leaves are skipped |
| Validator.Validate | lib/file_utils.js:71-118 | resolves with the proposal unchanged, or rejects exactly when some section collides; the message is fixed by the proposal's shape (sub-section, section or page) |
| Validator.NewSectionRejectedIff | lib/file_utils.js:85-88 | a section proposal without a path is rejected exactly when some stored title equals `startCase(name)`, with `'That section already exists!'` |
| Validator.NewSubSectionRejectedIff | lib/file_utils.js:77-84 | a section proposal with a path is rejected exactly when a section titled `startCase(path)` has an entry keyed `startCase(name)` |
| Validator.NewPageRejectedIff | lib/file_utils.js:103-110 | a non-tertiary page proposal is rejected exactly when a section titled `startCase(path)` has an entry keyed `startCase(name)` |
| Validator.TertiaryPageRejectedIff | lib/file_utils.js:91-102 | a tertiary page proposal is rejected exactly when, in any section, some group's children array satisfies `has(children, startCase(name))` |
| Validator.ValidateConcat | lib/file_utils.js:73-116 | validating a split tree is validating the first part, and the second part only if the first resolves |
| Validator.OnlyParentSectionInspected | lib/file_utils.js:76-112 | for a sub-section or non-tertiary page proposal, dropping every section not titled `startCase(path)` leaves the outcome unchanged |
| Validator.TertiaryIgnoresTitles | lib/file_utils.js:91-102 | for a tertiary page proposal, retitling any section leaves the outcome unchanged |
| Findings.AsWrittenTertiaryNeverRejects | lib/file_utils.js:93-96 | with `_.has` on a JavaScript array, a tertiary page whose title-cased name is not `"length"` and does not start with a digit is never rejected |
| Findings.AsWrittenMissesExistingChild | lib/file_utils.js:95-97 | as written, proposing page `Install` under a tertiary path resolves even though a group already holds a child `Install` |
| Findings.IntendedTertiaryRejectedIff | lib/file_utils.js:91-102 | with the corrected group test, a tertiary page is rejected exactly when some group child is keyed `startCase(name)` |
| Findings.IntendedCatchesExistingChild | lib/file_utils.js:95-97 | with the corrected group test, the same example is rejected with `'A page in that section already exists!'` |

## Left out

- `mkdir`, `rm`, `read`, `write`, `build` and `zip` (lines 37-69, 120-134): single calls to mkdirp, remove, read-file, fs, child_process and zip-dir, with no decision logic.
- Promise machinery: settling once is modelled as "the first outcome in traversal order wins".
- The `page.all.pages || page.all` choice (line 7) and `_.onlyConfig(obj.all).pages` (line 73): the model takes the section sequence directly. `Locator.Find` echoes that sequence as the content when `html` is undefined, not a surrounding wrapper object.
- `_.isTertiary` (a mkdocs-cms mixin defined outside lib/file_utils.js), `_.startCase` and `_.has` on a group's value are parameters (`Validator.Helpers`). `startCase` of an absent path is taken as `startCase("")`, matching lodash's reading of `undefined` as the empty string.
- `_.has(obj, key)` is modelled as an own-key test (`Validator.HasEntryNamed`, `Findings.ArrayHas`). Lodash reads a key containing `.`, `[` or `]` as a deep path; the own-key reading is exact because `_.startCase` output never contains those characters, but the parametric `startCase` of the model is not restricted to such outputs.
- `toLowerCase` is modelled on ASCII letters only. Unicode case mapping is not modelled.
- Section, entry and child objects with more than one key, and nesting deeper than one group level, are not modelled. A missing `page.url`, which throws in JavaScript, is not modelled either.

## Findings

| source | as written | input that shows it | evidently intended | confidence | as-written member | corrected member |
|---|---|---|---|---|---|---|
| lib/file_utils.js:93-96 | the tertiary branch calls `_.has(value, startCase(name))` with `value` the group's children array. The array's own keys are index strings and `"length"` | tree `[{Guides: [{Advanced: [{Install: "guides/advanced/install.md"}]}]}]`, proposal `{name: "Install", path: <tertiary>}` with no `section` key: resolves | reject when some child of a group has key `startCase(name)` | not executed; high | Findings.AsWrittenMissesExistingChild | Findings.IntendedTertiaryRejectedIff |

`Validator.Validate` takes the group test as a parameter. `Findings.AsWritten` instantiates it
with JavaScript array semantics. `Findings.Intended` instantiates it with the corrected test.
