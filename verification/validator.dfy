/** `validate` (lib/file_utils.js:71-118): refuses a proposed section, sub-section
    or page whose title-cased name is already taken at the level the proposal's
    shape implies, except that, as written, the tertiary branch does not look at a
    group's child names (see the Findings module), and otherwise resolves with the
    proposal unchanged. Every
    `reject` in one call carries the same reason, so the first one settling the
    promise is the only one that matters. */
module Validator {
  import opened Results
  import opened Navigation

  const SectionExists := "That section already exists!"
  const SubSectionExists := "That sub-section already exists!"
  const PageExists := "A page in that section already exists!"

  /** The lodash functions and the mkdocs-cms mixin `validate` calls, taken as parameters:
      `startCase` (`_.startCase`), `isTertiary` (`_.isTertiary`, applied to the
      possibly absent `path`), and `has`, which is `_.has` applied to a group's
      value, that is to the children array itself rather than to a child. */
  datatype Helpers = Helpers(
    startCase: string -> string,
    isTertiary: Option<string> -> bool,
    has: (seq<Page>, string) -> bool)

  /** The proposal object: whether it has a `section` key (`_.has`, so presence and
      not truthiness), its `path` if the key is present, and its `name`. */
  datatype Proposal = Proposal(hasSection: bool, path: Option<string>, name: string)

  /** `_.startCase(obj.name)`. */
  function NameTitle(m: Helpers, p: Proposal): string {
    m.startCase(p.name)
  }

  /** `_.startCase(obj.path)`; lodash reads an absent value as the empty string. */
  function PathTitle(m: Helpers, p: Proposal): string {
    m.startCase(p.path.GetOr(""))
  }

  /** The single reason every rejection of `p` carries. */
  function RejectReason(p: Proposal): string {
    if p.hasSection then
      if p.path.Some? then SubSectionExists else SectionExists
    else PageExists
  }

  /** Some entry object has `key` as its (only) key: `_.has(entry, key)` over the
      entries of a section (lines 79-83 and 105-109); leaves and groups alike.
      An own-key test, exact for keys without `.`, `[` or `]`, which lodash would
      read as deep paths and `_.startCase` never produces. */
  function HasEntryNamed(es: seq<Entry>, key: string): (b: bool)
    ensures b <==> exists j :: 0 <= j < |es| && es[j].id == key
    decreases |es|
  {
    if |es| == 0 then false
    else es[0].id == key || HasEntryNamed(es[1..], key)
  }

  /** The tertiary scan of one section (lines 92-101): for each entry whose value
      is an array, `_.has` is asked of that array; leaves are skipped. */
  function HasGroupHolding(m: Helpers, es: seq<Entry>, key: string): (b: bool)
    ensures b <==> exists j :: 0 <= j < |es| && es[j].Group? && m.has(es[j].children, key)
    decreases |es|
  {
    if |es| == 0 then false
    else (es[0].Group? && m.has(es[0].children, key)) || HasGroupHolding(m, es[1..], key)
  }

  /** The per-section callback (lines 74-113): does section `s` reject `p`? */
  predicate SectionCollides(m: Helpers, p: Proposal, s: Section) {
    if p.hasSection then
      if p.path.Some? then s.title == PathTitle(m, p) && HasEntryNamed(s.entries, NameTitle(m, p))
      else s.title == NameTitle(m, p)
    else if m.isTertiary(p.path) then HasGroupHolding(m, s.entries, NameTitle(m, p))
    else PathTitle(m, p) == s.title && HasEntryNamed(s.entries, NameTitle(m, p))
  }

  /** `validate` over the sections `onlyConfig(obj.all).pages`. */
  function Validate(m: Helpers, p: Proposal, t: Tree): (r: Result<Proposal, string>)
    ensures r.Success? ==> r.value == p
    ensures r.Failure? <==> exists i :: 0 <= i < |t| && SectionCollides(m, p, t[i])
    ensures r.Failure? && p.hasSection && p.path.Some? ==> r.error == SubSectionExists
    ensures r.Failure? && p.hasSection && p.path.None? ==> r.error == SectionExists
    ensures r.Failure? && !p.hasSection ==> r.error == PageExists
    decreases |t|
  {
    if |t| == 0 then Success(p)
    else if SectionCollides(m, p, t[0]) then Failure(RejectReason(p))
    else
      assert forall i :: 1 <= i < |t| ==> t[i] == t[1..][i - 1];
      Validate(m, p, t[1..])
  }

  /** A section proposal without a path is refused exactly when some stored title
      equals the title-cased name; titles are compared verbatim. */
  lemma NewSectionRejectedIff(m: Helpers, p: Proposal, t: Tree)
    requires p.hasSection && p.path.None?
    ensures Validate(m, p, t).Failure? <==> exists i :: 0 <= i < |t| && t[i].title == NameTitle(m, p)
    ensures Validate(m, p, t).Failure? ==> Validate(m, p, t).error == SectionExists
  {
  }

  /** A section proposal with a path is refused exactly when a section titled like
      the title-cased path holds an entry keyed by the title-cased name. */
  lemma NewSubSectionRejectedIff(m: Helpers, p: Proposal, t: Tree)
    requires p.hasSection && p.path.Some?
    ensures Validate(m, p, t).Failure? <==>
      exists i, j :: 0 <= i < |t| && 0 <= j < |t[i].entries|
        && t[i].title == PathTitle(m, p) && t[i].entries[j].id == NameTitle(m, p)
  {
  }

  /** A page proposal whose path is not tertiary is refused exactly when a section
      titled like the title-cased path holds an entry keyed by the title-cased name. */
  lemma NewPageRejectedIff(m: Helpers, p: Proposal, t: Tree)
    requires !p.hasSection && !m.isTertiary(p.path)
    ensures Validate(m, p, t).Failure? <==>
      exists i, j :: 0 <= i < |t| && 0 <= j < |t[i].entries|
        && t[i].title == PathTitle(m, p) && t[i].entries[j].id == NameTitle(m, p)
  {
  }

  /** A page proposal under a tertiary path is refused exactly when, in any section
      whatever its title, some group's children array satisfies `has`. */
  lemma TertiaryPageRejectedIff(m: Helpers, p: Proposal, t: Tree)
    requires !p.hasSection && m.isTertiary(p.path)
    ensures Validate(m, p, t).Failure? <==>
      exists i, j :: 0 <= i < |t| && 0 <= j < |t[i].entries|
        && t[i].entries[j].Group? && m.has(t[i].entries[j].children, NameTitle(m, p))
  {
  }

  /** Validating a tree split in two is validating the first part and, only if
      that resolves, the second: the first rejection settles the outcome. */
  lemma {:induction false} ValidateConcat(m: Helpers, p: Proposal, t1: Tree, t2: Tree)
    ensures Validate(m, p, t1 + t2)
         == if Validate(m, p, t1).Failure? then Validate(m, p, t1) else Validate(m, p, t2)
    decreases |t1|
  {
    if |t1| > 0 {
      assert (t1 + t2)[0] == t1[0];
      assert (t1 + t2)[1..] == t1[1..] + t2;
      ValidateConcat(m, p, t1[1..], t2);
    } else {
      assert t1 + t2 == t2;
    }
  }

  /** The sections of `t` titled `title`, in order. */
  function Titled(t: Tree, title: string): (u: Tree)
    ensures forall s :: s in u <==> s in t && s.title == title
    decreases |t|
  {
    if |t| == 0 then []
    else if t[0].title == title then [t[0]] + Titled(t[1..], title)
    else Titled(t[1..], title)
  }

  /** When the proposal names a parent (a sub-section, or a page under a path that
      is not tertiary), only the sections titled like the title-cased path are
      inspected: dropping every other section leaves the outcome unchanged. */
  lemma OnlyParentSectionInspected(m: Helpers, p: Proposal, t: Tree)
    requires (p.hasSection && p.path.Some?) || (!p.hasSection && !m.isTertiary(p.path))
    ensures Validate(m, p, Titled(t, PathTitle(m, p))) == Validate(m, p, t)
  {
  }

  /** Under a tertiary path titles play no part: retitling any section leaves the
      outcome unchanged. */
  lemma {:induction false} TertiaryIgnoresTitles(m: Helpers, p: Proposal, t: Tree, i: nat, title: string)
    requires !p.hasSection && m.isTertiary(p.path)
    requires i < |t|
    ensures Validate(m, p, t[i := Section(title, t[i].entries)]) == Validate(m, p, t)
    decreases |t|
  {
    var t' := t[i := Section(title, t[i].entries)];
    if i > 0 {
      assert t'[1..] == t[1..][i - 1 := Section(title, t[i].entries)];
      TertiaryIgnoresTitles(m, p, t[1..], i - 1, title);
    } else {
      assert t'[1..] == t[1..];
    }
  }
}
