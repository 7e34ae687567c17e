/** The tertiary branch of `validate` (lib/file_utils.js:91-102) asks `_.has` of a
    group's children ARRAY. A JavaScript array's own keys are its index strings
    and "length", so as written a child's name is detected only when the
    title-cased name is "length" or starts with a digit (see
    `AsWrittenTertiaryNeverRejects`); the evidently intended test asks whether
    some child object has the name as its key. */
module Findings {
  import opened Results
  import opened Navigation
  import opened Validator

  /** The decimal digit character for `d`. */
  function DigitChar(d: nat): char
    requires d < 10
  {
    "0123456789"[d]
  }

  /** The canonical decimal spelling of `n`, as JavaScript names an array index. */
  function Decimal(n: nat): (s: string)
    ensures |s| >= 1 && '0' <= s[0] <= '9'
    decreases n
  {
    if n < 10 then [DigitChar(n)] else Decimal(n / 10) + [DigitChar(n % 10)]
  }

  /** `_.has(array, key)` on a JavaScript array, for a key without `.`, `[` or `]`
      (lodash reads those as deep paths; `_.startCase` never produces them):
      `key` is one of the array's own keys, an index below its length or "length". */
  predicate ArrayHas(children: seq<Page>, key: string) {
    key == "length" || exists i: nat :: i < |children| && key == Decimal(i)
  }

  /** The lodash helpers with `_.has` behaving as on JavaScript arrays. */
  function AsWritten(m: Helpers): Helpers {
    m.(has := ArrayHas)
  }

  /** As written, a tertiary page proposal whose title-cased name neither starts
      with a digit nor is "length" is never refused, whatever the tree holds. */
  lemma AsWrittenTertiaryNeverRejects(m: Helpers, p: Proposal, t: Tree)
    requires !p.hasSection && m.isTertiary(p.path)
    requires NameTitle(m, p) != "length"
    requires |NameTitle(m, p)| == 0 || !('0' <= NameTitle(m, p)[0] <= '9')
    ensures Validate(AsWritten(m), p, t) == Success(p)
  {
  }

  /** The input that shows it: a group "Advanced" already holds a page "Install",
      yet proposing the page "Install" under a tertiary path resolves. */
  lemma AsWrittenMissesExistingChild()
    ensures var m := AsWritten(Helpers(s => s, path => true, (c, k) => false));
      var t := [Section("Guides", [Group("Advanced", [Page("Install", "guides/advanced/install.md")])])];
      var p := Proposal(false, Some("Guides/Advanced"), "Install");
      Validate(m, p, t) == Success(p)
  {
  }

  /** The evidently intended test: some child object has `key` as its key. */
  predicate ChildNamed(children: seq<Page>, key: string) {
    exists c :: c in children && c.id == key
  }

  /** The lodash helpers with the group test corrected. */
  function Intended(m: Helpers): Helpers {
    m.(has := ChildNamed)
  }

  /** Corrected, a tertiary page proposal is refused exactly when some group in
      some section already has a child keyed by the title-cased name. */
  lemma IntendedTertiaryRejectedIff(m: Helpers, p: Proposal, t: Tree)
    requires !p.hasSection && m.isTertiary(p.path)
    ensures Validate(Intended(m), p, t).Failure? <==>
      exists i, j, k :: 0 <= i < |t| && 0 <= j < |t[i].entries| && t[i].entries[j].Group?
        && 0 <= k < |t[i].entries[j].children| && t[i].entries[j].children[k].id == NameTitle(m, p)
    ensures Validate(Intended(m), p, t).Failure? ==> Validate(Intended(m), p, t).error == PageExists
  {
  }

  /** Corrected, the example above is refused. */
  lemma IntendedCatchesExistingChild()
    ensures var m := Intended(Helpers(s => s, path => true, (c, k) => false));
      var t := [Section("Guides", [Group("Advanced", [Page("Install", "guides/advanced/install.md")])])];
      var p := Proposal(false, Some("Guides/Advanced"), "Install");
      Validate(m, p, t) == Failure(PageExists)
  {
  }
}
