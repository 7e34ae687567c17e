/** `find` (lib/file_utils.js:3-35): the page whose identifier matches a requested
    URL slug. The promise settles once, so the first `resolve` in traversal order
    wins and the final `reject` only takes effect when nothing matched. */
module Locator {
  import opened Results
  import opened Ascii
  import opened Navigation

  /** The rejection reason when no page matches. */
  const NotAssociated := "Could not associate path"

  /** The payload echoed back: `page.html` when it is defined, else `page.all`. */
  datatype Content = Html(html: string) | All(tree: Tree)

  /** The `page` argument: the requested slug, the optional page body and the tree. */
  datatype FindRequest = FindRequest(url: string, html: Option<string>, all: Tree)

  /** The resolved object `{path, section, content}`; `section` holds the page's identifier. */
  datatype Located = Located(path: string, section: string, content: Content)

  /** The comparison key of a requested slug, as the source computes it:
      `url.toLowerCase().split('_').join(' ')`. */
  function TargetKey(url: string): string {
    Join(Split(Lower(url), '_'), " ")
  }

  /** How one character of a requested slug is compared: '_' reads as a space,
      letters are compared without case. */
  function FoldChar(c: char): char {
    if c == '_' then ' ' else LowerChar(c)
  }

  /** The slug as the comparison sees it, one character at a time. */
  function Normalised(url: string): string {
    seq(|url|, i requires 0 <= i < |url| => FoldChar(url[i]))
  }

  /** A stored page matches a key when its lower-cased identifier equals it;
      the stored side is only lower-cased, never underscore-replaced. */
  predicate Matches(pg: Page, key: string) {
    Lower(pg.id) == key
  }

  /** The position of the first page matching `key`, or `|ps|` when none does. */
  function FirstMatch(ps: seq<Page>, key: string): (k: nat)
    ensures k <= |ps|
    ensures forall j :: 0 <= j < k ==> !Matches(ps[j], key)
    ensures k < |ps| ==> Matches(ps[k], key)
    decreases |ps|
  {
    if |ps| == 0 then 0
    else if Matches(ps[0], key) then 0
    else 1 + FirstMatch(ps[1..], key)
  }

  /** The page at position `k`, if there is one. */
  function At(ps: seq<Page>, k: nat): Option<Page> {
    if k < |ps| then Some(ps[k]) else None
  }

  /** The first match in a concatenation is the first match in its left part,
      or, failing that, the first match in its right part shifted past the left. */
  lemma {:induction false} FirstMatchConcat(a: seq<Page>, b: seq<Page>, key: string)
    ensures FirstMatch(a + b, key)
         == if FirstMatch(a, key) < |a| then FirstMatch(a, key) else |a| + FirstMatch(b, key)
    decreases |a|
  {
    if |a| > 0 && !Matches(a[0], key) {
      assert (a + b)[1..] == a[1..] + b;
      FirstMatchConcat(a[1..], b, key);
    } else if |a| == 0 {
      assert a + b == b;
    }
  }

  /** The innermost loop (lines 12-20): the children of one group, in order. */
  function ScanChildren(children: seq<Page>, key: string): (r: Option<Page>)
    ensures r.Some? ==> r.value in children && Matches(r.value, key)
    ensures r.None? ==> forall pg :: pg in children ==> !Matches(pg, key)
    ensures r == At(children, FirstMatch(children, key))
    decreases |children|
  {
    if |children| == 0 then None
    else if Matches(children[0], key) then Some(children[0])
    else ScanChildren(children[1..], key)
  }

  /** The entry loop (lines 9-28): a group is searched through its children,
      a leaf is compared itself; a group's own identifier is never compared. */
  function ScanEntries(es: seq<Entry>, key: string): (r: Option<Page>)
    ensures r == At(EntriesPages(es), FirstMatch(EntriesPages(es), key))
    decreases |es|
  {
    if |es| == 0 then None
    else
      var here := match es[0]
        case Group(_, children) => ScanChildren(children, key)
        case Leaf(id, path) => if Matches(Page(id, path), key) then Some(Page(id, path)) else None;
      FirstMatchConcat(EntryPages(es[0]), EntriesPages(es[1..]), key);
      if here.Some? then here else ScanEntries(es[1..], key)
  }

  /** The section loop (lines 7-31); a section's title is never compared. */
  function ScanSections(t: Tree, key: string): (r: Option<Page>)
    ensures r == At(Pages(t), FirstMatch(Pages(t), key))
    decreases |t|
  {
    if |t| == 0 then None
    else
      FirstMatchConcat(EntriesPages(t[0].entries), Pages(t[1..]), key);
      var here := ScanEntries(t[0].entries, key);
      if here.Some? then here else ScanSections(t[1..], key)
  }

  /** The literal key computation is the character-wise normalisation. */
  lemma TargetKeyIsNormalised(url: string)
    ensures TargetKey(url) == Normalised(url)
  {
    JoinSplitIsReplace(Lower(url), '_', ' ');
    assert Join(Split(Lower(url), '_'), " ") == Join(Split(Lower(url), '_'), [' ']);
  }

  /** Position `k` holds a page matching `key` and no earlier position does. */
  ghost predicate FirstAt(ps: seq<Page>, key: string, k: int) {
    0 <= k < |ps| && Matches(ps[k], key) && forall j :: 0 <= j < k ==> !Matches(ps[j], key)
  }

  /** The page a slug resolves to in a tree, if any. */
  function Locate(t: Tree, url: string): (r: Option<Page>)
    ensures r.Some? ==> Stored(t, r.value) && Matches(r.value, Normalised(url))
    ensures r.None? <==> forall pg :: pg in Pages(t) ==> !Matches(pg, Normalised(url))
    ensures r.Some? ==> exists k :: FirstAt(Pages(t), Normalised(url), k) && Pages(t)[k] == r.value
  {
    TargetKeyIsNormalised(url);
    FirstMatchMeaning(t, TargetKey(url));
    ScanSections(t, TargetKey(url))
  }

  /** What the first match in a tree's traversal tells about the tree. */
  lemma FirstMatchMeaning(t: Tree, key: string)
    ensures var ps := Pages(t); var k := FirstMatch(ps, key);
      && (k < |ps| ==> Stored(t, ps[k]))
      && (k == |ps| <==> forall pg :: pg in ps ==> !Matches(pg, key))
  {
    var ps := Pages(t);
    var k := FirstMatch(ps, key);
    if k < |ps| {
      PagesAreStored(t, ps[k]);
    } else {
      forall pg | pg in ps ensures !Matches(pg, key) {
        var j :| 0 <= j < |ps| && ps[j] == pg;
      }
    }
  }

  /** `find`: resolves with the first page, in traversal order, whose lower-cased
      identifier equals the normalised slug, or rejects with `NotAssociated`. */
  function Find(req: FindRequest): (r: Result<Located, string>)
    ensures r.Failure? <==> forall pg :: pg in Pages(req.all) ==> !Matches(pg, Normalised(req.url))
    ensures r.Failure? ==> r.error == NotAssociated
    ensures r.Success? ==> Stored(req.all, Page(r.value.section, r.value.path))
    ensures r.Success? ==> Matches(Page(r.value.section, r.value.path), Normalised(req.url))
    ensures r.Success? ==>
      exists k :: FirstAt(Pages(req.all), Normalised(req.url), k) && Pages(req.all)[k] == Page(r.value.section, r.value.path)
    ensures r.Success? && req.html.Some? ==> r.value.content == Html(req.html.value)
    ensures r.Success? && req.html.None? ==> r.value.content == All(req.all)
  {
    var content := if req.html.Some? then Html(req.html.value) else All(req.all);
    match Locate(req.all, req.url)
    case Some(pg) => Success(Located(pg.path, pg.id, content))
    case None => Failure(NotAssociated)
  }

  /** Slugs that agree character by character up to ASCII case and '_' versus ' '. */
  predicate Equivalent(u: string, v: string) {
    |u| == |v| && forall i :: 0 <= i < |u| ==> FoldChar(u[i]) == FoldChar(v[i])
  }

  /** Two slugs have the same comparison key exactly when they are equivalent. */
  lemma SameKeyIffEquivalent(u: string, v: string)
    ensures TargetKey(u) == TargetKey(v) <==> Equivalent(u, v)
  {
    TargetKeyIsNormalised(u);
    TargetKeyIsNormalised(v);
    if TargetKey(u) == TargetKey(v) {
      forall i | 0 <= i < |u| ensures FoldChar(u[i]) == FoldChar(v[i]) {
        assert Normalised(u)[i] == Normalised(v)[i];
      }
    }
  }

  /** `find` cannot tell equivalent slugs apart. */
  lemma EquivalentSlugsFindAlike(req: FindRequest, url: string)
    requires Equivalent(req.url, url)
    ensures Find(req.(url := url)) == Find(req)
  {
  }

  /** A stored identifier containing '_' matches no slug: only the slug side
      has its underscores replaced. */
  lemma UnderscoreIdNeverMatches(pg: Page, url: string)
    requires '_' in pg.id
    ensures !Matches(pg, TargetKey(url))
    ensures !Matches(pg, Normalised(url))
  {
    TargetKeyIsNormalised(url);
    var i :| 0 <= i < |pg.id| && pg.id[i] == '_';
    assert Lower(pg.id)[i] == '_';
    if |Lower(pg.id)| == |url| {
      assert Normalised(url)[i] != '_';
    }
  }

  /** Consequently `find` never resolves with an identifier containing '_'. */
  lemma FoundIdHasNoUnderscore(req: FindRequest)
    requires Find(req).Success?
    ensures '_' !in Find(req).value.section
  {
    var r := Find(req);
    if '_' in r.value.section {
      UnderscoreIdNeverMatches(Page(r.value.section, r.value.path), req.url);
    }
  }

  /** Section titles are never compared: retitling a section changes nothing. */
  lemma TitlesIgnored(t: Tree, url: string, i: nat, title: string)
    requires i < |t|
    ensures Locate(t[i := Section(title, t[i].entries)], url) == Locate(t, url)
  {
    RetitlePreservesPages(t, i, title);
  }

  /** Group identifiers are never compared: renaming a group changes nothing. */
  lemma GroupIdsIgnored(t: Tree, url: string, i: nat, j: nat, id: string)
    requires i < |t| && j < |t[i].entries| && t[i].entries[j].Group?
    ensures Locate(RenameGroup(t, i, j, id), url) == Locate(t, url)
  {
    RenameGroupPreservesPages(t, i, j, id);
  }
}
