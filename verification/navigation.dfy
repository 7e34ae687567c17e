/** The navigation tree of a documentation site, as both `find` and `validate`
    in lib/file_utils.js walk it: a sequence of one-key section objects
    `{title: entries}`, each entry a one-key object `{identifier: path}` or
    `{identifier: [children]}`, each child `{identifier: path}`. */
module Navigation {

  /** A one-key object `{id: path}` naming a page file. */
  datatype Page = Page(id: string, path: string)

  /** An entry of a section: a page, or a group whose value is an array of pages. */
  datatype Entry =
    | Leaf(id: string, path: string)
    | Group(id: string, children: seq<Page>)

  /** A one-key object `{title: entries}`. */
  datatype Section = Section(title: string, entries: seq<Entry>)

  /** The top-level sequence of sections, in display order. */
  type Tree = seq<Section>

  /** The pages an entry offers to a lookup: a leaf stands for itself,
      a group for its children (the group's own identifier is not a page). */
  function EntryPages(e: Entry): seq<Page> {
    match e
    case Leaf(id, path) => [Page(id, path)]
    case Group(_, children) => children
  }

  /** The pages of a sequence of entries, in order. */
  function EntriesPages(es: seq<Entry>): seq<Page>
    decreases |es|
  {
    if |es| == 0 then [] else EntryPages(es[0]) + EntriesPages(es[1..])
  }

  /** The pages of a whole tree in traversal order: sections in order, entries
      in order, a group's children in place of the group. */
  function Pages(t: Tree): seq<Page>
    decreases |t|
  {
    if |t| == 0 then [] else EntriesPages(t[0].entries) + Pages(t[1..])
  }

  /** `pg` is stored in the tree: as a top-level leaf of some section,
      or as a child of some group. */
  ghost predicate Stored(t: Tree, pg: Page) {
    exists i, j :: 0 <= i < |t| && 0 <= j < |t[i].entries| && pg in EntryPages(t[i].entries[j])
  }

  /** Membership in the flattened entries is membership in one entry's pages. */
  lemma {:induction false} InEntriesPages(es: seq<Entry>, pg: Page)
    ensures pg in EntriesPages(es) <==> exists j :: 0 <= j < |es| && pg in EntryPages(es[j])
    decreases |es|
  {
    if |es| > 0 {
      InEntriesPages(es[1..], pg);
      if pg in EntriesPages(es[1..]) {
        var j :| 0 <= j < |es[1..]| && pg in EntryPages(es[1..][j]);
        assert pg in EntryPages(es[j + 1]);
      }
      forall j | 0 < j < |es| && pg in EntryPages(es[j])
        ensures pg in EntriesPages(es[1..])
      {
        assert es[1..][j - 1] == es[j];
      }
    }
  }

  /** The flattened traversal holds exactly the stored pages. */
  lemma {:induction false} PagesAreStored(t: Tree, pg: Page)
    ensures pg in Pages(t) <==> Stored(t, pg)
    decreases |t|
  {
    if |t| > 0 {
      PagesAreStored(t[1..], pg);
      InEntriesPages(t[0].entries, pg);
      if pg in Pages(t[1..]) {
        var i, j :| 0 <= i < |t[1..]| && 0 <= j < |t[1..][i].entries| && pg in EntryPages(t[1..][i].entries[j]);
        assert pg in EntryPages(t[i + 1].entries[j]);
      }
      if Stored(t, pg) {
        var i, j :| 0 <= i < |t| && 0 <= j < |t[i].entries| && pg in EntryPages(t[i].entries[j]);
        if i > 0 {
          assert t[1..][i - 1] == t[i];
          assert Stored(t[1..], pg);
        }
      }
    }
  }

  /** Renaming one section changes no page of the traversal. */
  lemma {:induction false} RetitlePreservesPages(t: Tree, i: nat, title: string)
    requires i < |t|
    ensures Pages(t[i := Section(title, t[i].entries)]) == Pages(t)
    decreases |t|
  {
    var t' := t[i := Section(title, t[i].entries)];
    if i > 0 {
      assert t'[1..] == t[1..][i - 1 := Section(title, t[i].entries)];
      RetitlePreservesPages(t[1..], i - 1, title);
    } else {
      assert t'[1..] == t[1..];
    }
  }

  /** Renaming one group changes no page of the traversal. */
  lemma {:induction false} RenameGroupPreservesEntriesPages(es: seq<Entry>, j: nat, id: string)
    requires j < |es| && es[j].Group?
    ensures EntriesPages(es[j := Group(id, es[j].children)]) == EntriesPages(es)
    decreases |es|
  {
    var es' := es[j := Group(id, es[j].children)];
    if j > 0 {
      assert es'[1..] == es[1..][j - 1 := Group(id, es[j].children)];
      RenameGroupPreservesEntriesPages(es[1..], j - 1, id);
    } else {
      assert es'[1..] == es[1..];
    }
  }

  /** Renaming the group at entry `j` of section `i` changes no page of the traversal. */
  lemma {:induction false} RenameGroupPreservesPages(t: Tree, i: nat, j: nat, id: string)
    requires i < |t| && j < |t[i].entries| && t[i].entries[j].Group?
    ensures Pages(RenameGroup(t, i, j, id)) == Pages(t)
    decreases |t|
  {
    var t' := RenameGroup(t, i, j, id);
    if i > 0 {
      assert t'[1..] == RenameGroup(t[1..], i - 1, j, id);
      RenameGroupPreservesPages(t[1..], i - 1, j, id);
    } else {
      assert t'[1..] == t[1..];
      RenameGroupPreservesEntriesPages(t[0].entries, j, id);
    }
  }

  /** The tree with the group at entry `j` of section `i` renamed to `id`. */
  function RenameGroup(t: Tree, i: nat, j: nat, id: string): Tree
    requires i < |t| && j < |t[i].entries| && t[i].entries[j].Group?
  {
    var es := t[i].entries;
    t[i := Section(t[i].title, es[j := Group(id, es[j].children)])]
  }
}
