/** The reconciliation engine of sync/index.ts as methods over a client
    whose log records every create, update and delete.  Each method is
    proved to append exactly the calls its function in EngineSpec
    describes and to throw exactly when that function says so. */
module Engine {
  import opened Base
  import opened FileSystem
  import opened Remote
  import opened EngineSpec
  import Slugify

  /** `upsertDoc`: returns the store's document, or None where the promise
      rejects. */
  method UpsertDoc(client: Client, fs: Snapshot, tree: RemoteTree, categoryName: string,
                   file: Path, slug: Option<string>, parent: Option<Doc>) returns (doc: Option<Doc>)
    modifies client
    ensures var u := UpsertDocSpec(client.server, fs, tree, categoryName, file, slug, parent);
      client.log == old(client.log) + u.run.calls && doc == u.doc
  {
    var s := if slug.Some? && slug.value != "" then slug.value else Stem(LastName(file));
    var key := Slugify.Slugify(categoryName);
    if key !in tree {
      return None;
    }
    var existing := FindExisting(tree[key].docs, s);
    var document := ReadFile(fs, file);
    if document.None? {
      return None;
    }
    var form := DocForm(s, Lookup(document.value.data, "title"), document.value.content,
                        tree[key].category.id, ParentId(parent), false);
    var reply: Reply;
    if existing.Some? {
      reply := client.UpdateDoc(s, form);
    } else {
      reply := client.CreateDoc(form);
    }
    doc := if reply.Accepted? then Some(reply.doc) else None;
  }

  /** `upsertDir`: returns whether it threw. */
  method UpsertDir(client: Client, fs: Snapshot, tree: RemoteTree, categoryName: string, dir: Path)
    returns (threw: bool)
    modifies client
    ensures var r := UpsertDirSpec(client.server, fs, tree, categoryName, dir);
      client.log == old(client.log) + r.calls && threw == r.aborted
  {
    var listing := ReadDir(fs, dir);
    if listing.None? {
      return true;
    }
    var children := listing.value;
    if "index.md" !in children {
      // the program reports the missing index page and returns
      return false;
    }
    ghost var entry := client.log;
    var parent := UpsertDoc(client, fs, tree, categoryName, dir + ["index.md"],
                            Some(Slugify.Slugify(LastName(dir))), None);
    if parent.None? {
      return true;
    }
    ghost var index := client.log;
    threw := UpsertDirChildren(client, fs, tree, categoryName, dir, parent.value, children);
    AppendAssoc(entry, index[|entry|..], DirChildren(client.server, fs, tree, categoryName, dir, parent.value, children).calls);
    assert entry + index[|entry|..] == index;
  }

  /** The loop of `upsertDir` over the entries other than `index.md`. */
  method UpsertDirChildren(client: Client, fs: Snapshot, tree: RemoteTree, categoryName: string,
                           dir: Path, parent: Doc, children: seq<string>) returns (threw: bool)
    modifies client
    ensures var r := DirChildren(client.server, fs, tree, categoryName, dir, parent, children);
      client.log == old(client.log) + r.calls && threw == r.aborted
  {
    ghost var server := client.server;
    ghost var start := client.log;
    for i := 0 to |children|
      invariant client.server == server
      invariant !DirChildren(server, fs, tree, categoryName, dir, parent, children[..i]).aborted
      invariant client.log == start + DirChildren(server, fs, tree, categoryName, dir, parent, children[..i]).calls
    {
      var child := children[i];
      DirChildrenStep(server, fs, tree, categoryName, dir, parent, children, i);
      ghost var done := DirChildren(server, fs, tree, categoryName, dir, parent, children[..i]).calls;
      if child == "index.md" {
        assert done + [] == done;
        continue;
      }
      var d := UpsertDoc(client, fs, tree, categoryName, dir + [child], None, Some(parent));
      AppendAssoc(start, done, DirChild(server, fs, tree, categoryName, dir, parent, child).calls);
      if d.None? {
        DirChildrenThrew(server, fs, tree, categoryName, dir, parent, children, i + 1);
        return true;
      }
    }
    assert children[..|children|] == children;
    return false;
  }

  /** `deleteNotPresent`: returns whether it threw. */
  method DeleteNotPresent(client: Client, fs: Snapshot, entry: RemoteCategory, categoryDir: Path)
    returns (threw: bool)
    modifies client
    ensures var r := DeleteNotPresentSpec(client.server, fs, entry, categoryDir);
      client.log == old(client.log) + r.calls && threw == r.aborted
  {
    var docs := entry.docs;
    ghost var server := client.server;
    ghost var start := client.log;
    for i := 0 to |docs|
      invariant client.server == server
      invariant !DeleteDocs(server, fs, categoryDir, docs[..i]).aborted
      invariant client.log == start + DeleteDocs(server, fs, categoryDir, docs[..i]).calls
    {
      var t := DeleteDoc(client, fs, categoryDir, docs[i]);
      DeleteDocsStep(server, fs, categoryDir, docs, i);
      AppendAssoc(start, DeleteDocs(server, fs, categoryDir, docs[..i]).calls, DocDeletes(server, fs, categoryDir, docs[i]).calls);
      if t {
        DeleteDocsThrew(server, fs, categoryDir, docs, i + 1);
        return true;
      }
    }
    assert docs[..|docs|] == docs;
    return false;
  }

  /** One pass of the loop in `deleteNotPresent`: the matching local entry,
      the children, then the document itself. */
  method DeleteDoc(client: Client, fs: Snapshot, categoryDir: Path, d: DocSummary) returns (threw: bool)
    modifies client
    ensures var r := DocDeletes(client.server, fs, categoryDir, d);
      client.log == old(client.log) + r.calls && threw == r.aborted
  {
    var listing := ReadDir(fs, categoryDir);
    if listing.None? {
      return true;
    }
    var dir := MatchingEntry(listing.value, d.slug);
    ghost var server := client.server;
    ghost var start := client.log;
    var children := d.children;
    for j := 0 to |children|
      invariant client.server == server
      invariant !ChildDeletes(server, fs, categoryDir, dir, children[..j]).aborted
      invariant client.log == start + ChildDeletes(server, fs, categoryDir, dir, children[..j]).calls
    {
      var child := children[j];
      ChildDeletesStep(server, fs, categoryDir, dir, children, j);
      ghost var done := ChildDeletes(server, fs, categoryDir, dir, children[..j]).calls;
      if !Truthy(dir) || !Exists(fs, categoryDir + [dir.value, child.slug + ".md"]) {
        var reply := client.DeleteDoc(child.slug);
        AppendAssoc(start, done, [Delete(child.slug)]);
        if reply.Rejected? {
          ChildDeletesThrew(server, fs, categoryDir, dir, children, j + 1);
          return true;
        }
      } else {
        assert done + [] == done;
      }
    }
    assert children[..|children|] == children;
    ghost var done := ChildDeletes(server, fs, categoryDir, dir, children).calls;
    if !(Truthy(dir) && Exists(fs, categoryDir + [dir.value, "index.md"])) && !Exists(fs, categoryDir + [d.slug + ".md"]) {
      var reply := client.DeleteDoc(d.slug);
      AppendAssoc(start, done, [Delete(d.slug)]);
      return reply.Rejected?;
    }
    assert done + [] == done;
    return false;
  }

  /** The loop of `sync` over one category directory's entries. */
  method UpsertCategory(client: Client, fs: Snapshot, tree: RemoteTree, category: string, names: seq<string>)
    returns (threw: bool)
    modifies client
    ensures var r := CategoryDocs(client.server, fs, tree, category, names);
      client.log == old(client.log) + r.calls && threw == r.aborted
  {
    ghost var server := client.server;
    ghost var start := client.log;
    for i := 0 to |names|
      invariant client.server == server
      invariant !CategoryDocs(server, fs, tree, category, names[..i]).aborted
      invariant client.log == start + CategoryDocs(server, fs, tree, category, names[..i]).calls
    {
      var doc := names[i];
      CategoryDocsStep(server, fs, tree, category, names, i);
      ghost var done := CategoryDocs(server, fs, tree, category, names[..i]).calls;
      var t: bool;
      if IsDotEntry(doc) {
        assert done + [] == done;
        continue;
      } else if IsMarkdown(doc) {
        var d := UpsertDoc(client, fs, tree, category, [category, doc], None, None);
        t := d.None?;
      } else {
        t := UpsertDir(client, fs, tree, category, [category, doc]);
      }
      AppendAssoc(start, done, CategoryDoc(server, fs, tree, category, doc).calls);
      if t {
        CategoryDocsThrew(server, fs, tree, category, names, i + 1);
        return true;
      }
    }
    assert names[..|names|] == names;
    return false;
  }

  /** `sync`: returns whether it threw. */
  method Sync(client: Client, fs: Snapshot, tree: RemoteTree) returns (threw: bool)
    modifies client
    ensures var r := SyncSpec(client.server, fs, tree);
      client.log == old(client.log) + r.calls && threw == r.aborted
  {
    var listing := ReadDir(fs, []);
    if listing.None? {
      return true;
    }
    var categories := listing.value;
    ghost var server := client.server;
    ghost var start := client.log;
    for i := 0 to |categories|
      invariant client.server == server
      invariant !SyncCategories(server, fs, tree, categories[..i]).aborted
      invariant client.log == start + SyncCategories(server, fs, tree, categories[..i]).calls
    {
      var category := categories[i];
      SyncCategoriesStep(server, fs, tree, categories, i);
      ghost var done := SyncCategories(server, fs, tree, categories[..i]).calls;
      if IsDotEntry(category) {
        assert done + [] == done;
        continue;
      }
      var t := SyncOne(client, fs, tree, category);
      AppendAssoc(start, done, SyncCategory(server, fs, tree, category).calls);
      if t {
        SyncCategoriesThrew(server, fs, tree, categories, i + 1);
        return true;
      }
    }
    assert categories[..|categories|] == categories;
    return false;
  }

  /** The body of the loop in `sync` for one non-dot category. */
  method SyncOne(client: Client, fs: Snapshot, tree: RemoteTree, category: string) returns (threw: bool)
    requires !IsDotEntry(category)
    modifies client
    ensures var r := SyncCategory(client.server, fs, tree, category);
      client.log == old(client.log) + r.calls && threw == r.aborted
  {
    var listing := ReadDir(fs, [category]);
    if listing.None? {
      return true;
    }
    ghost var server := client.server;
    ghost var start := client.log;
    threw := UpsertCategory(client, fs, tree, category, listing.value);
    if threw {
      return;
    }
    ghost var done := CategoryDocs(server, fs, tree, category, listing.value).calls;
    var key := Slugify.Slugify(category);
    if key !in tree {
      assert done + [] == done;
      return true;
    }
    threw := DeleteNotPresent(client, fs, tree[key], [category]);
    AppendAssoc(start, done, DeletePass(server, fs, tree, category).calls);
  }

  /** `main`: returns whether the run threw.  The remote tree is built by
      `set` on a map, one fetch per non-dot category, before any call. */
  method Launch(client: Client, fetch: string -> Fetch, fs: Snapshot) returns (threw: bool)
    modifies client
    ensures var r := MainSpec(client.server, fetch, fs);
      client.log == old(client.log) + r.calls && threw == r.aborted
  {
    var listing := ReadDir(fs, []);
    if listing.None? {
      return true;
    }
    var localCategories := listing.value;
    var remoteTree: RemoteTree := map[];
    var errored := false;
    for i := 0 to |localCategories|
      invariant FetchAll(fetch, localCategories[..i]) == Gate(remoteTree, errored)
    {
      assert localCategories[..i + 1][..i] == localCategories[..i];
      var name := localCategories[i];
      if IsDotEntry(name) {
        continue;
      }
      var slug := Slugify.Slugify(name);
      match fetch(slug)
      case Found(category, docs) =>
        if category.slug == slug {
          remoteTree := remoteTree[slug := RemoteCategory(category, docs)];
        }
      case NotFound =>
        errored := true;
      case Failed =>
    }
    assert localCategories[..|localCategories|] == localCategories;
    if errored {
      return false;
    }
    threw := Sync(client, fs, remoteTree);
  }

  // One more element of a listing adds that element's run.

  lemma DirChildrenStep(server: Call -> Reply, fs: Snapshot, tree: RemoteTree, categoryName: string,
                        dir: Path, parent: Doc, names: seq<string>, i: nat)
    requires i < |names|
    ensures DirChildren(server, fs, tree, categoryName, dir, parent, names[..i + 1])
         == Then(DirChildren(server, fs, tree, categoryName, dir, parent, names[..i]),
                 DirChild(server, fs, tree, categoryName, dir, parent, names[i]))
  {
    assert names[..i + 1][..i] == names[..i];
  }

  lemma ChildDeletesStep(server: Call -> Reply, fs: Snapshot, categoryDir: Path, dir: Option<string>,
                         children: seq<ChildSummary>, j: nat)
    requires j < |children|
    ensures ChildDeletes(server, fs, categoryDir, dir, children[..j + 1])
         == Then(ChildDeletes(server, fs, categoryDir, dir, children[..j]),
                 if ChildGone(fs, categoryDir, dir, children[j]) then DeleteCall(server, children[j].slug) else Nothing)
  {
    assert children[..j + 1][..j] == children[..j];
  }

  lemma DeleteDocsStep(server: Call -> Reply, fs: Snapshot, categoryDir: Path, docs: seq<DocSummary>, i: nat)
    requires i < |docs|
    ensures DeleteDocs(server, fs, categoryDir, docs[..i + 1])
         == Then(DeleteDocs(server, fs, categoryDir, docs[..i]), DocDeletes(server, fs, categoryDir, docs[i]))
  {
    assert docs[..i + 1][..i] == docs[..i];
  }

  lemma CategoryDocsStep(server: Call -> Reply, fs: Snapshot, tree: RemoteTree, category: string, names: seq<string>, i: nat)
    requires i < |names|
    ensures CategoryDocs(server, fs, tree, category, names[..i + 1])
         == Then(CategoryDocs(server, fs, tree, category, names[..i]), CategoryDoc(server, fs, tree, category, names[i]))
  {
    assert names[..i + 1][..i] == names[..i];
  }

  lemma SyncCategoriesStep(server: Call -> Reply, fs: Snapshot, tree: RemoteTree, names: seq<string>, i: nat)
    requires i < |names|
    ensures SyncCategories(server, fs, tree, names[..i + 1])
         == Then(SyncCategories(server, fs, tree, names[..i]), SyncCategory(server, fs, tree, names[i]))
  {
    assert names[..i + 1][..i] == names[..i];
  }

  // Once a prefix of a loop throws, the whole loop's run is that prefix's.

  lemma {:induction false} DirChildrenThrew(server: Call -> Reply, fs: Snapshot, tree: RemoteTree, categoryName: string,
                                            dir: Path, parent: Doc, names: seq<string>, k: nat)
    requires k <= |names| && DirChildren(server, fs, tree, categoryName, dir, parent, names[..k]).aborted
    ensures DirChildren(server, fs, tree, categoryName, dir, parent, names)
         == DirChildren(server, fs, tree, categoryName, dir, parent, names[..k])
    decreases |names| - k
  {
    if k < |names| {
      assert names[..k + 1][..k] == names[..k];
      DirChildrenThrew(server, fs, tree, categoryName, dir, parent, names, k + 1);
    } else {
      assert names[..k] == names;
    }
  }

  lemma {:induction false} ChildDeletesThrew(server: Call -> Reply, fs: Snapshot, categoryDir: Path, dir: Option<string>,
                                             children: seq<ChildSummary>, k: nat)
    requires k <= |children| && ChildDeletes(server, fs, categoryDir, dir, children[..k]).aborted
    ensures ChildDeletes(server, fs, categoryDir, dir, children) == ChildDeletes(server, fs, categoryDir, dir, children[..k])
    decreases |children| - k
  {
    if k < |children| {
      assert children[..k + 1][..k] == children[..k];
      ChildDeletesThrew(server, fs, categoryDir, dir, children, k + 1);
    } else {
      assert children[..k] == children;
    }
  }

  lemma {:induction false} DeleteDocsThrew(server: Call -> Reply, fs: Snapshot, categoryDir: Path, docs: seq<DocSummary>, k: nat)
    requires k <= |docs| && DeleteDocs(server, fs, categoryDir, docs[..k]).aborted
    ensures DeleteDocs(server, fs, categoryDir, docs) == DeleteDocs(server, fs, categoryDir, docs[..k])
    decreases |docs| - k
  {
    if k < |docs| {
      assert docs[..k + 1][..k] == docs[..k];
      DeleteDocsThrew(server, fs, categoryDir, docs, k + 1);
    } else {
      assert docs[..k] == docs;
    }
  }

  lemma {:induction false} CategoryDocsThrew(server: Call -> Reply, fs: Snapshot, tree: RemoteTree, category: string,
                                             names: seq<string>, k: nat)
    requires k <= |names| && CategoryDocs(server, fs, tree, category, names[..k]).aborted
    ensures CategoryDocs(server, fs, tree, category, names) == CategoryDocs(server, fs, tree, category, names[..k])
    decreases |names| - k
  {
    if k < |names| {
      assert names[..k + 1][..k] == names[..k];
      CategoryDocsThrew(server, fs, tree, category, names, k + 1);
    } else {
      assert names[..k] == names;
    }
  }

  lemma {:induction false} SyncCategoriesThrew(server: Call -> Reply, fs: Snapshot, tree: RemoteTree, names: seq<string>, k: nat)
    requires k <= |names| && SyncCategories(server, fs, tree, names[..k]).aborted
    ensures SyncCategories(server, fs, tree, names) == SyncCategories(server, fs, tree, names[..k])
    decreases |names| - k
  {
    if k < |names| {
      assert names[..k + 1][..k] == names[..k];
      SyncCategoriesThrew(server, fs, tree, names, k + 1);
    } else {
      assert names[..k] == names;
    }
  }
}
