/** The decisions of the reconciliation engine (sync/index.ts), as
    functions of the file-system snapshot, the in-memory remote tree and the
    store's replies: which calls it issues, in which order, and where it
    stops.  The remote tree is a value here: nothing in the engine changes
    it once `main` has built it. */
module EngineSpec {
  import opened Base
  import opened FileSystem
  import opened Remote
  import Slugify

  // ---------------------------------------------------------------------
  // upsertDoc

  /** A summary has a slug when it, or one of its children, carries it. */
  predicate HasSlug(d: DocSummary, slug: string)
  {
    d.slug == slug || exists c :: c in d.children && c.slug == slug
  }

  /** `docs.find(...)` at sync/index.ts:30-35: the first summary that has
      the slug. */
  function FindExisting(docs: seq<DocSummary>, slug: string): (r: Option<DocSummary>)
    ensures r.Some? ==> r.value in docs && HasSlug(r.value, slug)
    ensures r.None? <==> forall d :: d in docs ==> !HasSlug(d, slug)
  {
    if docs == [] then None
    else if HasSlug(docs[0], slug) then Some(docs[0])
    else FindExisting(docs[1..], slug)
  }

  /** `options.slug || path.parse(filepath).name`: an empty override counts
      as absent, and the file's own name is not slugified. */
  function SlugFor(file: Path, slug: Option<string>): string
  {
    if slug.Some? && slug.value != "" then slug.value else Stem(LastName(file))
  }

  function ParentId(parent: Option<Doc>): Option<string>
  {
    if parent.Some? then Some(parent.value.id) else None
  }

  /** The create or update `upsertDoc` sends for a document. */
  function UpsertCall(entry: RemoteCategory, document: Document, slug: string, parent: Option<Doc>): Call
  {
    var form := DocForm(slug, Lookup(document.data, "title"), document.content, entry.category.id, ParentId(parent), false);
    if FindExisting(entry.docs, slug).Some? then Update(slug, form) else Create(form)
  }

  /** What an upsert did, and the document the store returned. */
  datatype Upsert = Upsert(run: Run, doc: Option<Doc>)

  /** One awaited call: a rejection throws. */
  function Send(server: Call -> Reply, call: Call): Upsert
  {
    match server(call)
    case Accepted(d) => Upsert(Run([call], false), Some(d))
    case Rejected => Upsert(Run([call], true), None)
  }

  /** `upsertDoc`: a category missing from the remote tree, or a path that
      is not a readable file, throws before any call. */
  function UpsertDocSpec(server: Call -> Reply, fs: Snapshot, tree: RemoteTree, categoryName: string,
                         file: Path, slug: Option<string>, parent: Option<Doc>): Upsert
  {
    var key := Slugify.Slugify(categoryName);
    if key !in tree || !IsFile(fs, file) then Upsert(Throws, None)
    else Send(server, UpsertCall(tree[key], fs[file].doc, SlugFor(file, slug), parent))
  }

  /** The slug a call is about. */
  function SlugOf(c: Call): string
  {
    match c
    case Create(form) => form.slug
    case Update(slug, _) => slug
    case Delete(slug) => slug
  }

  /** The calls create or update documents whose parent is `parentDoc`. */
  predicate Upserts(calls: seq<Call>, parentDoc: Option<string>)
  {
    forall k :: 0 <= k < |calls| ==> !calls[k].Delete? && calls[k].form.parentDoc == parentDoc
  }

  /** `upsertDoc` issues at most one call.  It updates exactly when a remote
      document or one of its children already has the slug, and creates
      otherwise; the form carries the slug, the front-matter title, the body,
      the category's id and the parent's id, and is never hidden.  The
      returned document is the store's reply; a rejection throws. */
  lemma UpsertDocDecides(server: Call -> Reply, fs: Snapshot, tree: RemoteTree, categoryName: string,
                         file: Path, slug: Option<string>, parent: Option<Doc>)
    ensures var u := UpsertDocSpec(server, fs, tree, categoryName, file, slug, parent);
      var key := Slugify.Slugify(categoryName);
      (u.run.calls == [] <==> key !in tree || !IsFile(fs, file))
      && (u.run.calls == [] ==> u.run.aborted && u.doc.None?)
      && (u.run.calls != [] ==>
            var c := u.run.calls[0];
            var s := SlugFor(file, slug);
            |u.run.calls| == 1 && !c.Delete?
            && (c.Update? <==> exists d :: d in tree[key].docs && HasSlug(d, s))
            && SlugOf(c) == s && c.form.slug == s
            && c.form.title == Lookup(fs[file].doc.data, "title")
            && c.form.body == fs[file].doc.content
            && c.form.category == tree[key].category.id
            && c.form.parentDoc == ParentId(parent)
            && !c.form.hidden
            && (u.run.aborted <==> server(c).Rejected?)
            && (u.doc.Some? <==> !u.run.aborted)
            && (u.doc.Some? ==> u.doc.value == server(c).doc))
  {
  }

  /** The slug of a markdown file is its name without `.md`, as written:
      spaces and capitals are kept. */
  lemma MarkdownSlugNotSlugified()
    ensures SlugFor(["Guides", "My Doc.md"], None) == "My Doc"
    ensures SlugFor(["Guides", "My Doc.md"], Some("")) == "My Doc"
    ensures SlugFor(["Guides", "Group", "index.md"], Some("group")) == "group"
  {
    MarkdownStem("My Doc.md");
    assert "My Doc.md"[..6] == "My Doc";
  }

  lemma UpsertDocStops(server: Call -> Reply, fs: Snapshot, tree: RemoteTree, categoryName: string,
                       file: Path, slug: Option<string>, parent: Option<Doc>)
    ensures StopsAtRejection(server, UpsertDocSpec(server, fs, tree, categoryName, file, slug, parent).run)
  {
  }

  // ---------------------------------------------------------------------
  // upsertDir

  /** One entry of a group directory other than `index.md`, upserted under
      the index's document whatever its name. */
  function DirChild(server: Call -> Reply, fs: Snapshot, tree: RemoteTree, categoryName: string,
                    dir: Path, parent: Doc, name: string): Run
  {
    if name == "index.md" then Nothing
    else UpsertDocSpec(server, fs, tree, categoryName, dir + [name], None, Some(parent)).run
  }

  function DirChildren(server: Call -> Reply, fs: Snapshot, tree: RemoteTree, categoryName: string,
                       dir: Path, parent: Doc, names: seq<string>): Run
  {
    if names == [] then Nothing
    else Then(DirChildren(server, fs, tree, categoryName, dir, parent, names[..|names| - 1]),
              DirChild(server, fs, tree, categoryName, dir, parent, names[|names| - 1]))
  }

  /** The slug given to the index of a group directory. */
  function IndexSlug(dir: Path): string
  {
    SlugFor(dir + ["index.md"], Some(Slugify.Slugify(LastName(dir))))
  }

  /** `upsertDir`: without `index.md` it reports and returns with no call;
      otherwise the index is upserted first and every other entry, in
      listing order, under it. */
  function UpsertDirSpec(server: Call -> Reply, fs: Snapshot, tree: RemoteTree, categoryName: string, dir: Path): Run
  {
    match ReadDir(fs, dir)
    case None => Throws
    case Some(children) =>
      if "index.md" !in children then Nothing
      else
        var index := UpsertDocSpec(server, fs, tree, categoryName, dir + ["index.md"],
                                   Some(Slugify.Slugify(LastName(dir))), None);
        match index.doc
        case None => index.run
        case Some(parent) => Then(index.run, DirChildren(server, fs, tree, categoryName, dir, parent, children))
  }

  /** The slugs of the entries `upsertDir` upserts after the index, in
      order: every entry but `index.md`, dot files and sub-directories
      included. */
  function ChildSlugs(names: seq<string>): seq<string>
  {
    if names == [] then []
    else ChildSlugs(names[..|names| - 1]) + (if names[|names| - 1] == "index.md" then [] else [Stem(names[|names| - 1])])
  }

  function SlugsOf(calls: seq<Call>): seq<string>
  {
    if calls == [] then [] else SlugsOf(calls[..|calls| - 1]) + [SlugOf(calls[|calls| - 1])]
  }

  lemma {:induction false} SlugsOfAppend(a: seq<Call>, b: seq<Call>)
    ensures SlugsOf(a + b) == SlugsOf(a) + SlugsOf(b)
  {
    if b != [] {
      assert (a + b)[..|a + b| - 1] == a + b[..|b| - 1];
      SlugsOfAppend(a, b[..|b| - 1]);
    } else {
      assert a + b == a;
    }
  }

  /** One entry of a group, when its upsert completes: a call for its stem
      under the index document, or no call for `index.md` itself. */
  lemma DirChildCalls(server: Call -> Reply, fs: Snapshot, tree: RemoteTree, categoryName: string,
                      dir: Path, parent: Doc, name: string)
    requires !DirChild(server, fs, tree, categoryName, dir, parent, name).aborted
    ensures var calls := DirChild(server, fs, tree, categoryName, dir, parent, name).calls;
      SlugsOf(calls) == (if name == "index.md" then [] else [Stem(name)]) && Upserts(calls, Some(parent.id))
  {
    if name != "index.md" {
      var calls := DirChild(server, fs, tree, categoryName, dir, parent, name).calls;
      assert LastName(dir + [name]) == name;
      assert |calls| == 1 && calls[..0] == [];
    }
  }

  lemma UpsertsAppend(a: seq<Call>, b: seq<Call>, parentDoc: Option<string>)
    requires Upserts(a, parentDoc) && Upserts(b, parentDoc)
    ensures Upserts(a + b, parentDoc)
  {
    forall k | 0 <= k < |a + b|
      ensures !(a + b)[k].Delete? && (a + b)[k].form.parentDoc == parentDoc
    {
      if k >= |a| {
        assert (a + b)[k] == b[k - |a|];
      }
    }
  }

  lemma {:induction false} DirChildrenCalls(server: Call -> Reply, fs: Snapshot, tree: RemoteTree, categoryName: string,
                                            dir: Path, parent: Doc, names: seq<string>)
    requires !DirChildren(server, fs, tree, categoryName, dir, parent, names).aborted
    ensures var r := DirChildren(server, fs, tree, categoryName, dir, parent, names);
      SlugsOf(r.calls) == ChildSlugs(names) && Upserts(r.calls, Some(parent.id))
  {
    if names != [] {
      var init := names[..|names| - 1];
      var last := names[|names| - 1];
      var ra := DirChildren(server, fs, tree, categoryName, dir, parent, init);
      var rb := DirChild(server, fs, tree, categoryName, dir, parent, last);
      assert DirChildren(server, fs, tree, categoryName, dir, parent, names) == Then(ra, rb);
      DirChildrenCalls(server, fs, tree, categoryName, dir, parent, init);
      DirChildCalls(server, fs, tree, categoryName, dir, parent, last);
      SlugsOfAppend(ra.calls, rb.calls);
      UpsertsAppend(ra.calls, rb.calls, Some(parent.id));
    }
  }

  /** A group directory without `index.md` issues no call and does not
      throw. */
  lemma UpsertDirMissingIndex(server: Call -> Reply, fs: Snapshot, tree: RemoteTree, categoryName: string, dir: Path)
    requires IsDir(fs, dir) && "index.md" !in fs[dir].entries
    ensures UpsertDirSpec(server, fs, tree, categoryName, dir) == Nothing
  {
  }

  /** When `upsertDir` completes on a directory with `index.md`, its first
      call upserts the index at the top level under the slugified directory
      name, and the rest upsert every other entry in listing order, each
      under the document the store returned for the index. */
  lemma UpsertDirCalls(server: Call -> Reply, fs: Snapshot, tree: RemoteTree, categoryName: string, dir: Path)
    requires IsDir(fs, dir) && "index.md" in fs[dir].entries
    requires !UpsertDirSpec(server, fs, tree, categoryName, dir).aborted
    ensures var r := UpsertDirSpec(server, fs, tree, categoryName, dir);
      |r.calls| >= 1
      && SlugsOf(r.calls) == [IndexSlug(dir)] + ChildSlugs(fs[dir].entries)
      && Upserts(r.calls[..1], None)
      && server(r.calls[0]).Accepted?
      && Upserts(r.calls[1..], Some(server(r.calls[0]).doc.id))
  {
    var index := UpsertDocSpec(server, fs, tree, categoryName, dir + ["index.md"], Some(Slugify.Slugify(LastName(dir))), None);
    UpsertDocDecides(server, fs, tree, categoryName, dir + ["index.md"], Some(Slugify.Slugify(LastName(dir))), None);
    var parent := index.doc.value;
    var rest := DirChildren(server, fs, tree, categoryName, dir, parent, fs[dir].entries);
    DirChildrenCalls(server, fs, tree, categoryName, dir, parent, fs[dir].entries);
    var r := UpsertDirSpec(server, fs, tree, categoryName, dir);
    assert r.calls == index.run.calls + rest.calls;
    SlugsOfAppend(index.run.calls, rest.calls);
    assert SlugsOf(index.run.calls) == [IndexSlug(dir)] by {
      assert index.run.calls[..0] == [];
    }
    assert r.calls[1..] == rest.calls;
  }

  lemma {:induction false} DirChildrenStops(server: Call -> Reply, fs: Snapshot, tree: RemoteTree, categoryName: string,
                                            dir: Path, parent: Doc, names: seq<string>)
    ensures StopsAtRejection(server, DirChildren(server, fs, tree, categoryName, dir, parent, names))
  {
    if names != [] {
      DirChildrenStops(server, fs, tree, categoryName, dir, parent, names[..|names| - 1]);
      ThenStops(server, DirChildren(server, fs, tree, categoryName, dir, parent, names[..|names| - 1]),
                DirChild(server, fs, tree, categoryName, dir, parent, names[|names| - 1]));
    }
  }

  lemma UpsertDirStops(server: Call -> Reply, fs: Snapshot, tree: RemoteTree, categoryName: string, dir: Path)
    ensures StopsAtRejection(server, UpsertDirSpec(server, fs, tree, categoryName, dir))
  {
    if IsDir(fs, dir) && "index.md" in fs[dir].entries {
      var index := UpsertDocSpec(server, fs, tree, categoryName, dir + ["index.md"], Some(Slugify.Slugify(LastName(dir))), None);
      if index.doc.Some? {
        DirChildrenStops(server, fs, tree, categoryName, dir, index.doc.value, fs[dir].entries);
        ThenStops(server, index.run, DirChildren(server, fs, tree, categoryName, dir, index.doc.value, fs[dir].entries));
      }
    }
  }

  // ---------------------------------------------------------------------
  // deleteNotPresent

  /** `readdirSync(categoryDir).find(d => slugify(d) === slug)`. */
  function MatchingEntry(listing: seq<string>, slug: string): (r: Option<string>)
    ensures r.Some? ==> r.value in listing && Slugify.Slugify(r.value) == slug
    ensures r.None? <==> forall d :: d in listing ==> Slugify.Slugify(d) != slug
  {
    if listing == [] then None
    else if Slugify.Slugify(listing[0]) == slug then Some(listing[0])
    else MatchingEntry(listing[1..], slug)
  }

  /** A found entry name is truthy unless it is empty. */
  predicate Truthy(dir: Option<string>)
  {
    dir.Some? && dir.value != ""
  }

  /** A remote child is deleted when no local entry matches its parent or
      that entry has no `<child slug>.md`. */
  predicate ChildGone(fs: Snapshot, categoryDir: Path, dir: Option<string>, c: ChildSummary)
  {
    !Truthy(dir) || !Exists(fs, categoryDir + [dir.value, c.slug + ".md"])
  }

  /** A remote top-level document is deleted when neither the matching entry
      has `index.md` nor the category has `<slug>.md`. */
  predicate ParentGone(fs: Snapshot, categoryDir: Path, dir: Option<string>, d: DocSummary)
  {
    !(Truthy(dir) && Exists(fs, categoryDir + [dir.value, "index.md"])) && !Exists(fs, categoryDir + [d.slug + ".md"])
  }

  function DeleteCall(server: Call -> Reply, slug: string): Run
  {
    Run([Delete(slug)], server(Delete(slug)).Rejected?)
  }

  function ChildDeletes(server: Call -> Reply, fs: Snapshot, categoryDir: Path, dir: Option<string>,
                        children: seq<ChildSummary>): Run
  {
    if children == [] then Nothing
    else
      var last := children[|children| - 1];
      Then(ChildDeletes(server, fs, categoryDir, dir, children[..|children| - 1]),
           if ChildGone(fs, categoryDir, dir, last) then DeleteCall(server, last.slug) else Nothing)
  }

  /** One remote document: its children first, then itself. */
  function DocDeletes(server: Call -> Reply, fs: Snapshot, categoryDir: Path, d: DocSummary): Run
  {
    match ReadDir(fs, categoryDir)
    case None => Throws
    case Some(listing) =>
      var dir := MatchingEntry(listing, d.slug);
      Then(ChildDeletes(server, fs, categoryDir, dir, d.children),
           if ParentGone(fs, categoryDir, dir, d) then DeleteCall(server, d.slug) else Nothing)
  }

  function DeleteDocs(server: Call -> Reply, fs: Snapshot, categoryDir: Path, docs: seq<DocSummary>): Run
  {
    if docs == [] then Nothing
    else Then(DeleteDocs(server, fs, categoryDir, docs[..|docs| - 1]), DocDeletes(server, fs, categoryDir, docs[|docs| - 1]))
  }

  /** `deleteNotPresent`, over the documents of one remote category. */
  function DeleteNotPresentSpec(server: Call -> Reply, fs: Snapshot, entry: RemoteCategory, categoryDir: Path): Run
  {
    DeleteDocs(server, fs, categoryDir, entry.docs)
  }

  predicate AllDeletes(calls: seq<Call>)
  {
    forall k :: 0 <= k < |calls| ==> calls[k].Delete?
  }

  /** When the child pass completes, every child that is gone is deleted. */
  lemma {:induction false} ChildDeletesCovers(server: Call -> Reply, fs: Snapshot, categoryDir: Path,
                                              dir: Option<string>, children: seq<ChildSummary>)
    requires !ChildDeletes(server, fs, categoryDir, dir, children).aborted
    ensures var calls := ChildDeletes(server, fs, categoryDir, dir, children).calls;
      forall c :: c in children && ChildGone(fs, categoryDir, dir, c) ==> Delete(c.slug) in calls
  {
    if children != [] {
      var init, last := children[..|children| - 1], children[|children| - 1];
      assert children == init + [last];
      var a := ChildDeletes(server, fs, categoryDir, dir, init);
      var p := if ChildGone(fs, categoryDir, dir, last) then DeleteCall(server, last.slug) else Nothing;
      var calls := a.calls + p.calls;
      assert ChildDeletes(server, fs, categoryDir, dir, children) == Then(a, p);
      ChildDeletesCovers(server, fs, categoryDir, dir, init);
      forall c | c in children && ChildGone(fs, categoryDir, dir, c)
        ensures Delete(c.slug) in calls
      {
        if c == last {
          assert calls[|a.calls|] == Delete(c.slug);
        } else {
          assert c in init;
          assert Delete(c.slug) in a.calls;
        }
      }
    }
  }

  /** Call `k` of the child pass deletes `c`, a child that is gone. */
  lemma {:induction false} ChildDeleteWitness(server: Call -> Reply, fs: Snapshot, categoryDir: Path,
                                              dir: Option<string>, children: seq<ChildSummary>, k: nat)
    returns (c: ChildSummary)
    requires k < |ChildDeletes(server, fs, categoryDir, dir, children).calls|
    ensures c in children && ChildGone(fs, categoryDir, dir, c)
    ensures ChildDeletes(server, fs, categoryDir, dir, children).calls[k] == Delete(c.slug)
  {
    var init, last := children[..|children| - 1], children[|children| - 1];
    assert children == init + [last];
    var a := ChildDeletes(server, fs, categoryDir, dir, init);
    var p := if ChildGone(fs, categoryDir, dir, last) then DeleteCall(server, last.slug) else Nothing;
    var calls := ChildDeletes(server, fs, categoryDir, dir, children).calls;
    assert calls == if a.aborted then a.calls else a.calls + p.calls;
    if k < |a.calls| {
      c := ChildDeleteWitness(server, fs, categoryDir, dir, init, k);
      assert calls[k] == a.calls[k];
    } else {
      c := last;
      assert calls[k] == p.calls[k - |a.calls|];
    }
  }

  /** Every call of the child pass deletes a child that is gone. */
  lemma ChildDeletesOnlyGone(server: Call -> Reply, fs: Snapshot, categoryDir: Path,
                             dir: Option<string>, children: seq<ChildSummary>)
    ensures var calls := ChildDeletes(server, fs, categoryDir, dir, children).calls;
      forall k :: 0 <= k < |calls| ==>
        exists c :: c in children && ChildGone(fs, categoryDir, dir, c) && calls[k] == Delete(c.slug)
  {
    var calls := ChildDeletes(server, fs, categoryDir, dir, children).calls;
    forall k | 0 <= k < |calls|
      ensures exists c :: c in children && ChildGone(fs, categoryDir, dir, c) && calls[k] == Delete(c.slug)
    {
      var c := ChildDeleteWitness(server, fs, categoryDir, dir, children, k);
    }
  }

  /** When the child pass completes, it deletes exactly the children that
      are gone: every call is the delete of such a child, and every such
      child is deleted. */
  lemma ChildDeletesExact(server: Call -> Reply, fs: Snapshot, categoryDir: Path, dir: Option<string>,
                          children: seq<ChildSummary>)
    requires !ChildDeletes(server, fs, categoryDir, dir, children).aborted
    ensures var calls := ChildDeletes(server, fs, categoryDir, dir, children).calls;
      AllDeletes(calls)
      && (forall c :: c in children && ChildGone(fs, categoryDir, dir, c) ==> Delete(c.slug) in calls)
      && (forall k :: 0 <= k < |calls| ==>
            exists c :: c in children && ChildGone(fs, categoryDir, dir, c) && calls[k] == Delete(c.slug))
  {
    ChildDeletesStops(server, fs, categoryDir, dir, children);
    ChildDeletesCovers(server, fs, categoryDir, dir, children);
    ChildDeletesOnlyGone(server, fs, categoryDir, dir, children);
  }

  /** For one remote document, when the pass completes: the deletes of its
      children, which `ChildDeletesExact` characterises, come first; the
      document itself is deleted after them exactly when it is gone; no
      other call is made. */
  lemma DocDeletesOrder(server: Call -> Reply, fs: Snapshot, categoryDir: Path, d: DocSummary)
    requires IsDir(fs, categoryDir)
    requires !DocDeletes(server, fs, categoryDir, d).aborted
    ensures var dir := MatchingEntry(fs[categoryDir].entries, d.slug);
      var children := ChildDeletes(server, fs, categoryDir, dir, d.children);
      !children.aborted
      && DocDeletes(server, fs, categoryDir, d).calls
         == children.calls + (if ParentGone(fs, categoryDir, dir, d) then [Delete(d.slug)] else [])
      && AllDeletes(DocDeletes(server, fs, categoryDir, d).calls)
  {
    var dir := MatchingEntry(fs[categoryDir].entries, d.slug);
    var a := ChildDeletes(server, fs, categoryDir, dir, d.children);
    var p := if ParentGone(fs, categoryDir, dir, d) then DeleteCall(server, d.slug) else Nothing;
    assert DocDeletes(server, fs, categoryDir, d) == Then(a, p);
    ChildDeletesStops(server, fs, categoryDir, dir, d.children);
    var calls := a.calls + p.calls;
    forall k | 0 <= k < |calls|
      ensures calls[k].Delete?
    {
      if k >= |a.calls| {
        assert calls[k] == p.calls[k - |a.calls|];
      } else {
        assert calls[k] == a.calls[k];
      }
    }
  }

  lemma {:induction false} DeleteDocsAllDeletes(server: Call -> Reply, fs: Snapshot, categoryDir: Path, docs: seq<DocSummary>)
    ensures AllDeletes(DeleteDocs(server, fs, categoryDir, docs).calls)
    ensures StopsAtRejection(server, DeleteDocs(server, fs, categoryDir, docs))
  {
    if docs != [] {
      var init := docs[..|docs| - 1];
      var d := docs[|docs| - 1];
      DeleteDocsAllDeletes(server, fs, categoryDir, init);
      var a := DeleteDocs(server, fs, categoryDir, init);
      var b := DocDeletes(server, fs, categoryDir, d);
      if IsDir(fs, categoryDir) {
        var dir := MatchingEntry(fs[categoryDir].entries, d.slug);
        ChildDeletesStops(server, fs, categoryDir, dir, d.children);
        var p := if ParentGone(fs, categoryDir, dir, d) then DeleteCall(server, d.slug) else Nothing;
        ThenStops(server, ChildDeletes(server, fs, categoryDir, dir, d.children), p);
      }
      ThenStops(server, a, b);
    }
  }

  lemma {:induction false} ChildDeletesStops(server: Call -> Reply, fs: Snapshot, categoryDir: Path, dir: Option<string>,
                                             children: seq<ChildSummary>)
    ensures AllDeletes(ChildDeletes(server, fs, categoryDir, dir, children).calls)
    ensures StopsAtRejection(server, ChildDeletes(server, fs, categoryDir, dir, children))
  {
    if children != [] {
      var init := children[..|children| - 1];
      var last := children[|children| - 1];
      ChildDeletesStops(server, fs, categoryDir, dir, init);
      var p := if ChildGone(fs, categoryDir, dir, last) then DeleteCall(server, last.slug) else Nothing;
      ThenStops(server, ChildDeletes(server, fs, categoryDir, dir, init), p);
    }
  }

  // ---------------------------------------------------------------------
  // sync

  /** One entry of a category directory: dot entries are skipped, markdown
      files are upserted at the top level, everything else is a group. */
  function CategoryDoc(server: Call -> Reply, fs: Snapshot, tree: RemoteTree, category: string, name: string): Run
  {
    if IsDotEntry(name) then Nothing
    else if IsMarkdown(name) then UpsertDocSpec(server, fs, tree, category, [category, name], None, None).run
    else UpsertDirSpec(server, fs, tree, category, [category, name])
  }

  function CategoryDocs(server: Call -> Reply, fs: Snapshot, tree: RemoteTree, category: string, names: seq<string>): Run
  {
    if names == [] then Nothing
    else Then(CategoryDocs(server, fs, tree, category, names[..|names| - 1]),
              CategoryDoc(server, fs, tree, category, names[|names| - 1]))
  }

  /** The deletion pass of a category; a category missing from the remote
      tree throws. */
  function DeletePass(server: Call -> Reply, fs: Snapshot, tree: RemoteTree, category: string): Run
  {
    var key := Slugify.Slugify(category);
    if key !in tree then Throws else DeleteNotPresentSpec(server, fs, tree[key], [category])
  }

  /** One top-level entry: a dot entry is skipped; anything else is listed
      (a plain file makes the listing throw), its entries are upserted, and
      then the deletion pass runs. */
  function SyncCategory(server: Call -> Reply, fs: Snapshot, tree: RemoteTree, category: string): Run
  {
    if IsDotEntry(category) then Nothing
    else
      match ReadDir(fs, [category])
      case None => Throws
      case Some(names) => Then(CategoryDocs(server, fs, tree, category, names), DeletePass(server, fs, tree, category))
  }

  function SyncCategories(server: Call -> Reply, fs: Snapshot, tree: RemoteTree, names: seq<string>): Run
  {
    if names == [] then Nothing
    else Then(SyncCategories(server, fs, tree, names[..|names| - 1]), SyncCategory(server, fs, tree, names[|names| - 1]))
  }

  /** `sync`. */
  function SyncSpec(server: Call -> Reply, fs: Snapshot, tree: RemoteTree): Run
  {
    match ReadDir(fs, [])
    case None => Throws
    case Some(names) => SyncCategories(server, fs, tree, names)
  }

  predicate NoDeletes(calls: seq<Call>)
  {
    forall k :: 0 <= k < |calls| ==> !calls[k].Delete?
  }

  lemma UpsertDirNoDeletes(server: Call -> Reply, fs: Snapshot, tree: RemoteTree, categoryName: string, dir: Path)
    ensures NoDeletes(UpsertDirSpec(server, fs, tree, categoryName, dir).calls)
  {
    if IsDir(fs, dir) && "index.md" in fs[dir].entries {
      var index := UpsertDocSpec(server, fs, tree, categoryName, dir + ["index.md"], Some(Slugify.Slugify(LastName(dir))), None);
      UpsertDocDecides(server, fs, tree, categoryName, dir + ["index.md"], Some(Slugify.Slugify(LastName(dir))), None);
      assert NoDeletes(index.run.calls);
      if index.doc.Some? {
        var children := DirChildren(server, fs, tree, categoryName, dir, index.doc.value, fs[dir].entries);
        DirChildrenNoDeletes(server, fs, tree, categoryName, dir, index.doc.value, fs[dir].entries);
        NoDeletesAppend(index.run.calls, children.calls);
      }
    }
  }

  lemma NoDeletesAppend(a: seq<Call>, b: seq<Call>)
    requires NoDeletes(a) && NoDeletes(b)
    ensures NoDeletes(a + b)
  {
    forall k | 0 <= k < |a + b| ensures !(a + b)[k].Delete? {
      if k < |a| { assert (a + b)[k] == a[k]; } else { assert (a + b)[k] == b[k - |a|]; }
    }
  }

  lemma {:induction false} DirChildrenNoDeletes(server: Call -> Reply, fs: Snapshot, tree: RemoteTree, categoryName: string,
                                                dir: Path, parent: Doc, names: seq<string>)
    ensures NoDeletes(DirChildren(server, fs, tree, categoryName, dir, parent, names).calls)
  {
    if names != [] {
      var last := names[|names| - 1];
      DirChildrenNoDeletes(server, fs, tree, categoryName, dir, parent, names[..|names| - 1]);
      UpsertDocDecides(server, fs, tree, categoryName, dir + [last], None, Some(parent));
    }
  }

  lemma {:induction false} CategoryDocsFacts(server: Call -> Reply, fs: Snapshot, tree: RemoteTree, category: string, names: seq<string>)
    ensures NoDeletes(CategoryDocs(server, fs, tree, category, names).calls)
    ensures StopsAtRejection(server, CategoryDocs(server, fs, tree, category, names))
  {
    if names != [] {
      var last := names[|names| - 1];
      CategoryDocsFacts(server, fs, tree, category, names[..|names| - 1]);
      UpsertDocDecides(server, fs, tree, category, [category, last], None, None);
      UpsertDocStops(server, fs, tree, category, [category, last], None, None);
      UpsertDirNoDeletes(server, fs, tree, category, [category, last]);
      UpsertDirStops(server, fs, tree, category, [category, last]);
      ThenStops(server, CategoryDocs(server, fs, tree, category, names[..|names| - 1]), CategoryDoc(server, fs, tree, category, last));
    }
  }

  /** Upserts followed by deletes: no create or update after a delete. */
  lemma ThenOrdersDeletes(u: Run, d: Run)
    requires NoDeletes(u.calls) && AllDeletes(d.calls)
    ensures var calls := Then(u, d).calls;
      forall i, j :: 0 <= i < j < |calls| && calls[i].Delete? ==> calls[j].Delete?
  {
    var calls := Then(u, d).calls;
    if !u.aborted {
      forall i, j | 0 <= i < j < |calls| && calls[i].Delete?
        ensures calls[j].Delete?
      {
        assert calls[j] == d.calls[j - |u.calls|];
      }
    }
  }

  /** Within a category, every create and update comes before every delete,
      and the deletion pass only starts once all of the category's upserts
      have completed. */
  lemma SyncCategoryOrder(server: Call -> Reply, fs: Snapshot, tree: RemoteTree, category: string)
    ensures var calls := SyncCategory(server, fs, tree, category).calls;
      forall i, j :: 0 <= i < j < |calls| && calls[i].Delete? ==> calls[j].Delete?
    ensures IsDir(fs, [category]) && CategoryDocs(server, fs, tree, category, fs[[category]].entries).aborted ==>
      NoDeletes(SyncCategory(server, fs, tree, category).calls)
  {
    if !IsDotEntry(category) && IsDir(fs, [category]) {
      var u := CategoryDocs(server, fs, tree, category, fs[[category]].entries);
      var d := DeletePass(server, fs, tree, category);
      assert SyncCategory(server, fs, tree, category) == Then(u, d);
      CategoryDocsFacts(server, fs, tree, category, fs[[category]].entries);
      if Slugify.Slugify(category) in tree {
        DeleteDocsAllDeletes(server, fs, [category], tree[Slugify.Slugify(category)].docs);
      }
      ThenOrdersDeletes(u, d);
    }
  }

  /** A category missing from the remote tree (its fetch failed with an
      error other than 404, which `main` swallows) issues no call and
      makes the run throw when `sync` reaches it. */
  lemma MissingCategoryThrows(server: Call -> Reply, fs: Snapshot, tree: RemoteTree, category: string)
    requires !IsDotEntry(category) && Slugify.Slugify(category) !in tree
    ensures SyncCategory(server, fs, tree, category) == Throws
  {
    if IsDir(fs, [category]) {
      NoTreeNoCalls(server, fs, tree, category, fs[[category]].entries);
    }
  }

  lemma {:induction false} NoTreeNoCalls(server: Call -> Reply, fs: Snapshot, tree: RemoteTree, category: string, names: seq<string>)
    requires Slugify.Slugify(category) !in tree
    ensures CategoryDocs(server, fs, tree, category, names).calls == []
  {
    if names != [] {
      var last := names[|names| - 1];
      NoTreeNoCalls(server, fs, tree, category, names[..|names| - 1]);
      var dir := [category, last];
      if IsDir(fs, dir) && "index.md" in fs[dir].entries {
        assert UpsertDirSpec(server, fs, tree, category, dir) == Throws;
      }
    }
  }

  lemma {:induction false} SyncCategoriesStops(server: Call -> Reply, fs: Snapshot, tree: RemoteTree, names: seq<string>)
    ensures StopsAtRejection(server, SyncCategories(server, fs, tree, names))
  {
    if names != [] {
      var c := names[|names| - 1];
      SyncCategoriesStops(server, fs, tree, names[..|names| - 1]);
      if !IsDotEntry(c) && IsDir(fs, [c]) {
        CategoryDocsFacts(server, fs, tree, c, fs[[c]].entries);
        if Slugify.Slugify(c) in tree {
          DeleteDocsAllDeletes(server, fs, [c], tree[Slugify.Slugify(c)].docs);
        }
        ThenStops(server, CategoryDocs(server, fs, tree, c, fs[[c]].entries), DeletePass(server, fs, tree, c));
      }
      ThenStops(server, SyncCategories(server, fs, tree, names[..|names| - 1]), SyncCategory(server, fs, tree, c));
    }
  }

  // ---------------------------------------------------------------------
  // main

  /** The outcome of fetching one category and its docs: found, a 404, or
      any other failure. */
  datatype Fetch = Found(category: Category, docs: seq<DocSummary>) | NotFound | Failed

  /** The remote tree `main` builds, and whether a 404 was seen. */
  datatype Gate = Gate(tree: RemoteTree, errored: bool)

  /** The fetch loop of `main`: a found category whose slug differs fails
      its assertion, which the catch swallows like any non-404 error. */
  function FetchAll(fetch: string -> Fetch, names: seq<string>): Gate
  {
    if names == [] then Gate(map[], false)
    else
      var g := FetchAll(fetch, names[..|names| - 1]);
      var name := names[|names| - 1];
      var slug := Slugify.Slugify(name);
      if IsDotEntry(name) then g
      else
        match fetch(slug)
        case Found(c, docs) => if c.slug == slug then Gate(g.tree[slug := RemoteCategory(c, docs)], g.errored) else g
        case NotFound => Gate(g.tree, true)
        case Failed => g
  }

  /** `main`: list the docs root, fetch every non-dot category, and run
      `sync` only when no fetch answered 404. */
  function MainSpec(server: Call -> Reply, fetch: string -> Fetch, fs: Snapshot): Run
  {
    match ReadDir(fs, [])
    case None => Throws
    case Some(names) =>
      var g := FetchAll(fetch, names);
      if g.errored then Nothing else SyncSpec(server, fs, g.tree)
  }

  /** A 404 is seen exactly when some non-dot local category's slug is not
      found. */
  lemma {:induction false} FetchAllErrored(fetch: string -> Fetch, names: seq<string>)
    ensures FetchAll(fetch, names).errored <==>
      exists name :: name in names && !IsDotEntry(name) && fetch(Slugify.Slugify(name)).NotFound?
  {
    if names != [] {
      var init := names[..|names| - 1];
      FetchAllErrored(fetch, init);
      assert names == init + [names[|names| - 1]];
    }
  }

  /** Some non-dot local category has the slug `key`. */
  predicate LocalSlug(names: seq<string>, key: string)
  {
    exists name :: name in names && !IsDotEntry(name) && Slugify.Slugify(name) == key
  }

  /** The remote tree holds exactly the categories that were found under the
      slug of some non-dot local category, with the fetched docs. */
  lemma {:induction false} FetchAllTree(fetch: string -> Fetch, names: seq<string>)
    ensures var t := FetchAll(fetch, names).tree;
      forall key :: key in t <==> fetch(key).Found? && fetch(key).category.slug == key && LocalSlug(names, key)
    ensures var t := FetchAll(fetch, names).tree;
      forall key :: key in t ==> t[key] == RemoteCategory(fetch(key).category, fetch(key).docs)
  {
    if names != [] {
      var init := names[..|names| - 1];
      var name := names[|names| - 1];
      FetchAllTree(fetch, init);
      assert names == init + [name];
      var t := FetchAll(fetch, names).tree;
      var t0 := FetchAll(fetch, init).tree;
      var slug := Slugify.Slugify(name);
      assert t == t0 || (!IsDotEntry(name) && fetch(slug).Found? && fetch(slug).category.slug == slug
                         && t == t0[slug := RemoteCategory(fetch(slug).category, fetch(slug).docs)]);
      forall key ensures LocalSlug(names, key) <==> LocalSlug(init, key) || (!IsDotEntry(name) && slug == key) {
        if LocalSlug(names, key) {
          var n :| n in names && !IsDotEntry(n) && Slugify.Slugify(n) == key;
          if n != name {
            assert n in init;
          }
        }
      }
    }
  }

  /** Fail-closed: if any non-dot local category is answered 404, `main`
      issues no create, update or delete and returns without throwing;
      otherwise it is `sync` over the tree it built. */
  lemma MainFailClosed(server: Call -> Reply, fetch: string -> Fetch, fs: Snapshot)
    requires IsDir(fs, [])
    ensures (exists name :: name in fs[[]].entries && !IsDotEntry(name) && fetch(Slugify.Slugify(name)).NotFound?) ==>
      MainSpec(server, fetch, fs) == Nothing
    ensures (forall name :: name in fs[[]].entries && !IsDotEntry(name) ==> !fetch(Slugify.Slugify(name)).NotFound?) ==>
      MainSpec(server, fetch, fs) == SyncSpec(server, fs, FetchAll(fetch, fs[[]].entries).tree)
  {
    FetchAllErrored(fetch, fs[[]].entries);
  }

  /** A rejected call is never retried or followed by another call: it ends
      the whole run, which then throws. */
  lemma MainStops(server: Call -> Reply, fetch: string -> Fetch, fs: Snapshot)
    ensures StopsAtRejection(server, MainSpec(server, fetch, fs))
  {
    if IsDir(fs, []) {
      SyncCategoriesStops(server, fs, FetchAll(fetch, fs[[]].entries).tree, fs[[]].entries);
    }
  }
}
