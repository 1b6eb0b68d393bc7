/** The front-matter validator (sync/validation.ts): `checkDoc` judges one
    document, `ensureFrontMatter` walks the category directories, their
    markdown files and one level of sub-directories, and stops checking
    (but not reading) after the first failure. */
module Validation {
  import opened Base
  import opened FileSystem

  /** One error line that `checkDoc` prints. */
  datatype Problem =
    | InvalidKey(path: Path, key: string)
    | TitleMissingOrInvalid(path: Path)
    | HiddenNotBoolean(path: Path)

  /** How `ensureFrontMatter` ends: it throws (a file-system call failed)
      or returns a verdict. */
  datatype Outcome = Threw | Returned(passed: bool)

  // ---------------------------------------------------------------------
  // checkDoc

  predicate AllowedKey(key: string)
  {
    key == "title" || key == "hidden"
  }

  /** `title` is present and a string. */
  predicate TitleOk(data: FrontMatter)
  {
    var t := Lookup(data, "title");
    t.Some? && t.value.Str?
  }

  /** `hidden` is absent, null, or a boolean. */
  predicate HiddenOk(data: FrontMatter)
  {
    var h := Lookup(data, "hidden");
    h.None? || h.value.Null? || h.value.Bool?
  }

  /** The reference verdict on one document's front matter. */
  predicate FrontMatterOk(data: FrontMatter)
  {
    (forall i :: 0 <= i < |data| ==> AllowedKey(data[i].0)) && TitleOk(data) && HiddenOk(data)
  }

  /** The invalid-key lines, in key order. */
  function KeyProblems(path: Path, data: FrontMatter): seq<Problem>
  {
    if data == [] then []
    else
      var last := data[|data| - 1].0;
      KeyProblems(path, data[..|data| - 1]) + (if AllowedKey(last) then [] else [InvalidKey(path, last)])
  }

  /** Everything `checkDoc` prints for one document, in order. */
  function Problems(path: Path, data: FrontMatter): seq<Problem>
  {
    KeyProblems(path, data)
      + (if TitleOk(data) then [] else [TitleMissingOrInvalid(path)])
      + (if HiddenOk(data) then [] else [HiddenNotBoolean(path)])
  }

  lemma {:induction false} KeyProblemsExact(path: Path, data: FrontMatter)
    ensures forall p :: p in KeyProblems(path, data) ==> p.InvalidKey? && p.path == path
    ensures forall k :: InvalidKey(path, k) in KeyProblems(path, data) <==>
      (!AllowedKey(k) && exists i :: 0 <= i < |data| && data[i].0 == k)
  {
    if data != [] {
      var init := data[..|data| - 1];
      KeyProblemsExact(path, init);
      forall k ensures InvalidKey(path, k) in KeyProblems(path, data) <==>
        (!AllowedKey(k) && exists i :: 0 <= i < |data| && data[i].0 == k)
      {
        if !AllowedKey(k) && exists i :: 0 <= i < |data| && data[i].0 == k {
          var i :| 0 <= i < |data| && data[i].0 == k;
          if i < |data| - 1 {
            assert init[i].0 == k;
          }
        }
        if InvalidKey(path, k) in KeyProblems(path, init) {
          var i :| 0 <= i < |init| && init[i].0 == k;
          assert data[i].0 == k;
        }
      }
    }
  }

  /** Every problem `checkDoc` prints names the document and says which rule
      failed: each disallowed key, a missing or non-string title, a hidden
      that is neither absent, null nor boolean.  It prints nothing exactly
      when the reference verdict holds. */
  lemma ProblemsExact(path: Path, data: FrontMatter)
    ensures forall p :: p in Problems(path, data) ==> p.path == path
    ensures forall k :: InvalidKey(path, k) in Problems(path, data) <==>
      (!AllowedKey(k) && exists i :: 0 <= i < |data| && data[i].0 == k)
    ensures TitleMissingOrInvalid(path) in Problems(path, data) <==> !TitleOk(data)
    ensures HiddenNotBoolean(path) in Problems(path, data) <==> !HiddenOk(data)
    ensures Problems(path, data) == [] <==> FrontMatterOk(data)
  {
    KeyProblemsExact(path, data);
    if KeyProblems(path, data) != [] {
      var p := KeyProblems(path, data)[0];
      assert p in KeyProblems(path, data);
      assert InvalidKey(path, p.key) in KeyProblems(path, data);
    }
  }

  /** `checkDoc`: every key is inspected (there is no early exit), then the
      title, then hidden; `passed` is the reference verdict. */
  method CheckDoc(path: Path, data: FrontMatter) returns (passed: bool, problems: seq<Problem>)
    ensures problems == Problems(path, data)
    ensures passed == FrontMatterOk(data)
  {
    passed := true;
    problems := [];
    for i := 0 to |data|
      invariant problems == KeyProblems(path, data[..i])
      invariant passed <==> forall j :: 0 <= j < i ==> AllowedKey(data[j].0)
    {
      assert data[..i + 1][..i] == data[..i];
      var key := data[i].0;
      if !AllowedKey(key) {
        problems := problems + [InvalidKey(path, key)];
        passed := false;
      }
    }
    assert data[..|data|] == data;
    var title := Lookup(data, "title");
    if title.None? || title.value.Null? || !title.value.Str? {
      problems := problems + [TitleMissingOrInvalid(path)];
      passed := false;
    }
    var hidden := Lookup(data, "hidden");
    if !(hidden.None? || hidden.value.Null?) && !hidden.value.Bool? {
      problems := problems + [HiddenNotBoolean(path)];
      passed := false;
    }
  }

  // ---------------------------------------------------------------------
  // ensureFrontMatter, as a walk and a fold

  /** The markdown files a walk reads, in order, and whether it ends by
      throwing. */
  datatype Walk = Walk(files: seq<Path>, threw: bool)

  const Nothing := Walk([], false)
  const Throws := Walk([], true)

  /** One walk after another: nothing after a throw happens. */
  function Then(a: Walk, b: Walk): Walk
  {
    if a.threw then a else Walk(a.files + b.files, b.threw)
  }

  /** `fs.readFileSync(p)`. */
  function ReadMd(fs: Snapshot, p: Path): Walk
  {
    if IsFile(fs, p) then Walk([p], false) else Throws
  }

  /** One entry of a group directory: only markdown files are read. */
  function GroupChild(fs: Snapshot, group: Path, name: string): Walk
  {
    if IsDotEntry(name) then Nothing
    else if IsMarkdown(name) then ReadMd(fs, group + [name])
    else Nothing
  }

  function GroupChildren(fs: Snapshot, group: Path, names: seq<string>): Walk
  {
    if names == [] then Nothing
    else Then(GroupChildren(fs, group, names[..|names| - 1]), GroupChild(fs, group, names[|names| - 1]))
  }

  /** A non-markdown entry of a category is listed as a directory; the
      listing throws when it is not one. */
  function Group(fs: Snapshot, group: Path): Walk
  {
    match ReadDir(fs, group)
    case None => Throws
    case Some(names) => GroupChildren(fs, group, names)
  }

  function CategoryEntry(fs: Snapshot, category: Path, name: string): Walk
  {
    if IsDotEntry(name) then Nothing
    else if IsMarkdown(name) then ReadMd(fs, category + [name])
    else Group(fs, category + [name])
  }

  function CategoryEntries(fs: Snapshot, category: Path, names: seq<string>): Walk
  {
    if names == [] then Nothing
    else Then(CategoryEntries(fs, category, names[..|names| - 1]), CategoryEntry(fs, category, names[|names| - 1]))
  }

  /** A top-level entry: dot entries and non-directories are skipped;
      `statSync` throws on a listed name that does not exist. */
  function Category(fs: Snapshot, name: string): Walk
  {
    if IsDotEntry(name) then Nothing
    else if !Exists(fs, [name]) then Throws
    else if !IsDir(fs, [name]) then Nothing
    else CategoryEntries(fs, [name], fs[[name]].entries)
  }

  function Categories(fs: Snapshot, names: seq<string>): Walk
  {
    if names == [] then Nothing
    else Then(Categories(fs, names[..|names| - 1]), Category(fs, names[|names| - 1]))
  }

  /** The whole walk from the docs root. */
  function Tree(fs: Snapshot): Walk
  {
    match ReadDir(fs, [])
    case None => Throws
    case Some(names) => Categories(fs, names)
  }

  /** The front matter of a file the walk read. */
  function DataOf(fs: Snapshot, p: Path): FrontMatter
  {
    if IsFile(fs, p) then fs[p].doc.data else []
  }

  /** The verdict so far and the lines printed so far. */
  datatype Progress = Progress(passed: bool, problems: seq<Problem>)

  const Start := Progress(true, [])

  /** `passed = passed && checkDoc(p, content)`: once the verdict is false,
      `checkDoc` is not called and prints nothing. */
  function Step(fs: Snapshot, st: Progress, p: Path): Progress
  {
    if st.passed then Progress(FrontMatterOk(DataOf(fs, p)), st.problems + Problems(p, DataOf(fs, p)))
    else st
  }

  function Fold(fs: Snapshot, st: Progress, files: seq<Path>): Progress
  {
    if files == [] then st else Step(fs, Fold(fs, st, files[..|files| - 1]), files[|files| - 1])
  }

  /** The reference result of `ensureFrontMatter`. */
  function Result(fs: Snapshot): Outcome
  {
    var w := Tree(fs);
    if w.threw then Threw else Returned(Fold(fs, Start, w.files).passed)
  }

  // ---------------------------------------------------------------------
  // Properties of the fold

  lemma {:induction false} FoldAppend(fs: Snapshot, st: Progress, a: seq<Path>, b: seq<Path>)
    ensures Fold(fs, st, a + b) == Fold(fs, Fold(fs, st, a), b)
  {
    if b != [] {
      assert (a + b)[..|a + b| - 1] == a + b[..|b| - 1];
      assert (a + b)[|a + b| - 1] == b[|b| - 1];
      FoldAppend(fs, st, a, b[..|b| - 1]);
    } else {
      assert a + b == a;
    }
  }

  /** A false verdict stays false and prints nothing more. */
  lemma {:induction false} FoldAfterFailure(fs: Snapshot, st: Progress, files: seq<Path>)
    requires !st.passed
    ensures Fold(fs, st, files) == st
  {
    if files != [] {
      FoldAfterFailure(fs, st, files[..|files| - 1]);
    }
  }

  /** One more document keeps the verdict true exactly when it passes. */
  lemma FoldPassedStep(fs: Snapshot, files: seq<Path>)
    requires files != []
    ensures Fold(fs, Start, files).passed
      <==> Fold(fs, Start, files[..|files| - 1]).passed && FrontMatterOk(DataOf(fs, files[|files| - 1]))
  {
    var prev := Fold(fs, Start, files[..|files| - 1]);
    assert Fold(fs, Start, files) == Step(fs, prev, files[|files| - 1]);
  }

  /** Nothing is printed for documents after the first failing one. */
  lemma {:induction false} FoldStopsAtFailure(fs: Snapshot, files: seq<Path>, i: nat)
    requires i < |files| && !FrontMatterOk(DataOf(fs, files[i]))
    ensures Fold(fs, Start, files) == Fold(fs, Start, files[..i + 1])
    ensures !Fold(fs, Start, files).passed
  {
    assert files == files[..i + 1] + files[i + 1..];
    FoldAppend(fs, Start, files[..i + 1], files[i + 1..]);
    assert files[..i + 1][..i] == files[..i];
    assert files[..i + 1][i] == files[i];
    FoldPassedStep(fs, files[..i + 1]);
    FoldAfterFailure(fs, Fold(fs, Start, files[..i + 1]), files[i + 1..]);
  }

  /** When every document read passes, the verdict is true. */
  lemma {:induction false} AllPassFold(fs: Snapshot, files: seq<Path>)
    requires forall i :: 0 <= i < |files| ==> FrontMatterOk(DataOf(fs, files[i]))
    ensures Fold(fs, Start, files).passed
  {
    if files != [] {
      var init := files[..|files| - 1];
      assert forall i :: 0 <= i < |init| ==> init[i] == files[i];
      AllPassFold(fs, init);
      FoldPassedStep(fs, files);
    }
  }

  /** The verdict is true exactly when every document read passes. */
  lemma FoldPassed(fs: Snapshot, files: seq<Path>)
    ensures Fold(fs, Start, files).passed <==> forall i :: 0 <= i < |files| ==> FrontMatterOk(DataOf(fs, files[i]))
  {
    if Fold(fs, Start, files).passed {
      forall i | 0 <= i < |files| ensures FrontMatterOk(DataOf(fs, files[i])) {
        if !FrontMatterOk(DataOf(fs, files[i])) {
          FoldStopsAtFailure(fs, files, i);
        }
      }
    } else if forall i :: 0 <= i < |files| ==> FrontMatterOk(DataOf(fs, files[i])) {
      AllPassFold(fs, files);
    }
  }

  /** While every document passes, each one's lines are printed in order. */
  lemma {:induction false} FoldPrintsAll(fs: Snapshot, files: seq<Path>, i: nat)
    requires i < |files|
    requires forall j :: 0 <= j < i ==> FrontMatterOk(DataOf(fs, files[j]))
    ensures Fold(fs, Start, files[..i + 1]).problems == Fold(fs, Start, files[..i]).problems + Problems(files[i], DataOf(fs, files[i]))
  {
    assert files[..i + 1][..i] == files[..i];
    FoldPassed(fs, files[..i]);
  }

  // ---------------------------------------------------------------------
  // Which files the walk reads

  /** Entry `x` of directory `dir` is a non-dot markdown name and `p` is
      its path. */
  predicate MarkdownEntry(dir: Path, x: string, p: Path)
  {
    !IsDotEntry(x) && IsMarkdown(x) && p == dir + [x]
  }

  /** `p` is read for entry `x` of a category directory: `x` is markdown and
      `p` is its path, or `x` is a non-dot, non-markdown directory and `p`
      is one of its markdown entries. */
  predicate EntryRead(fs: Snapshot, category: Path, x: string, p: Path)
  {
    MarkdownEntry(category, x, p)
      || (!IsDotEntry(x) && !IsMarkdown(x) && IsDir(fs, category + [x])
          && exists y :: y in fs[category + [x]].entries && MarkdownEntry(category + [x], y, p))
  }

  /** `p` is read under the top-level entry `c`: `c` is a non-dot directory
      and `p` is read for one of its entries. */
  predicate ReadUnder(fs: Snapshot, c: string, p: Path)
  {
    !IsDotEntry(c) && IsDir(fs, [c]) && exists x :: x in fs[[c]].entries && EntryRead(fs, [c], x, p)
  }

  /** The files of a group directory the walk reads, when it does not throw:
      its non-dot markdown entries, each a file. */
  lemma {:induction false} GroupChildrenFiles(fs: Snapshot, group: Path, names: seq<string>)
    requires !GroupChildren(fs, group, names).threw
    ensures forall p :: p in GroupChildren(fs, group, names).files <==>
      exists x :: x in names && MarkdownEntry(group, x, p)
    ensures forall p :: p in GroupChildren(fs, group, names).files ==> IsFile(fs, p)
  {
    if names != [] {
      var init := names[..|names| - 1];
      var last := names[|names| - 1];
      assert names == init + [last];
      GroupChildrenFiles(fs, group, init);
      var w := GroupChildren(fs, group, names);
      var prev := GroupChildren(fs, group, init).files;
      var e := GroupChild(fs, group, last).files;
      assert w.files == prev + e;
      assert e == [] || (e == [group + [last]] && MarkdownEntry(group, last, group + [last]) && IsFile(fs, group + [last]));
      forall p | p in w.files
        ensures (exists x :: x in names && MarkdownEntry(group, x, p)) && IsFile(fs, p)
      {
        if p in prev {
          var x :| x in init && MarkdownEntry(group, x, p);
          assert x in names;
        } else {
          assert MarkdownEntry(group, last, p);
        }
      }
      forall p | exists x :: x in names && MarkdownEntry(group, x, p)
        ensures p in w.files
      {
        var x :| x in names && MarkdownEntry(group, x, p);
        if x != last {
          assert x in init;
        }
      }
    }
  }

  lemma {:induction false} CategoryEntriesFiles(fs: Snapshot, category: Path, names: seq<string>)
    requires !CategoryEntries(fs, category, names).threw
    ensures forall p :: p in CategoryEntries(fs, category, names).files <==>
      exists x :: x in names && EntryRead(fs, category, x, p)
    ensures forall p :: p in CategoryEntries(fs, category, names).files ==> IsFile(fs, p)
  {
    if names != [] {
      var init := names[..|names| - 1];
      var last := names[|names| - 1];
      assert names == init + [last];
      CategoryEntriesFiles(fs, category, init);
      var w := CategoryEntries(fs, category, names);
      var e := CategoryEntry(fs, category, last);
      assert w.files == CategoryEntries(fs, category, init).files + e.files;
      LastEntryFiles(fs, category, last);
      forall p | exists x :: x in names && EntryRead(fs, category, x, p)
        ensures p in w.files
      {
        var x :| x in names && EntryRead(fs, category, x, p);
        if x != last {
          assert x in init;
        }
      }
    }
  }

  /** The files read for one entry of a category directory. */
  lemma LastEntryFiles(fs: Snapshot, category: Path, x: string)
    requires !CategoryEntry(fs, category, x).threw
    ensures forall p :: p in CategoryEntry(fs, category, x).files <==> EntryRead(fs, category, x, p)
    ensures forall p :: p in CategoryEntry(fs, category, x).files ==> IsFile(fs, p)
  {
    if !IsDotEntry(x) && !IsMarkdown(x) {
      var g := category + [x];
      GroupChildrenFiles(fs, g, fs[g].entries);
    }
  }

  lemma {:induction false} CategoriesFiles(fs: Snapshot, names: seq<string>)
    requires !Categories(fs, names).threw
    ensures forall p :: p in Categories(fs, names).files <==> exists c :: c in names && ReadUnder(fs, c, p)
    ensures forall p :: p in Categories(fs, names).files ==> IsFile(fs, p)
  {
    if names != [] {
      var init := names[..|names| - 1];
      var last := names[|names| - 1];
      assert names == init + [last];
      CategoriesFiles(fs, init);
      var w := Categories(fs, names);
      var e := Category(fs, last);
      assert w.files == Categories(fs, init).files + e.files;
      if !IsDotEntry(last) && IsDir(fs, [last]) {
        CategoryEntriesFiles(fs, [last], fs[[last]].entries);
      }
      assert forall p :: p in e.files <==> ReadUnder(fs, last, p);
      forall p | exists c :: c in names && ReadUnder(fs, c, p)
        ensures p in w.files
      {
        var c :| c in names && ReadUnder(fs, c, p);
        if c != last {
          assert c in init;
        }
      }
    }
  }

  /** When the walk does not throw, it reads exactly the non-dot markdown
      files of each non-dot category directory and of each non-dot
      sub-directory of one, and each of them is a file. */
  lemma TreeFiles(fs: Snapshot)
    requires !Tree(fs).threw
    ensures IsDir(fs, [])
    ensures forall p :: p in Tree(fs).files <==> exists c :: c in fs[[]].entries && ReadUnder(fs, c, p)
    ensures forall p :: p in Tree(fs).files ==> IsFile(fs, p)
  {
    CategoriesFiles(fs, fs[[]].entries);
  }

  lemma {:induction false} GroupChildrenThrowsAt(fs: Snapshot, group: Path, names: seq<string>, i: nat)
    requires i < |names| && GroupChild(fs, group, names[i]).threw
    ensures GroupChildren(fs, group, names).threw
  {
    var init := names[..|names| - 1];
    if i < |names| - 1 {
      assert init[i] == names[i];
      GroupChildrenThrowsAt(fs, group, init, i);
    }
  }

  lemma {:induction false} CategoryEntriesThrowsAt(fs: Snapshot, category: Path, names: seq<string>, i: nat)
    requires i < |names| && CategoryEntry(fs, category, names[i]).threw
    ensures CategoryEntries(fs, category, names).threw
  {
    var init := names[..|names| - 1];
    if i < |names| - 1 {
      assert init[i] == names[i];
      CategoryEntriesThrowsAt(fs, category, init, i);
    }
  }

  lemma {:induction false} CategoriesThrowsAt(fs: Snapshot, names: seq<string>, i: nat)
    requires i < |names| && Category(fs, names[i]).threw
    ensures Categories(fs, names).threw
  {
    var init := names[..|names| - 1];
    if i < |names| - 1 {
      assert init[i] == names[i];
      CategoriesThrowsAt(fs, init, i);
    }
  }

  /** A non-dot entry of a category directory that is not what its name
      says (a markdown name that is not a file, or another name that is not
      a directory) makes `ensureFrontMatter` throw. */
  lemma StrayEntryThrows(fs: Snapshot, c: string, x: string)
    requires IsDir(fs, []) && c in fs[[]].entries && !IsDotEntry(c) && IsDir(fs, [c])
    requires x in fs[[c]].entries && !IsDotEntry(x)
    requires if IsMarkdown(x) then !IsFile(fs, [c, x]) else !IsDir(fs, [c, x])
    ensures Result(fs) == Threw
  {
    var i :| 0 <= i < |fs[[c]].entries| && fs[[c]].entries[i] == x;
    assert [c] + [x] == [c, x];
    CategoryEntriesThrowsAt(fs, [c], fs[[c]].entries, i);
    var j :| 0 <= j < |fs[[]].entries| && fs[[]].entries[j] == c;
    CategoriesThrowsAt(fs, fs[[]].entries, j);
  }

  /** A non-dot markdown name inside a group directory that is not a file
      makes `ensureFrontMatter` throw. */
  lemma StrayGroupChildThrows(fs: Snapshot, c: string, g: string, y: string)
    requires IsDir(fs, []) && c in fs[[]].entries && !IsDotEntry(c) && IsDir(fs, [c])
    requires g in fs[[c]].entries && !IsDotEntry(g) && !IsMarkdown(g) && IsDir(fs, [c, g])
    requires y in fs[[c, g]].entries && !IsDotEntry(y) && IsMarkdown(y) && !IsFile(fs, [c, g, y])
    ensures Result(fs) == Threw
  {
    var k :| 0 <= k < |fs[[c, g]].entries| && fs[[c, g]].entries[k] == y;
    assert [c, g] + [y] == [c, g, y];
    GroupChildrenThrowsAt(fs, [c, g], fs[[c, g]].entries, k);
    var i :| 0 <= i < |fs[[c]].entries| && fs[[c]].entries[i] == g;
    assert [c] + [g] == [c, g];
    CategoryEntriesThrowsAt(fs, [c], fs[[c]].entries, i);
    var j :| 0 <= j < |fs[[]].entries| && fs[[]].entries[j] == c;
    CategoriesThrowsAt(fs, fs[[]].entries, j);
  }

  /** The verdict, when the walk completes: true exactly when every file it
      reads has valid front matter. */
  lemma ResultPassedIff(fs: Snapshot)
    requires Result(fs).Returned?
    ensures Result(fs).passed <==> forall p :: p in Tree(fs).files ==> FrontMatterOk(DataOf(fs, p))
  {
    var files := Tree(fs).files;
    FoldPassed(fs, files);
    if !Result(fs).passed {
      var i :| 0 <= i < |files| && !FrontMatterOk(DataOf(fs, files[i]));
      assert files[i] in files;
    }
  }

  // ---------------------------------------------------------------------
  // The walker

  /** `const content = fs.readFileSync(p); passed = passed && checkDoc(p,
      content)`: the file is read, and may throw, whatever the verdict. */
  method CheckFile(fs: Snapshot, p: Path, st: Progress) returns (threw: bool, next: Progress)
    ensures threw == ReadMd(fs, p).threw
    ensures next == Fold(fs, st, ReadMd(fs, p).files)
  {
    var content := ReadFile(fs, p);
    if content.None? {
      return true, st;
    }
    next := st;
    if st.passed {
      var ok, problems := CheckDoc(p, content.value.data);
      next := Progress(ok, st.problems + problems);
    }
    assert [p][..0] == [];
    return false, next;
  }

  /** The inner loop over a group directory's entries. */
  method CheckGroup(fs: Snapshot, group: Path, st: Progress) returns (threw: bool, next: Progress)
    ensures threw == Group(fs, group).threw
    ensures next == Fold(fs, st, Group(fs, group).files)
  {
    var listing := ReadDir(fs, group);
    if listing.None? {
      return true, st;
    }
    var names := listing.value;
    next := st;
    for i := 0 to |names|
      invariant !GroupChildren(fs, group, names[..i]).threw
      invariant next == Fold(fs, st, GroupChildren(fs, group, names[..i]).files)
    {
      var done := GroupChildren(fs, group, names[..i]);
      assert names[..i + 1][..i] == names[..i];
      var child := names[i];
      if IsDotEntry(child) {
        assert done.files + [] == done.files;
        continue;
      } else if IsMarkdown(child) {
        var t, n := CheckFile(fs, group + [child], next);
        FoldAppend(fs, st, done.files, ReadMd(fs, group + [child]).files);
        next := n;
        if t {
          GroupChildrenThrew(fs, group, names, i + 1);
          return true, next;
        }
      } else {
        assert done.files + [] == done.files;
      }
    }
    assert names[..|names|] == names;
    return false, next;
  }

  /** The loop over a category directory's entries. */
  method CheckCategoryEntries(fs: Snapshot, category: Path, names: seq<string>, st: Progress)
    returns (threw: bool, next: Progress)
    ensures threw == CategoryEntries(fs, category, names).threw
    ensures next == Fold(fs, st, CategoryEntries(fs, category, names).files)
  {
    next := st;
    for i := 0 to |names|
      invariant !CategoryEntries(fs, category, names[..i]).threw
      invariant next == Fold(fs, st, CategoryEntries(fs, category, names[..i]).files)
    {
      var done := CategoryEntries(fs, category, names[..i]);
      assert names[..i + 1][..i] == names[..i];
      var doc := names[i];
      var t: bool;
      var n: Progress;
      if IsDotEntry(doc) {
        assert done.files + [] == done.files;
        continue;
      } else if IsMarkdown(doc) {
        t, n := CheckFile(fs, category + [doc], next);
      } else {
        t, n := CheckGroup(fs, category + [doc], next);
      }
      FoldAppend(fs, st, done.files, CategoryEntry(fs, category, doc).files);
      next := n;
      if t {
        CategoryEntriesThrew(fs, category, names, i + 1);
        return true, next;
      }
    }
    assert names[..|names|] == names;
    return false, next;
  }

  /** One pass of the loop over the top-level entries: dot entries and
      non-directories are skipped, a missing one makes `statSync` throw. */
  method CheckCategory(fs: Snapshot, category: string, st: Progress) returns (threw: bool, next: Progress)
    ensures threw == Category(fs, category).threw
    ensures next == Fold(fs, st, Category(fs, category).files)
  {
    if IsDotEntry(category) {
      return false, st;
    }
    if !Exists(fs, [category]) {
      return true, st;
    }
    if !IsDir(fs, [category]) {
      return false, st;
    }
    threw, next := CheckCategoryEntries(fs, [category], fs[[category]].entries, st);
  }

  /** `ensureFrontMatter`: its outcome is the reference result, and what it
      prints is the fold over the files read, up to a throw. */
  method EnsureFrontMatter(fs: Snapshot) returns (outcome: Outcome, problems: seq<Problem>)
    ensures outcome == Result(fs)
    ensures problems == Fold(fs, Start, Tree(fs).files).problems
  {
    var listing := ReadDir(fs, []);
    if listing.None? {
      return Threw, [];
    }
    var names := listing.value;
    assert Tree(fs) == Categories(fs, names);
    var st := Start;
    for i := 0 to |names|
      invariant !Categories(fs, names[..i]).threw
      invariant st == Fold(fs, Start, Categories(fs, names[..i]).files)
    {
      var done := Categories(fs, names[..i]);
      var category := names[i];
      assert names[..i + 1][..i] == names[..i] && names[..i + 1][i] == category;
      assert Categories(fs, names[..i + 1]) == Then(done, Category(fs, category));
      var t, n := CheckCategory(fs, category, st);
      FoldAppend(fs, Start, done.files, Category(fs, category).files);
      st := n;
      if t {
        CategoriesThrew(fs, names, i + 1);
        return Threw, st.problems;
      }
    }
    assert names[..|names|] == names;
    return Returned(st.passed), st.problems;
  }

  // Once a prefix of a listing throws, the whole listing's walk is that
  // prefix's walk.

  lemma {:induction false} GroupChildrenThrew(fs: Snapshot, group: Path, names: seq<string>, k: nat)
    requires k <= |names| && GroupChildren(fs, group, names[..k]).threw
    ensures GroupChildren(fs, group, names) == GroupChildren(fs, group, names[..k])
    decreases |names| - k
  {
    if k < |names| {
      assert names[..k + 1][..k] == names[..k];
      GroupChildrenThrew(fs, group, names, k + 1);
    } else {
      assert names[..k] == names;
    }
  }

  lemma {:induction false} CategoryEntriesThrew(fs: Snapshot, category: Path, names: seq<string>, k: nat)
    requires k <= |names| && CategoryEntries(fs, category, names[..k]).threw
    ensures CategoryEntries(fs, category, names) == CategoryEntries(fs, category, names[..k])
    decreases |names| - k
  {
    if k < |names| {
      assert names[..k + 1][..k] == names[..k];
      CategoryEntriesThrew(fs, category, names, k + 1);
    } else {
      assert names[..k] == names;
    }
  }

  lemma {:induction false} CategoriesThrew(fs: Snapshot, names: seq<string>, k: nat)
    requires k <= |names| && Categories(fs, names[..k]).threw
    ensures Categories(fs, names) == Categories(fs, names[..k])
    decreases |names| - k
  {
    if k < |names| {
      assert names[..k + 1][..k] == names[..k];
      CategoriesThrew(fs, names, k + 1);
    } else {
      assert names[..k] == names;
    }
  }
}
