/** The documentation directory as a snapshot: every path (a sequence of
    names below the docs root) maps to a file or to a directory listing in
    `readdirSync` order.  A file holds its parsed front matter and body, as
    gray-matter hands them back; the parsing itself is not part of this
    model. */
module FileSystem {
  import opened Base

  /** Path components below the docs root; `[]` is the root itself. */
  type Path = seq<string>

  /** A front-matter value, by its JavaScript type. */
  datatype Value = Str(s: string) | Bool(b: bool) | Num(n: int) | Null | Other

  /** Front-matter entries in `Object.keys` order. */
  type FrontMatter = seq<(string, Value)>

  datatype Document = Document(data: FrontMatter, content: string)

  datatype Node = File(doc: Document) | Dir(entries: seq<string>)

  type Snapshot = map<Path, Node>

  /** `data[key]`: the value of the first entry with that key, or None for
      `undefined`. */
  function Lookup(data: FrontMatter, key: string): (v: Option<Value>)
    ensures v.None? <==> forall i :: 0 <= i < |data| ==> data[i].0 != key
    ensures v.Some? ==> exists i :: 0 <= i < |data| && data[i] == (key, v.value)
  {
    if data == [] then None
    else if data[0].0 == key then Some(data[0].1)
    else Lookup(data[1..], key)
  }

  /** `fs.existsSync`. */
  predicate Exists(fs: Snapshot, p: Path)
  {
    p in fs
  }

  predicate IsDir(fs: Snapshot, p: Path)
  {
    p in fs && fs[p].Dir?
  }

  predicate IsFile(fs: Snapshot, p: Path)
  {
    p in fs && fs[p].File?
  }

  /** `fs.readdirSync`: the listing, or None where the call throws (the
      path is missing or is not a directory). */
  function ReadDir(fs: Snapshot, p: Path): (r: Option<seq<string>>)
    ensures r.Some? <==> IsDir(fs, p)
    ensures r.Some? ==> r.value == fs[p].entries
  {
    if IsDir(fs, p) then Some(fs[p].entries) else None
  }

  /** `fs.readFileSync` followed by gray-matter: the document, or None
      where the read throws (the path is missing or is a directory). */
  function ReadFile(fs: Snapshot, p: Path): (r: Option<Document>)
    ensures r.Some? <==> IsFile(fs, p)
    ensures r.Some? ==> r.value == fs[p].doc
  {
    if IsFile(fs, p) then Some(fs[p].doc) else None
  }

  /** `path.basename`: the last component. */
  function LastName(p: Path): string
  {
    if p == [] then "" else p[|p| - 1]
  }

  /** The index of the last `.` in `s`. */
  function LastDot(s: string): (r: Option<nat>)
    ensures r.Some? ==> r.value < |s| && s[r.value] == '.' && forall j :: r.value < j < |s| ==> s[j] != '.'
    ensures r.None? ==> forall j :: 0 <= j < |s| ==> s[j] != '.'
  {
    if s == [] then None
    else if s[|s| - 1] == '.' then Some(|s| - 1)
    else LastDot(s[..|s| - 1])
  }

  /** `path.parse(p).name` where `base` is the last component of `p`: the
      base name without its extension.  A dot in first position does not
      start an extension, and `..` has none. */
  function Stem(base: string): (r: string)
    ensures StartsWith(base, r)
  {
    match LastDot(base)
    case None => base
    case Some(i) => if i == 0 || base == ".." then base else base[..i]
  }

  /** A markdown name longer than `.md` loses exactly its `.md`. */
  lemma MarkdownStem(name: string)
    requires IsMarkdown(name) && |name| > 3
    ensures Stem(name) == name[..|name| - 3]
  {
    assert name[|name| - 3..] == ".md";
    assert name[|name| - 3] == '.' && name[|name| - 2] == 'm' && name[|name| - 1] == 'd';
    assert LastDot(name) == Some(|name| - 3);
    assert name != "..";
  }

  /** A name whose only dot is its first character is its own stem. */
  lemma DotFileStem(name: string)
    requires |name| > 0 && name[0] == '.'
    requires forall j :: 0 < j < |name| ==> name[j] != '.'
    ensures Stem(name) == name
  {
  }

  lemma StemExamples()
    ensures Stem(".DS_Store") == ".DS_Store"
    ensures Stem("index.md") == "index"
    ensures Stem("images") == "images"
    ensures Stem("..") == ".."
    ensures Stem("notes.v2.md") == "notes.v2"
  {
    MarkdownStem("index.md");
    MarkdownStem("notes.v2.md");
    DotFileStem(".DS_Store");
  }
}
