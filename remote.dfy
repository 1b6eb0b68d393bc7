/** The remote document store as the engine sees it: categories and their
    document summaries (the fields of sync/generated/readme.ts the engine
    reads), the forms it sends, and the client as an append-only log of
    mutating calls whose replies come from a fixed server function. */
module Remote {
  import opened Base
  import opened FileSystem

  datatype Category = Category(id: string, slug: string, title: string)

  datatype ChildSummary = ChildSummary(id: string, slug: string, title: string)

  datatype DocSummary = DocSummary(id: string, slug: string, title: string, children: seq<ChildSummary>)

  /** One entry of the in-memory remote tree: the category and its doc
      summaries, as fetched. */
  datatype RemoteCategory = RemoteCategory(category: Category, docs: seq<DocSummary>)

  /** The remote tree, keyed by category slug. */
  type RemoteTree = map<string, RemoteCategory>

  /** The body of a create or update; `title` is whatever the front matter
      holds, `parentDoc` is absent for top-level documents. */
  datatype DocForm = DocForm(slug: string, title: Option<Value>, body: string, category: string,
                             parentDoc: Option<string>, hidden: bool)

  /** The part of a created or updated document the engine reads back. */
  datatype Doc = Doc(id: string, title: Option<Value>)

  /** A mutating call on the store. */
  datatype Call = Create(form: DocForm) | Update(slug: string, form: DocForm) | Delete(slug: string)

  /** The store either accepts a call (and returns the document) or rejects
      it, which makes the awaiting promise throw. */
  datatype Reply = Accepted(doc: Doc) | Rejected

  /** The calls a piece of the engine issues, in order, and whether it ends
      by throwing. */
  datatype Run = Run(calls: seq<Call>, aborted: bool)

  const Nothing := Run([], false)
  const Throws := Run([], true)

  /** One piece after another; after a throw nothing more happens. */
  function Then(a: Run, b: Run): (r: Run)
    ensures r.aborted <==> a.aborted || b.aborted
    ensures r.calls == if a.aborted then a.calls else a.calls + b.calls
  {
    if a.aborted then a else Run(a.calls + b.calls, b.aborted)
  }

  /** Grouping does not matter: `await a; await b; await c` is one run
      however the steps are nested. */
  lemma ThenAssoc(a: Run, b: Run, c: Run)
    ensures Then(Then(a, b), c) == Then(a, Then(b, c))
  {
    if !a.aborted && !b.aborted {
      assert (a.calls + b.calls) + c.calls == a.calls + (b.calls + c.calls);
    }
  }

  /** A step with no call is neutral, and a thrown run swallows what follows. */
  lemma ThenNothing(a: Run, b: Run)
    ensures Then(Nothing, a) == a && Then(a, Nothing) == a
    ensures a.aborted ==> Then(a, b) == a
  {
    assert a.calls + [] == a.calls;
  }

  /** Every rejected call is the last one and the run ends by throwing:
      nothing is retried and nothing follows a rejection. */
  predicate StopsAtRejection(server: Call -> Reply, r: Run)
  {
    forall k :: 0 <= k < |r.calls| && server(r.calls[k]).Rejected? ==> k == |r.calls| - 1 && r.aborted
  }

  lemma ThenStops(server: Call -> Reply, a: Run, b: Run)
    requires StopsAtRejection(server, a) && StopsAtRejection(server, b)
    ensures StopsAtRejection(server, Then(a, b))
  {
    var r := Then(a, b);
    if !a.aborted {
      forall k | 0 <= k < |r.calls| && server(r.calls[k]).Rejected?
        ensures k == |r.calls| - 1 && r.aborted
      {
        if k >= |a.calls| {
          assert r.calls[k] == b.calls[k - |a.calls|];
        }
      }
    }
  }

  /** The client: `createDoc`, `updateDoc` and `deleteDoc` append their call
      to the log and return the store's reply. */
  class Client {
    var log: seq<Call>
    const server: Call -> Reply

    constructor(server: Call -> Reply)
      ensures log == [] && this.server == server
    {
      log := [];
      this.server := server;
    }

    method CreateDoc(form: DocForm) returns (reply: Reply)
      modifies this
      ensures log == old(log) + [Create(form)]
      ensures reply == server(Create(form))
    {
      log := log + [Create(form)];
      reply := server(Create(form));
    }

    method UpdateDoc(slug: string, form: DocForm) returns (reply: Reply)
      modifies this
      ensures log == old(log) + [Update(slug, form)]
      ensures reply == server(Update(slug, form))
    {
      log := log + [Update(slug, form)];
      reply := server(Update(slug, form));
    }

    method DeleteDoc(slug: string) returns (reply: Reply)
      modifies this
      ensures log == old(log) + [Delete(slug)]
      ensures reply == server(Delete(slug))
    {
      log := log + [Delete(slug)];
      reply := server(Delete(slug));
    }
  }
}
