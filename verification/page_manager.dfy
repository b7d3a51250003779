/** The page manager: the list of registered pages and lookup by name. A
    page's `run` entry point is kept abstract as the node's item. */
module PageManager {
  import opened Common
  import opened Registry

  /** The main page's node, as mainpage_register hands it over. */
  function MainPageNode(run: nat): Named<nat> {
    Named("main", run)
  }

  /** page_register: the page becomes the new head, followed by the old
      list. */
  function PageRegister(pages: seq<Named<nat>>, p: Named<nat>): (r: seq<Named<nat>>)
    ensures |r| == |pages| + 1
    ensures r[0] == p && r[1..] == pages
  {
    Register(pages, p)
  }

  /** page: the first page from the head with that name, or NULL; an empty
      list gives NULL. */
  function Page(pages: seq<Named<nat>>, name: string): (r: Option<Named<nat>>)
    ensures r.Some? ==> r.value.name == name
                        && exists i :: 0 <= i < |pages| && pages[i] == r.value
                                       && forall j :: 0 <= j < i ==> pages[j].name != name
    ensures r.None? <==> forall j :: 0 <= j < |pages| ==> pages[j].name != name
    ensures |pages| == 0 ==> r.None?
  {
    Lookup(pages, name)
  }

  /** page_system_register: registers the main page. */
  function PageSystemRegister(pages: seq<Named<nat>>, run: nat): (r: seq<Named<nat>>)
    ensures |r| == |pages| + 1 && r[0] == Named("main", run) && r[1..] == pages
  {
    PageRegister(pages, MainPageNode(run))
  }

  /** After the pages are registered, looking up "main" finds the main
      page, whatever was registered before it, and the lookup of any other
      name is as before. */
  lemma MainPageFound(pages: seq<Named<nat>>, run: nat, other: string)
    requires other != "main"
    ensures Page(PageSystemRegister(pages, run), "main") == Some(MainPageNode(run))
    ensures Page(PageSystemRegister(pages, run), other) == Page(pages, other)
  {
    LastRegisteredWins(pages, MainPageNode(run));
    RegisterKeepsOtherLookups(pages, MainPageNode(run), other);
  }
}
