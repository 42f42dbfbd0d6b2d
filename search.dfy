/** The search itself: the folder registry, the validation `start_search`
    performs before anything runs, and the worker `search_files` that walks
    the chosen folders and keeps every file whose name contains the term,
    scored by `calculate_relevance`. The directory walk is an input: for each
    root, the sequence of listings `os.walk` would yield. */
module Search {
  import opened Strings
  import opened Paths
  import opened Seqs

  /** One entry of the folder registry: a label and the folder it stands for. */
  datatype FolderContext = FolderContext(name: string, path: string)

  /** One listing yielded by the walk: a directory and the files directly in it. */
  datatype Listing = Listing(dir: string, files: seq<string>)

  /** A file met by the walk, with the directory it was listed in. */
  datatype Entry = Entry(dir: string, name: string)

  /** A row of the result table: file name, full path, extension, relevance. */
  datatype SearchResult = SearchResult(name: string, path: string, ext: string, relevance: nat)

  /** What `start_search` decides from the entry text and the check boxes. */
  datatype Request = EmptyTerm | NoFolders | Launch(term: string, roots: seq<string>)

  /** The registry the application starts with, in its insertion order. `home`
      is the user's home directory as `~` expands to it. */
  function DefaultRegistry(home: string): (r: seq<FolderContext>)
    ensures |r| == 6
    ensures forall i, j :: 0 <= i < j < |r| ==> r[i].name != r[j].name
  {
    [ FolderContext("Desktop", home + "/Desktop"),
      FolderContext("Documents", home + "/Documents"),
      FolderContext("Pictures", home + "/Pictures"),
      FolderContext("Videos", home + "/Videos"),
      FolderContext("Music", home + "/Music"),
      FolderContext("System Root", "C:\\") ]
  }

  /** The paths of the registry entries whose box is checked, in registry order. */
  function SelectedPaths(registry: seq<FolderContext>, checked: set<string>): seq<string> {
    if registry == [] then []
    else (if registry[0].name in checked then [registry[0].path] else []) + SelectedPaths(registry[1..], checked)
  }

  /** A path is selected exactly when some checked registry entry names it. */
  lemma {:induction false} SelectedPathsMembers(registry: seq<FolderContext>, checked: set<string>, p: string)
    ensures p in SelectedPaths(registry, checked) <==>
      exists c :: c in registry && c.name in checked && c.path == p
  {
    if registry != [] {
      SelectedPathsMembers(registry[1..], checked, p);
      assert forall c :: c in registry <==> c == registry[0] || c in registry[1..];
    }
  }

  /** Nothing is selected exactly when no registry entry is checked. */
  lemma {:induction false} SelectedPathsEmpty(registry: seq<FolderContext>, checked: set<string>)
    ensures SelectedPaths(registry, checked) == [] <==> forall c :: c in registry ==> c.name !in checked
  {
    if registry != [] {
      SelectedPathsEmpty(registry[1..], checked);
      assert forall c :: c in registry <==> c == registry[0] || c in registry[1..];
    }
  }

  /** Selection respects registry order: selecting from two halves of the
      registry and concatenating is selecting from the whole. */
  lemma {:induction false} SelectedPathsAppend(a: seq<FolderContext>, b: seq<FolderContext>, checked: set<string>)
    ensures SelectedPaths(a + b, checked) == SelectedPaths(a, checked) + SelectedPaths(b, checked)
  {
    if a != [] {
      SelectedPathsAppend(a[1..], b, checked);
      assert (a + b)[1..] == a[1..] + b;
    } else {
      assert a + b == b;
    }
  }

  /** `start_search`'s checks, in its order: a term that strips to nothing is
      refused first; then a request with no checked folder; otherwise the
      stripped term and the selected folders go to the worker. */
  function ValidateSearch(entry: string, registry: seq<FolderContext>, checked: set<string>): (r: Request)
    ensures r.EmptyTerm? <==> AllSpace(entry)
    ensures r.NoFolders? <==> !AllSpace(entry) && forall c :: c in registry ==> c.name !in checked
    ensures r.Launch? ==> r.term == Strip(entry) && r.term != [] && r.roots != []
    ensures r.Launch? ==> r.roots == SelectedPaths(registry, checked)
  {
    SelectedPathsEmpty(registry, checked);
    var term := Strip(entry);
    if term == [] then EmptyTerm
    else
      var roots := SelectedPaths(registry, checked);
      if roots == [] then NoFolders else Launch(term, roots)
  }

  /** `calculate_relevance`: how many times the term occurs in the file name,
      both lower-cased, counted as `str.count` counts. The path plays no part. */
  function Relevance(term: string, name: string): (r: nat)
    ensures r >= 1 <==> Matches(term, name)
  {
    CountPositiveIff(Lower(name), Lower(term));
    Count(Lower(name), Lower(term))
  }

  /** The filter of `search_files`: the lower-cased term is in the lower-cased
      file name. */
  function Matches(term: string, name: string): (b: bool)
    ensures b <==> IsSubstring(Lower(term), Lower(name))
  {
    ContainsIff(Lower(name), Lower(term));
    Contains(Lower(name), Lower(term))
  }

  /** The row `search_files` appends for a matching file. */
  function ResultFor(term: string, e: Entry): SearchResult {
    SearchResult(e.name, PathJoin(e.dir, e.name), Extension(e.name), Relevance(term, e.name))
  }

  /** What holds of every row the worker emits: the term is in the file name
      (ignoring case), the relevance is the occurrence count in the file name
      and is at least one, the path ends with the file name and the
      extension ends it too. */
  ghost predicate WellFormed(term: string, r: SearchResult) {
    && IsSubstring(Lower(term), Lower(r.name))
    && r.relevance == Count(Lower(r.name), Lower(term))
    && r.relevance >= 1
    && EndsWith(r.path, r.name)
    && EndsWith(r.name, r.ext)
  }

  /** The entries of one listing, in listing order. */
  function FilesOf(dir: string, files: seq<string>): (es: seq<Entry>)
    ensures |es| == |files|
    ensures forall k :: 0 <= k < |es| ==> es[k] == Entry(dir, files[k])
  {
    seq(|files|, k requires 0 <= k < |files| => Entry(dir, files[k]))
  }

  /** The entries of one listing. */
  function ListingFiles(l: Listing): seq<Entry> {
    FilesOf(l.dir, l.files)
  }

  /** The entries of a sequence of listings, listing after listing. */
  function ListingEntries(ls: seq<Listing>): seq<Entry> {
    FlatMap(ListingFiles, ls)
  }

  /** Every listing the walk yields: root after root, in the order given. */
  function WalkListings(roots: seq<string>, walk: string -> seq<Listing>): seq<Listing> {
    FlatMap(walk, roots)
  }

  /** Every entry the walk meets, in walk order. */
  function WalkEntries(roots: seq<string>, walk: string -> seq<Listing>): seq<Entry> {
    ListingEntries(WalkListings(roots, walk))
  }

  /** The rows one walked file contributes: its row when it matches, else none. */
  function Emit(term: string, e: Entry): seq<SearchResult> {
    if Matches(term, e.name) then [ResultFor(term, e)] else []
  }

  /** `Emit` for a fixed term, as a function of the entry. */
  function EmitFor(term: string): Entry -> seq<SearchResult> {
    e => Emit(term, e)
  }

  /** The rows emitted for `es`, in order. */
  function Collect(term: string, es: seq<Entry>): seq<SearchResult> {
    FlatMap(EmitFor(term), es)
  }

  /** The rows `search_files` hands over, before sorting. */
  function SearchResults(term: string, roots: seq<string>, walk: string -> seq<Listing>): seq<SearchResult> {
    Collect(term, WalkEntries(roots, walk))
  }

  /** Every row the worker emits is well formed, and there are never more rows
      than walked files. */
  lemma {:induction false} CollectWellFormed(term: string, es: seq<Entry>)
    ensures |Collect(term, es)| <= |es|
    ensures forall i :: 0 <= i < |Collect(term, es)| ==> WellFormed(term, Collect(term, es)[i])
  {
    if es != [] {
      var front, e := es[..|es| - 1], es[|es| - 1];
      CollectWellFormed(term, front);
      assert Collect(term, es) == Collect(term, front) + Emit(term, e);
      if Matches(term, e.name) {
        ContainsIff(Lower(e.name), Lower(term));
        CountPositiveIff(Lower(e.name), Lower(term));
      }
    }
  }

  /** A row is emitted exactly for each walked file whose name contains the
      term, ignoring case. */
  lemma CollectMembers(term: string, es: seq<Entry>, r: SearchResult)
    ensures r in Collect(term, es) <==>
      exists e :: e in es && IsSubstring(Lower(term), Lower(e.name)) && r == ResultFor(term, e)
  {
    FlatMapMembers(EmitFor(term), es, r);
    forall e | e in es ensures Matches(term, e.name) <==> IsSubstring(Lower(term), Lower(e.name)) {
      ContainsIff(Lower(e.name), Lower(term));
    }
  }

  /** The worker's results follow the folder order: the rows for a list of
      roots are the rows of the first roots followed by the rows of the rest. */
  lemma RootsInWalkOrder(term: string, a: seq<string>, b: seq<string>, walk: string -> seq<Listing>)
    ensures SearchResults(term, a + b, walk) == SearchResults(term, a, walk) + SearchResults(term, b, walk)
  {
    FlatMapAppend(walk, a, b);
    FlatMapAppend(ListingFiles, WalkListings(a, walk), WalkListings(b, walk));
    FlatMapAppend(EmitFor(term), WalkEntries(a, walk), WalkEntries(b, walk));
  }

  lemma OneRootListings(root: string, walk: string -> seq<Listing>)
    ensures WalkListings([root], walk) == walk(root)
  {
    assert [root][..0] == [];
    assert FlatMap(walk, [root]) == FlatMap(walk, []) + walk(root);
  }

  /** The rows of a single root are those of its listings, in walk order. */
  lemma OneRoot(term: string, root: string, walk: string -> seq<Listing>)
    ensures SearchResults(term, [root], walk) == Collect(term, ListingEntries(walk(root)))
  {
    OneRootListings(root, walk);
  }

  /** Within one root, the rows of its listings come listing after listing. */
  lemma ListingsInWalkOrder(term: string, a: seq<Listing>, b: seq<Listing>)
    ensures Collect(term, ListingEntries(a + b)) == Collect(term, ListingEntries(a)) + Collect(term, ListingEntries(b))
  {
    FlatMapAppend(ListingFiles, a, b);
    FlatMapAppend(EmitFor(term), ListingEntries(a), ListingEntries(b));
  }

  /** Collecting one more entry appends what that entry emits. */
  lemma CollectSnoc(term: string, es: seq<Entry>, e: Entry)
    ensures Collect(term, es + [e]) == Collect(term, es) + Emit(term, e)
  {
    assert (es + [e])[..|es|] == es;
  }

  /** One more file of a listing: the rows so far, then that file's row if any. */
  lemma FilesStep(term: string, dir: string, files: seq<string>, k: nat)
    requires k < |files|
    ensures Collect(term, FilesOf(dir, files[..k + 1]))
         == Collect(term, FilesOf(dir, files[..k])) + Emit(term, Entry(dir, files[k]))
  {
    assert FilesOf(dir, files[..k + 1]) == FilesOf(dir, files[..k]) + [Entry(dir, files[k])];
    CollectSnoc(term, FilesOf(dir, files[..k]), Entry(dir, files[k]));
  }

  /** One more listing of a root: the rows so far, then those of its files. */
  lemma ListingsStep(term: string, ls: seq<Listing>, j: nat)
    requires j < |ls|
    ensures Collect(term, ListingEntries(ls[..j + 1]))
         == Collect(term, ListingEntries(ls[..j])) + Collect(term, FilesOf(ls[j].dir, ls[j].files))
  {
    assert ls[..j + 1][..j] == ls[..j];
    FlatMapAppend(EmitFor(term), ListingEntries(ls[..j]), FilesOf(ls[j].dir, ls[j].files));
  }

  /** One more root: the rows so far, then those of the root's listings. */
  lemma RootsStep(term: string, roots: seq<string>, i: nat, walk: string -> seq<Listing>)
    requires i < |roots|
    ensures SearchResults(term, roots[..i + 1], walk)
         == SearchResults(term, roots[..i], walk) + Collect(term, ListingEntries(walk(roots[i])))
  {
    assert roots[..i + 1][..i] == roots[..i];
    FlatMapAppend(ListingFiles, WalkListings(roots[..i], walk), walk(roots[i]));
    FlatMapAppend(EmitFor(term), WalkEntries(roots[..i], walk), ListingEntries(walk(roots[i])));
  }

  /** The innermost loop of `search_files`: the files of one listing, in
      order, each appended to `results` when its name matches. */
  method AppendListing(term: string, dir: string, files: seq<string>, results: seq<SearchResult>)
    returns (out: seq<SearchResult>)
    ensures out == results + Collect(term, FilesOf(dir, files))
  {
    out := results;
    for k := 0 to |files|
      invariant out == results + Collect(term, FilesOf(dir, files[..k]))
    {
      var file := files[k];
      FilesStep(term, dir, files, k);
      ghost var done := Collect(term, FilesOf(dir, files[..k]));
      if Contains(Lower(file), Lower(term)) {
        out := out + [SearchResult(file, PathJoin(dir, file), Extension(file), Relevance(term, file))];
      }
      AppendAssoc(results, done, Emit(term, Entry(dir, file)));
    }
    assert files[..|files|] == files;
  }

  /** The middle loop of `search_files`: the listings of one root's walk. */
  method AppendWalk(term: string, listings: seq<Listing>, results: seq<SearchResult>)
    returns (out: seq<SearchResult>)
    ensures out == results + Collect(term, ListingEntries(listings))
  {
    out := results;
    for j := 0 to |listings|
      invariant out == results + Collect(term, ListingEntries(listings[..j]))
    {
      ghost var done := Collect(term, ListingEntries(listings[..j]));
      ghost var step := Collect(term, FilesOf(listings[j].dir, listings[j].files));
      out := AppendListing(term, listings[j].dir, listings[j].files, out);
      ListingsStep(term, listings, j);
      AppendAssoc(results, done, step);
    }
    assert listings[..|listings|] == listings;
  }

  /** `search_files`: for each root in order, for each listing of its walk,
      for each file of the listing, append a row when the name matches. */
  method SearchFiles(term: string, roots: seq<string>, walk: string -> seq<Listing>)
    returns (results: seq<SearchResult>)
    ensures results == SearchResults(term, roots, walk)
  {
    results := [];
    for i := 0 to |roots|
      invariant results == SearchResults(term, roots[..i], walk)
    {
      results := AppendWalk(term, walk(roots[i]), results);
      RootsStep(term, roots, i, walk);
      assert [] + results == results;
    }
    assert roots[..|roots|] == roots;
  }
}
