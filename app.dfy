/** The application object: the folder check boxes, the result table, the
    preview label and the message boxes it raises, with the handlers that
    change them. The search worker runs to completion inside `StartSearch`;
    its results reach the table through `UpdateResults`, as the callback
    posted back to the interface thread does. */
module App {
  import opened Wrappers
  import opened Strings
  import opened Search
  import opened Ranking
  import opened Preview

  /** The message boxes the handlers raise. */
  datatype Notice =
    | EnterTermError
    | SelectFolderError
    | NoResultsInfo(term: string)
    | SelectFileError
    | CannotPreviewInfo
    | PreviewError

  /** What the table holds after a search that was launched: a permutation of
      the worker's rows, sorted by relevance with ties in walk order, each row
      well formed. */
  lemma LaunchedRows(term: string, roots: seq<string>, walk: string -> seq<Listing>)
    ensures NonIncreasing(RankByRelevance(SearchResults(term, roots, walk)))
    ensures multiset(RankByRelevance(SearchResults(term, roots, walk))) == multiset(SearchResults(term, roots, walk))
    ensures forall k: nat :: WithRelevance(RankByRelevance(SearchResults(term, roots, walk)), k)
                          == WithRelevance(SearchResults(term, roots, walk), k)
    ensures forall r :: r in RankByRelevance(SearchResults(term, roots, walk)) ==> WellFormed(term, r)
  {
    var results := SearchResults(term, roots, walk);
    var rows := RankByRelevance(results);
    RankSorted(results);
    RankPermutation(results);
    forall k: nat ensures WithRelevance(rows, k) == WithRelevance(results, k) {
      RankStable(results, k);
    }
    CollectWellFormed(term, WalkEntries(roots, walk));
    forall r | r in rows ensures WellFormed(term, r) {
      assert r in multiset(rows);
    }
  }

  class SearchApp {
    /** The folder registry, in insertion order. */
    const registry: seq<FolderContext>
    /** The names of the folders whose check box is ticked. */
    var checked: set<string>
    /** The rows of the result table, top to bottom. */
    var rows: seq<SearchResult>
    /** The message boxes raised so far, oldest first. */
    var notices: seq<Notice>
    /** The term and folders each search worker was started with. */
    var searches: seq<(string, seq<string>)>
    /** The image and the text configured on the preview label. */
    var labelImage: Option<string>
    var labelText: string

    /** The application as it starts: no box ticked, an empty table, the
        preview label showing its caption. */
    constructor(home: string)
      ensures registry == DefaultRegistry(home)
      ensures checked == {} && rows == [] && notices == [] && searches == []
      ensures labelImage == None && labelText == "File Preview"
    {
      registry := DefaultRegistry(home);
      checked := {};
      rows := [];
      notices := [];
      searches := [];
      labelImage := None;
      labelText := "File Preview";
    }

    /** Ticks or clears the check box of a registry folder. */
    method SetFolder(name: string, on: bool)
      requires exists c :: c in registry && c.name == name
      modifies this
      ensures checked == if on then old(checked) + {name} else old(checked) - {name}
      ensures rows == old(rows) && notices == old(notices) && searches == old(searches)
      ensures labelImage == old(labelImage) && labelText == old(labelText)
    {
      if on {
        checked := checked + {name};
      } else {
        checked := checked - {name};
      }
    }

    /** Deletes the table's rows one by one, in table order. */
    method ClearTable()
      modifies this
      ensures rows == []
      ensures checked == old(checked) && notices == old(notices) && searches == old(searches)
      ensures labelImage == old(labelImage) && labelText == old(labelText)
    {
      var children := rows;
      for i := 0 to |children|
        invariant rows == children[i..]
        invariant checked == old(checked) && notices == old(notices) && searches == old(searches)
        invariant labelImage == old(labelImage) && labelText == old(labelText)
      {
        rows := rows[1..];
      }
    }

    /** `update_results`: sorts the rows by relevance, highest first, raises
        the "no results" message when there are none, then appends every row
        to the table in sorted order. */
    method UpdateResults(results: seq<SearchResult>, term: string)
      modifies this
      ensures rows == old(rows) + RankByRelevance(results)
      ensures notices == old(notices) + (if results == [] then [NoResultsInfo(term)] else [])
      ensures checked == old(checked) && searches == old(searches)
      ensures labelImage == old(labelImage) && labelText == old(labelText)
    {
      var sorted := RankByRelevance(results);
      if results == [] {
        notices := notices + [NoResultsInfo(term)];
      }
      for i := 0 to |sorted|
        invariant rows == old(rows) + sorted[..i]
        invariant notices == old(notices) + (if results == [] then [NoResultsInfo(term)] else [])
        invariant checked == old(checked) && searches == old(searches)
        invariant labelImage == old(labelImage) && labelText == old(labelText)
      {
        rows := rows + [sorted[i]];
      }
    }

    /** `start_search`: refuses an empty term, then a request with no folder;
        otherwise empties the table, starts the worker on the stripped term
        and the selected folders, and fills the table with what it finds. */
    method StartSearch(entry: string, walk: string -> seq<Listing>)
      modifies this
      ensures checked == old(checked)
      ensures labelImage == old(labelImage) && labelText == old(labelText)
      ensures ValidateSearch(entry, registry, checked).EmptyTerm? ==>
        rows == old(rows) && searches == old(searches) && notices == old(notices) + [EnterTermError]
      ensures ValidateSearch(entry, registry, checked).NoFolders? ==>
        rows == old(rows) && searches == old(searches) && notices == old(notices) + [SelectFolderError]
      ensures ValidateSearch(entry, registry, checked).Launch? ==>
        var term, roots := ValidateSearch(entry, registry, checked).term, ValidateSearch(entry, registry, checked).roots;
        && searches == old(searches) + [(term, roots)]
        && rows == RankByRelevance(SearchResults(term, roots, walk))
        && notices == old(notices) + (if SearchResults(term, roots, walk) == [] then [NoResultsInfo(term)] else [])
    {
      var term := Strip(entry);
      if term == [] {
        notices := notices + [EnterTermError];
        return;
      }
      var selected := SelectedPaths(registry, checked);
      if selected == [] {
        notices := notices + [SelectFolderError];
        return;
      }
      ClearTable();
      searches := searches + [(term, selected)];
      var results := SearchFiles(term, selected, walk);
      UpdateResults(results, term);
    }

    /** `preview_file`: with no row selected, asks for one; otherwise shows
        the preview of the selected row's path, the "cannot preview" message
        for an unknown kind, or the error message when decoding fails. */
    method PreviewFile(selected: Option<nat>, dec: Decoders)
      requires selected.Some? ==> selected.value < |rows|
      modifies this
      ensures rows == old(rows) && checked == old(checked) && searches == old(searches)
      ensures selected.None? ==>
        notices == old(notices) + [SelectFileError] && labelImage == old(labelImage) && labelText == old(labelText)
      ensures selected.Some? ==>
        match PreviewPath(rows[selected.value].path, dec)
        case ShowImage(p) =>
          labelImage == Some(p) && labelText == old(labelText) && notices == old(notices)
        case ShowText(t) =>
          labelText == t && labelImage == old(labelImage) && notices == old(notices)
        case CannotPreview =>
          notices == old(notices) + [CannotPreviewInfo] && labelImage == old(labelImage) && labelText == old(labelText)
        case Failed =>
          notices == old(notices) + [PreviewError] && labelImage == old(labelImage) && labelText == old(labelText)
    {
      if selected.None? {
        notices := notices + [SelectFileError];
        return;
      }
      var path := rows[selected.value].path;
      match PreviewPath(path, dec)
      case ShowImage(p) =>
        labelImage := Some(p);
      case ShowText(t) =>
        labelText := t;
      case CannotPreview =>
        notices := notices + [CannotPreviewInfo];
      case Failed =>
        notices := notices + [PreviewError];
    }
  }
}
