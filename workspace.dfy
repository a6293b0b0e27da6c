/**
 * src/index.ts: the workspace-folder bookkeeping of the extension — the
 * memoised list of folder URIs sorted by length, the search for the
 * outer-most folder that contains a given one — and the per-folder language
 * lists that decide when a language server is restarted.
 */
module Extension {

  import opened Wrappers
  import opened JsArray
  import opened JsString
  import opened ArrayUtil

  /** A workspace folder as the editor reports it. */
  datatype WorkspaceFolder = WorkspaceFolder(uri: string, name: string)

  // ---- normalised folder URIs ----

  /** `uri` with a `'/'` appended unless it already ends with one. */
  function WithTrailingSlash(uri: string): (r: string)
    ensures |r| > 0 && r[|r| - 1] == '/'
    ensures StartsWith(r, uri) && |r| <= |uri| + 1
    ensures (|uri| > 0 && uri[|uri| - 1] == '/') <==> r == uri
  {
    if |uri| > 0 && uri[|uri| - 1] == '/' then uri else uri + "/"
  }

  /** Normalising twice is normalising once. */
  lemma WithTrailingSlashIdempotent(uri: string)
    ensures WithTrailingSlash(WithTrailingSlash(uri)) == WithTrailingSlash(uri)
  {
  }

  /** Every URI of `uris`, normalised. */
  function Normalised(uris: seq<string>): (r: seq<string>)
    ensures |r| == |uris| && forall i :: 0 <= i < |uris| ==> r[i] == WithTrailingSlash(uris[i])
  {
    if uris == [] then [] else [WithTrailingSlash(uris[0])] + Normalised(uris[1..])
  }

  /** The sort key of lines 82-84: the length of the URI. */
  function Length(s: string): int {
    |s|
  }

  /** The list `sortedWorkspaceFolders` computes: the normalised URIs, stably sorted by length. */
  function SortedFolderList(uris: seq<string>): seq<string> {
    StableSortBy(Normalised(uris), Length)
  }

  /**
   * The list is a permutation of the normalised URIs, ordered by length,
   * with URIs of equal length in their original order.
   */
  lemma SortedFolderListProperties(uris: seq<string>)
    ensures multiset(SortedFolderList(uris)) == multiset(Normalised(uris))
    ensures SortedBy(SortedFolderList(uris), Length)
    ensures forall k :: WithKey(SortedFolderList(uris), Length, k) == WithKey(Normalised(uris), Length, k)
  {
    StableSortByPermutation(Normalised(uris), Length);
    StableSortByOrdered(Normalised(uris), Length);
    forall k ensures WithKey(SortedFolderList(uris), Length, k) == WithKey(Normalised(uris), Length, k) {
      StableSortByWithKey(Normalised(uris), Length, k);
    }
  }

  /** Every entry of the list ends with `'/'`. */
  lemma SortedFolderListSlashes(uris: seq<string>)
    ensures forall e :: e in SortedFolderList(uris) ==> |e| > 0 && e[|e| - 1] == '/'
  {
    var sorted := SortedFolderList(uris);
    StableSortByPermutation(Normalised(uris), Length);
    forall e | e in sorted ensures |e| > 0 && e[|e| - 1] == '/' {
      assert e in multiset(Normalised(uris));
    }
  }

  // ---- the outer-most folder ----

  /** The folder `lookup` gives for `element`, when `element` is a prefix of `uri`. */
  predicate Hit(uri: string, element: string, lookup: string -> Option<WorkspaceFolder>) {
    StartsWith(uri, element) && lookup(element).Some?
  }

  /** The index of the first entry of `sorted` that is a prefix of `uri` and names a folder. */
  function FirstHit(sorted: seq<string>, uri: string, lookup: string -> Option<WorkspaceFolder>): (r: Option<nat>)
    ensures r.Some? ==> r.value < |sorted| && Hit(uri, sorted[r.value], lookup)
    ensures r.Some? ==> forall j :: 0 <= j < r.value ==> !Hit(uri, sorted[j], lookup)
    ensures r.None? ==> forall j :: 0 <= j < |sorted| ==> !Hit(uri, sorted[j], lookup)
  {
    if sorted == [] then None
    else if Hit(uri, sorted[0], lookup) then Some(0)
    else match FirstHit(sorted[1..], uri, lookup)
      case None => None
      case Some(i) => Some(i + 1)
  }

  /** What `getOuterMostWorkspaceFolder` returns for the list `sorted`. */
  function OuterMost(folder: WorkspaceFolder, sorted: seq<string>, lookup: string -> Option<WorkspaceFolder>): WorkspaceFolder {
    match FirstHit(sorted, WithTrailingSlash(folder.uri), lookup)
    case None => folder
    case Some(i) => lookup(sorted[i]).value
  }

  /**
   * On a list sorted by length the first hit is a shortest one: no other
   * listed prefix that names a folder is shorter.
   */
  lemma FirstHitShortest(sorted: seq<string>, uri: string, lookup: string -> Option<WorkspaceFolder>)
    requires SortedBy(sorted, Length)
    ensures var r := FirstHit(sorted, uri, lookup);
      r.Some? ==> forall j :: 0 <= j < |sorted| && Hit(uri, sorted[j], lookup) ==> |sorted[r.value]| <= |sorted[j]|
  {
    var r := FirstHit(sorted, uri, lookup);
    if r.Some? {
      forall j | 0 <= j < |sorted| && Hit(uri, sorted[j], lookup)
        ensures |sorted[r.value]| <= |sorted[j]|
      {
        if j != r.value {
          assert Length(sorted[r.value]) <= Length(sorted[j]);
        }
      }
    }
  }

  /**
   * `r` is an outer-most choice for `folder` over `sorted`: the folder a
   * shortest listed prefix of its URI names, or `folder` itself when no
   * listed prefix names a folder.
   */
  predicate IsOuterMost(r: WorkspaceFolder, folder: WorkspaceFolder, sorted: seq<string>,
                        lookup: string -> Option<WorkspaceFolder>)
  {
    var uri := WithTrailingSlash(folder.uri);
    || (r == folder && forall j :: 0 <= j < |sorted| ==> !Hit(uri, sorted[j], lookup))
    || (exists i :: (0 <= i < |sorted| && Hit(uri, sorted[i], lookup) && r == lookup(sorted[i]).value
          && forall j :: 0 <= j < |sorted| && Hit(uri, sorted[j], lookup) ==> |sorted[i]| <= |sorted[j]|))
  }

  /** The outer-most folder is the folder a shortest listed prefix names, or the input folder. */
  lemma OuterMostChoice(folder: WorkspaceFolder, sorted: seq<string>, lookup: string -> Option<WorkspaceFolder>)
    requires SortedBy(sorted, Length)
    ensures IsOuterMost(OuterMost(folder, sorted, lookup), folder, sorted, lookup)
  {
    FirstHitShortest(sorted, WithTrailingSlash(folder.uri), lookup);
  }

  /** The memo `_sortedWorkspaceFolders` and the functions that use it. */
  class FolderIndex {
    var sortedCache: Option<seq<string>>

    /** A memoised list is sorted by length and every entry ends with `'/'`. */
    predicate Valid()
      reads this
    {
      sortedCache.Some? ==>
        SortedBy(sortedCache.value, Length)
        && forall e :: e in sortedCache.value ==> |e| > 0 && e[|e| - 1] == '/'
    }

    constructor ()
      ensures sortedCache == None && Valid()
    {
      sortedCache := None;
    }

    /**
     * `sortedWorkspaceFolders`: the list computed from the current folders
     * the first time (none when the editor has no folder list), then the
     * same list until the memo is reset.
     */
    method SortedWorkspaceFolders(workspaceFolders: Option<seq<WorkspaceFolder>>) returns (sorted: seq<string>)
      requires Valid()
      modifies this
      ensures old(sortedCache).Some? ==> sorted == old(sortedCache).value
      ensures old(sortedCache).None? ==> sorted == SortedFolderList(Uris(workspaceFolders.GetOr([])))
      ensures sortedCache == Some(sorted) && Valid()
    {
      if sortedCache.None? {
        var uris := Uris(workspaceFolders.GetOr([]));
        SortedFolderListProperties(uris);
        SortedFolderListSlashes(uris);
        sortedCache := Some(SortedFolderList(uris));
      }
      sorted := sortedCache.value;
    }

    /** `onDidChangeWorkspaceFolders` forgets the memo (line 378). */
    method ResetSortedFolders()
      modifies this
      ensures sortedCache == None && Valid()
    {
      sortedCache := None;
    }

    /**
     * `getOuterMostWorkspaceFolder`: walk the sorted list and return the
     * folder named by the first entry that is a prefix of the folder's
     * normalised URI; the input folder when there is none. Because the list
     * is sorted by length, that is the outer-most containing folder.
     */
    method GetOuterMostWorkspaceFolder(folder: WorkspaceFolder, workspaceFolders: Option<seq<WorkspaceFolder>>,
                                       lookup: string -> Option<WorkspaceFolder>)
        returns (r: WorkspaceFolder)
      requires Valid()
      modifies this
      ensures sortedCache.Some? && Valid()
      ensures old(sortedCache).Some? ==> sortedCache == old(sortedCache)
      ensures old(sortedCache).None? ==> sortedCache == Some(SortedFolderList(Uris(workspaceFolders.GetOr([]))))
      ensures r == OuterMost(folder, sortedCache.value, lookup)
      ensures IsOuterMost(r, folder, sortedCache.value, lookup)
    {
      var sorted := SortedWorkspaceFolders(workspaceFolders);
      r := FindOuterMost(folder, sorted, lookup);
      OuterMostChoice(folder, sorted, lookup);
    }
  }

  /**
   * The loop of `getOuterMostWorkspaceFolder` (lines 92-104): the folder
   * named by the first entry of `sorted` that is a prefix of the folder's
   * normalised URI, or the input folder when there is none.
   */
  method FindOuterMost(folder: WorkspaceFolder, sorted: seq<string>, lookup: string -> Option<WorkspaceFolder>)
      returns (r: WorkspaceFolder)
    ensures r == OuterMost(folder, sorted, lookup)
  {
    var uri := WithTrailingSlash(folder.uri);
    for i := 0 to |sorted|
      invariant FirstHit(sorted, uri, lookup).None? || FirstHit(sorted, uri, lookup).value >= i
    {
      if StartsWith(uri, sorted[i]) {
        var workdir := lookup(sorted[i]);
        if workdir.Some? {
          FirstHitAt(sorted, uri, lookup, i);
          return workdir.value;
        }
      }
    }
    return folder;
  }

  /** A hit with no hit before it is the first hit. */
  lemma FirstHitAt(sorted: seq<string>, uri: string, lookup: string -> Option<WorkspaceFolder>, i: nat)
    requires i < |sorted| && Hit(uri, sorted[i], lookup)
    requires FirstHit(sorted, uri, lookup).None? || FirstHit(sorted, uri, lookup).value >= i
    ensures FirstHit(sorted, uri, lookup) == Some(i)
  {
  }

  /** The URIs of the folders, in order. */
  function Uris(folders: seq<WorkspaceFolder>): (r: seq<string>)
    ensures |r| == |folders| && forall i :: 0 <= i < |folders| ==> r[i] == folders[i].uri
  {
    if folders == [] then [] else [folders[0].uri] + Uris(folders[1..])
  }

  // ---- the language lists ----

  /** `dedupe([...defaultLanguages, ...userLanguageIds])`. */
  function MergeLanguages(defaults: seq<string>, userIds: seq<string>): seq<string> {
    Dedupe(defaults + userIds)
  }

  /**
   * The merged list has no duplicates, holds every default and every user
   * language and nothing else, and begins with the defaults (without their
   * own repetitions).
   */
  lemma MergeLanguagesProperties(defaults: seq<string>, userIds: seq<string>)
    ensures NoDuplicates(MergeLanguages(defaults, userIds))
    ensures forall x :: x in MergeLanguages(defaults, userIds) <==> x in defaults || x in userIds
    ensures |Dedupe(defaults)| <= |MergeLanguages(defaults, userIds)|
    ensures MergeLanguages(defaults, userIds)[..|Dedupe(defaults)|] == Dedupe(defaults)
    ensures NoDuplicates(defaults) ==>
      |defaults| <= |MergeLanguages(defaults, userIds)| && MergeLanguages(defaults, userIds)[..|defaults|] == defaults
  {
    var merged := MergeLanguages(defaults, userIds);
    DedupeProperties(defaults + userIds);
    forall x ensures x in merged <==> x in defaults || x in userIds {
      if x in defaults {
        var i :| 0 <= i < |defaults| && defaults[i] == x;
        assert (defaults + userIds)[i] == x;
      }
      if x in userIds {
        var i :| 0 <= i < |userIds| && userIds[i] == x;
        assert (defaults + userIds)[|defaults| + i] == x;
      }
    }
    DedupePrefix(defaults, userIds);
    if NoDuplicates(defaults) {
      DedupeIdentity(defaults);
    }
  }

  /** What the configuration handler did for one client. */
  datatype ChangeOutcome =
    | Unchanged
    | Replaced(restarted: bool)
    | MissingEntry  // `equal` reads the length of `undefined`: a TypeError

  /**
   * The `clients` and `languages` maps of `activate`, keyed by folder URI;
   * a client is `true` once started and `false` while it is `null`.
   */
  class LanguageRegistry {
    var clients: map<string, bool>
    var languages: map<string, seq<string>>

    /** Every folder with a client has a language list. */
    ghost predicate Valid()
      reads this
    {
      clients.Keys <= languages.Keys
    }

    constructor ()
      ensures clients == map[] && languages == map[]
      ensures Valid()
    {
      clients := map[];
      languages := map[];
    }

    /**
     * `bootWorkspaceClient`: nothing for a folder that has a client;
     * otherwise the folder gets a started client, and a language list unless
     * it already has one.
     */
    method BootWorkspaceClient(folderUri: string, defaults: seq<string>, userIds: seq<string>)
      modifies this
      ensures folderUri in old(clients) ==> clients == old(clients) && languages == old(languages)
      ensures folderUri !in old(clients) ==> clients == old(clients)[folderUri := true]
      ensures folderUri !in old(clients) ==>
        languages == (if folderUri in old(languages) then old(languages)
                      else old(languages)[folderUri := MergeLanguages(defaults, userIds)])
      ensures old(Valid()) ==> Valid()
      ensures folderUri in clients
    {
      if folderUri in clients {
        return;
      }
      clients := clients[folderUri := false];
      if folderUri !in languages {
        languages := languages[folderUri := MergeLanguages(defaults, userIds)];
      }
      clients := clients[folderUri := true];
    }

    /**
     * Lines 172-173: store `merged` for the folder unless it is `equal` to
     * the list stored there; reading the list of a folder that has none
     * fails.
     */
    method StoreIfChanged(folderUri: string, merged: seq<string>) returns (outcome: ChangeOutcome)
      modifies this
      ensures outcome == MissingEntry <==> folderUri !in old(languages)
      ensures outcome == Unchanged <==>
        folderUri in old(languages) && multiset(merged) == multiset(old(languages)[folderUri])
      ensures outcome == Replaced(false) || outcome == MissingEntry || outcome == Unchanged
      ensures outcome.Replaced? ==> languages == old(languages)[folderUri := merged]
      ensures !outcome.Replaced? ==> languages == old(languages)
      ensures clients == old(clients)
    {
      if folderUri !in languages {
        return MissingEntry;
      }
      var a := new string[|merged|](i requires 0 <= i < |merged| => merged[i]);
      var stored := languages[folderUri];
      var b := new string[|stored|](i requires 0 <= i < |stored| => stored[i]);
      assert a[..] == merged && b[..] == stored;
      var same := Equal(a, b);
      if same {
        return Unchanged;
      }
      languages := languages[folderUri := merged];
      return Replaced(false);
    }

    /**
     * The body of the configuration handler for the client under `key`,
     * whose folder has URI `folderUri` and whose `includeLanguages` changed:
     * store the new list unless it is `equal` to the stored one, and then
     * restart the client if there is one.
     */
    method OnIncludeLanguagesChange(key: string, folderUri: string, defaults: seq<string>, userIds: seq<string>)
        returns (outcome: ChangeOutcome)
      requires key in clients
      modifies this
      ensures outcome == MissingEntry <==> folderUri !in old(languages)
      ensures outcome == Unchanged <==>
        (folderUri in old(languages) &&
         multiset(MergeLanguages(defaults, userIds)) == multiset(old(languages)[folderUri]))
      ensures outcome.Replaced? ==> languages == old(languages)[folderUri := MergeLanguages(defaults, userIds)]
      ensures !outcome.Replaced? ==> languages == old(languages)
      ensures outcome.Replaced? ==> outcome.restarted == old(clients)[key]
      ensures outcome.Replaced? && outcome.restarted ==> clients == old(clients)[folderUri := true]
      ensures !(outcome.Replaced? && outcome.restarted) ==> clients == old(clients)
      ensures old(Valid()) ==> Valid()
      ensures old(Valid()) && key == folderUri ==> outcome != MissingEntry
    {
      var merged := MergeLanguages(defaults, userIds);
      outcome := StoreIfChanged(folderUri, merged);
      if outcome.Replaced? {
        var client := clients[key];
        if client {
          clients := clients - {folderUri};
          BootWorkspaceClient(folderUri, defaults, userIds);
          assert clients == old(clients)[folderUri := true];
        }
        outcome := Replaced(client);
      }
    }
  }
}
