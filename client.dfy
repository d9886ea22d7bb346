/** The browser client (`app.js`): the `html` template tag, the unbounded
    crawl whose result is kept in `localStorage`, the refresh button that
    forgets it, and the search that filters Drive's full-text results by it. */
module Client {
  import opened Common
  import opened Text
  import opened Query
  import opened Folders

  // ---------------------------------------------------------------------
  // The `html` template tag

  /** `values[i] ?? ""`: a null, undefined or missing value renders as "". */
  function ValueAt(values: seq<Option<string>>, i: nat): string {
    if i < |values| then values[i].GetOr("") else ""
  }

  /** `strings.flatMap((s, i) => [s, values[i] ?? ""])`. */
  function Pieces(strings: seq<string>, values: seq<Option<string>>): (r: seq<string>)
    ensures |r| == 2 * |strings|
    ensures forall i :: 0 <= i < |strings| ==> r[2 * i] == strings[i] && r[2 * i + 1] == ValueAt(values, i)
  {
    if strings == [] then []
    else Pieces(strings[..|strings| - 1], values) + [strings[|strings| - 1], ValueAt(values, |strings| - 1)]
  }

  /** `html(strings, ...values)`: the pieces joined with nothing between. */
  function Html(strings: seq<string>, values: seq<Option<string>>): (r: string)
    ensures strings == [] ==> r == ""
    ensures strings != [] ==> strings[0] <= r
  {
    var pieces := Pieces(strings, values);
    if pieces == [] then ""
    else JoinStartsWith(pieces, ""); Join(pieces, "")
  }

  /** One more template piece appends that piece and then its value. */
  lemma HtmlSnoc(strings: seq<string>, s: string, values: seq<Option<string>>)
    ensures Html(strings + [s], values) == Html(strings, values) + s + ValueAt(values, |strings|)
  {
    var all := strings + [s];
    assert all[..|all| - 1] == strings;
    JoinConcat(Pieces(strings, values), [s, ValueAt(values, |strings|)]);
  }

  /** A template with one value fewer than string pieces (as a tagged
      template always has) renders `s0 v0 s1 v1 ... s_n` and ends with its
      last string piece. */
  lemma {:induction false} HtmlTemplate(strings: seq<string>, values: seq<Option<string>>)
    requires |strings| == |values| + 1
    ensures Html(strings, values) == Html(strings[..|values|], values) + strings[|values|]
  {
    var n := |values|;
    assert strings == strings[..n] + [strings[n]];
    HtmlSnoc(strings[..n], strings[n], values);
  }

  /** Rendering `a${x}b`. */
  lemma HtmlOneValue(a: string, x: Option<string>, b: string)
    ensures Html([a, b], [x]) == a + x.GetOr("") + b
  {
    HtmlTemplate([a, b], [x]);
    assert [a, b][..1] == [] + [a];
    HtmlSnoc([], a, [x]);
  }

  // ---------------------------------------------------------------------
  // localStorage

  /** The browser's key/value store. The stored value is the JSON text of an
      array of ids; the model keeps the array itself. */
  class Storage {
    var items: map<string, seq<string>>

    constructor ()
      ensures items == map[]
    {
      items := map[];
    }

    method SetItem(key: string, value: seq<string>)
      modifies this
      ensures items == old(items)[key := value]
    {
      items := items[key := value];
    }

    method RemoveItem(key: string)
      modifies this
      ensures items == old(items) - {key}
    {
      items := items - {key};
    }
  }

  const IndexKeyPrefix: string := "biomichi_index_"

  /** The storage key of the index of a root folder. */
  function IndexKey(rootId: string): (k: string)
    ensures |k| == |IndexKeyPrefix| + |rootId|
    ensures k[..|IndexKeyPrefix|] == IndexKeyPrefix && k[|IndexKeyPrefix|..] == rootId
  {
    IndexKeyPrefix + rootId
  }

  /** Different roots never share a stored index. */
  lemma IndexKeyInjective(a: string, b: string)
    requires IndexKey(a) == IndexKey(b)
    ensures a == b
  {
    assert a == IndexKey(a)[|IndexKeyPrefix|..];
  }

  // ---------------------------------------------------------------------
  // What the unbounded crawl reaches

  /** The client's crawl has neither a depth bound nor a visited check, so
      it stops only when some folder level below the root is empty: the
      folders reachable from the root form a finite graph without cycles. */
  ghost predicate FoldersFinite(drive: DriveTree, root: string) {
    exists h: nat :: Level(drive, root, h) == {}
  }

  /** Everything the unbounded crawl records: the bounded result for any
      bound past the last non-empty level. */
  ghost function FullReach(drive: DriveTree, root: string): set<string>
    requires FoldersFinite(drive, root)
  {
    var h: nat :| Level(drive, root, h) == {};
    Reach(drive, root, h - 1)
  }

  /** Any bound at least as deep as an empty level gives the full result. */
  lemma FullReachIsReach(drive: DriveTree, root: string, h: nat, maxDepth: int)
    requires Level(drive, root, h) == {}
    requires h - 1 <= maxDepth
    ensures FoldersFinite(drive, root)
    ensures FullReach(drive, root) == Reach(drive, root, maxDepth)
  {
    var h': nat :| Level(drive, root, h') == {} && FullReach(drive, root) == Reach(drive, root, h' - 1);
    var m := if h < h' then h' - 1 else h - 1;
    ReachStable(drive, root, h, m);
    ReachStable(drive, root, h', m);
    ReachStable(drive, root, h, maxDepth);
  }

  /** The full result holds the root and every child listed for every folder
      reachable through folder-typed children. */
  lemma FullReachComplete(drive: DriveTree, root: string, path: seq<string>, c: string)
    requires FoldersFinite(drive, root)
    requires IsFolderPath(drive, root, path)
    requires c in ChildIds(drive, path[|path| - 1])
    ensures root in FullReach(drive, root)
    ensures c in FullReach(drive, root)
  {
    var h: nat :| Level(drive, root, h) == {};
    var k := |path| - 1;
    LevelIsPathEnd(drive, root, k, path[k]);
    if k >= h {
      LevelEmptyAfter(drive, root, h, k);
      assert false;
    }
    FullReachIsReach(drive, root, h, h - 1);
    ReachRoot(drive, root, h - 1);
    ReachComplete(drive, root, h - 1, path, c);
  }

  /** A drive whose root folder lists itself as a folder child: the
      smallest reachable folder cycle. */
  function SelfLoop(): DriveTree {
    map["r" := [DriveFile("r", "r", FolderMime, None)]]
  }

  lemma {:induction false} SelfLoopLevel(k: nat)
    ensures Level(SelfLoop(), "r", k) == {"r"}
  {
    assert FolderChildIds(SelfLoop(), "r") == {"r"};
    if k > 0 {
      SelfLoopLevel(k - 1);
    }
  }

  /** On a folder cycle the unbounded crawl never ends: listing `r` queues
      `r` again, one level deeper, and no level is ever empty, so the
      crawl's precondition `FoldersFinite` cannot be met. */
  lemma SelfLoopNeverEnds(k: nat)
    ensures FolderEntries(Children(SelfLoop(), "r"), k + 1) == [QueueEntry("r", k + 1)]
    ensures !FoldersFinite(SelfLoop(), "r")
  {
    forall h: nat ensures Level(SelfLoop(), "r", h) != {} {
      SelfLoopLevel(h);
    }
  }

  // ---------------------------------------------------------------------
  // The crawl's loop invariant

  /** The client's ids start with the root, and every listing adds the
      children of the listed folder; every queued id is already recorded. */
  ghost predicate ClientCrawlState(drive: DriveTree, root: string, maxDepth: int,
                                   listed: set<QueueEntry>, entries: seq<QueueEntry>, ids: seq<string>) {
    Distinct(ids) && Elems(ids) == {root} + Covered(drive, listed) &&
    Genuine(drive, root, maxDepth, listed, entries) && Closed(drive, root, maxDepth, listed, entries) &&
    AllRecorded(entries, ids)
  }

  ghost predicate AllRecorded(entries: seq<QueueEntry>, ids: seq<string>) {
    forall j | 0 <= j < |entries| :: entries[j].id in ids
  }

  /** The id queue of the client, next to the depth-carrying queue of the
      proof: the same ids in the same order. */
  ghost predicate Mirrors(queue: seq<string>, entries: seq<QueueEntry>) {
    |queue| == |entries| && forall j | 0 <= j < |queue| :: queue[j] == entries[j].id
  }

  lemma MirrorsSnoc(queue: seq<string>, entries: seq<QueueEntry>, e: QueueEntry)
    requires Mirrors(queue, entries)
    ensures Mirrors(queue + [e.id], entries + [e])
  {
  }

  lemma ClientStart(drive: DriveTree, root: string, maxDepth: int)
    requires maxDepth >= 0
    ensures ClientCrawlState(drive, root, maxDepth, {}, [QueueEntry(root, 0)], [root])
  {
    StartState(drive, root, maxDepth);
  }

  /** Listing the head entry: its children's ids join `ids` (the head's own
      id is already there). */
  lemma ClientListStep(drive: DriveTree, root: string, maxDepth: int,
                       listed: set<QueueEntry>, entries: seq<QueueEntry>, ids: seq<string>, ids': seq<string>)
    requires entries != [] && entries[0].depth <= maxDepth
    requires ClientCrawlState(drive, root, maxDepth, listed, entries, ids)
    requires Distinct(ids')
    requires Elems(ids') == Elems(ids) + ChildIds(drive, entries[0].id)
    ensures ClientCrawlState(drive, root, maxDepth, listed + {entries[0]},
                             entries[1..] + FolderEntries(Children(drive, entries[0].id), entries[0].depth + 1), ids')
  {
    var e := entries[0];
    ListStep(drive, root, maxDepth, listed, entries);
    assert e.id in ids;
    ClientIdsStep(drive, root, listed, e, ids, ids');
    QueuedRecorded(drive, entries, ids, ids');
  }

  lemma ClientIdsStep(drive: DriveTree, root: string, listed: set<QueueEntry>, e: QueueEntry,
                      ids: seq<string>, ids': seq<string>)
    requires e.id in ids
    requires Elems(ids) == {root} + Covered(drive, listed)
    requires Elems(ids') == Elems(ids) + ChildIds(drive, e.id)
    ensures Elems(ids') == {root} + Covered(drive, listed + {e})
  {
    CoveredAdd(drive, listed, e);
    assert e.id in Elems(ids);
  }

  /** The ids of the queue after a listing step are all recorded. */
  lemma QueuedRecorded(drive: DriveTree, entries: seq<QueueEntry>, ids: seq<string>, ids': seq<string>)
    requires entries != []
    requires AllRecorded(entries, ids)
    requires Elems(ids') == Elems(ids) + ChildIds(drive, entries[0].id)
    ensures AllRecorded(entries[1..] + FolderEntries(Children(drive, entries[0].id), entries[0].depth + 1), ids')
  {
    var e := entries[0];
    var pushed := FolderEntries(Children(drive, e.id), e.depth + 1);
    FolderEntriesExact(Children(drive, e.id), e.depth + 1);
    var q' := entries[1..] + pushed;
    forall j | 0 <= j < |q'| ensures q'[j].id in ids' {
      if j < |entries| - 1 {
        assert q'[j] == entries[j + 1];
        assert q'[j].id in Elems(ids);
      } else {
        assert q'[j] == pushed[j - (|entries| - 1)];
        FolderChildIsChild(drive, e.id, q'[j].id);
        assert q'[j].id in Elems(ids');
      }
    }
  }

  /** While the invariant holds with `maxDepth` one above an empty level,
      the head entry is within the bound. */
  lemma HeadWithinBound(drive: DriveTree, root: string, h: nat,
                        listed: set<QueueEntry>, entries: seq<QueueEntry>, ids: seq<string>)
    requires Level(drive, root, h) == {} && h >= 1
    requires entries != []
    requires ClientCrawlState(drive, root, h - 1, listed, entries, ids)
    ensures entries[0].depth <= h - 1
  {
    assert entries[0] in Expanded(drive, root, QueueBound(h - 1));
  }

  lemma ClientFinal(drive: DriveTree, root: string, h: nat, listed: set<QueueEntry>, ids: seq<string>)
    requires Level(drive, root, h) == {} && h >= 1
    requires ClientCrawlState(drive, root, h - 1, listed, [], ids)
    ensures Elems(ids) == FullReach(drive, root)
  {
    ClosedListedIsExpanded(drive, root, h - 1, listed);
    ReachRoot(drive, root, h - 1);
    FullReachIsReach(drive, root, h, h - 1);
  }

  // ---------------------------------------------------------------------
  // The crawl

  /** The loop over one listing: record every file's id and queue the id of
      every folder. The ghost `entries` mirror the queue with the depth each
      id was found at. */
  method AddListed(files: seq<DriveFile>, ghost depth: int, ids: seq<string>, queue: seq<string>,
                   ghost entries: seq<QueueEntry>)
    returns (ids': seq<string>, queue': seq<string>, ghost entries': seq<QueueEntry>)
    requires Distinct(ids) && Mirrors(queue, entries)
    ensures Distinct(ids')
    ensures Elems(ids') == Elems(ids) + IdsOf(files)
    ensures entries' == entries + FolderEntries(files, depth)
    ensures Mirrors(queue', entries')
  {
    ids', queue', entries' := ids, queue, entries;
    for i := 0 to |files|
      invariant Distinct(ids')
      invariant Elems(ids') == Elems(ids) + IdsOf(files[..i])
      invariant entries' == entries + FolderEntries(files[..i], depth)
      invariant Mirrors(queue', entries')
    {
      var f := files[i];
      assert files[..i + 1] == files[..i] + [f];
      ghost var ids0, entries0 := ids', entries';
      ids' := SetAdd(ids', f.id);
      if IsFolder(f) {
        MirrorsSnoc(queue', entries', QueueEntry(f.id, depth));
        queue' := queue' + [f.id];
        entries' := entries' + [QueueEntry(f.id, depth)];
      }
      RecordChild(ids0, ids', Elems(ids), files[..i], f);
      QueueChild(entries0, entries', entries, files[..i], f, depth);
    }
    assert files[..|files|] == files;
  }

  /** One turn of the crawl loop: take the next folder off the queue and
      record what its listing holds. */
  method ListNext(drive: DriveTree, rootId: string, ghost maxDepth: int, ids: seq<string>, queue: seq<string>,
                  ghost entries: seq<QueueEntry>, ghost listed: set<QueueEntry>)
    returns (ids': seq<string>, queue': seq<string>, ghost entries': seq<QueueEntry>)
    requires entries != [] && entries[0].depth <= maxDepth
    requires ClientCrawlState(drive, rootId, maxDepth, listed, entries, ids) && Mirrors(queue, entries)
    ensures entries' == entries[1..] + FolderEntries(Children(drive, entries[0].id), entries[0].depth + 1)
    ensures ClientCrawlState(drive, rootId, maxDepth, listed + {entries[0]}, entries', ids')
    ensures Mirrors(queue', entries')
  {
    var folderId := queue[0];
    var files := Children(drive, folderId);
    ids', queue', entries' := AddListed(files, entries[0].depth + 1, ids, queue[1..], entries[1..]);
    ClientListStep(drive, rootId, maxDepth, listed, entries, ids, ids');
  }

  /** `crawlDescendants(rootId)`: a stored index is returned as it is;
      otherwise the whole folder tree under the root is crawled and the
      result stored under the root's key. */
  method CrawlDescendants(store: Storage, drive: DriveTree, rootId: string) returns (ids: seq<string>)
    requires IndexKey(rootId) in store.items || FoldersFinite(drive, rootId)
    modifies store
    ensures Distinct(ids)
    ensures IndexKey(rootId) in old(store.items) ==>
              ids == Dedup(old(store.items)[IndexKey(rootId)]) && store.items == old(store.items)
    ensures IndexKey(rootId) !in old(store.items) ==>
              Elems(ids) == FullReach(drive, rootId) && store.items == old(store.items)[IndexKey(rootId) := ids]
  {
    var key := IndexKey(rootId);
    if key in store.items {
      return Dedup(store.items[key]);
    }
    ghost var h: nat :| Level(drive, rootId, h) == {};
    ghost var maxDepth := h - 1;
    ids := [rootId];
    var queue := [rootId];
    ghost var entries := [QueueEntry(rootId, 0)];
    ghost var listed: set<QueueEntry> := {};
    ClientStart(drive, rootId, maxDepth);
    while |queue| > 0
      invariant ClientCrawlState(drive, rootId, maxDepth, listed, entries, ids)
      invariant Mirrors(queue, entries)
      invariant store.items == old(store.items)
      decreases QueueWeight(entries, MaxFanout(drive), maxDepth)
    {
      HeadWithinBound(drive, rootId, h, listed, entries, ids);
      ListStepDecreases(drive, maxDepth, entries);
      ghost var head := entries[0];
      ids, queue, entries := ListNext(drive, rootId, maxDepth, ids, queue, entries, listed);
      listed := listed + {head};
    }
    ClientFinal(drive, rootId, h, listed, ids);
    store.SetItem(key, ids);
  }

  /** The refresh button: forget the stored index, then crawl again. */
  method RefreshIndex(store: Storage, drive: DriveTree, rootId: string) returns (ids: seq<string>)
    requires FoldersFinite(drive, rootId)
    modifies store
    ensures Distinct(ids)
    ensures Elems(ids) == FullReach(drive, rootId)
    ensures store.items == old(store.items)[IndexKey(rootId) := ids]
  {
    ghost var before := store.items;
    store.RemoveItem(IndexKey(rootId));
    ids := CrawlDescendants(store, drive, rootId);
    assert (before - {IndexKey(rootId)})[IndexKey(rootId) := ids] == before[IndexKey(rootId) := ids];
  }

  // ---------------------------------------------------------------------
  // Search

  /** A token counts only when it is neither missing nor empty. */
  predicate SignedIn(accessToken: Option<string>) {
    accessToken.Some? && accessToken.value != ""
  }

  /** The clauses of the client's Drive query: not trashed, then the text
      clause for non-empty (trimmed) text with every apostrophe escaped,
      then the chosen MIME type as it is. */
  function ClientClauses(text: string, fileType: string): (parts: seq<string>)
    ensures |parts| == 1 + (if text != "" then 1 else 0) + (if fileType != "" then 1 else 0)
    ensures parts[0] == TrashedClause
    ensures text != "" ==> parts[1] == "fullText contains '" + EscapeAll(text) + "'"
    ensures fileType != "" ==> parts[|parts| - 1] == "mimeType = '" + fileType + "'"
  {
    [TrashedClause]
    + (if text != "" then ["fullText contains '" + EscapeAll(text) + "'"] else [])
    + (if fileType != "" then ["mimeType = '" + fileType + "'"] else [])
  }

  /** The clauses as `search` pushes them, one `if` at a time. */
  method BuildClientClauses(text: string, fileType: string) returns (parts: seq<string>)
    ensures parts == ClientClauses(text, fileType)
  {
    parts := [TrashedClause];
    if text != "" {
      parts := parts + ["fullText contains '" + EscapeAll(text) + "'"];
    }
    if fileType != "" {
      parts := parts + ["mimeType = '" + fileType + "'"];
    }
  }

  /** The client's query string: the trash clause first, followed by the
      text clause when the trimmed input is not empty. */
  function ClientQuery(input: string, fileType: string): (q: string)
    ensures TrashedClause <= q
    ensures Trim(input) == "" && fileType == "" ==> q == TrashedClause
    ensures Trim(input) != "" ==> TextPrefix + EscapeAll(Trim(input)) + "'" <= q
  {
    var text := Trim(input);
    var parts := ClientClauses(text, fileType);
    JoinStartsWith(parts, ClauseSeparator);
    if text == "" then Join(parts, ClauseSeparator)
    else
      JoinFirstTwo(parts, ClauseSeparator);
      assert parts[0] + ClauseSeparator + parts[1] == TextPrefix + EscapeAll(text) + "'";
      Join(parts, ClauseSeparator)
  }

  /** What the client's query holds before the text literal's value. */
  const TextPrefix: string := TrashedClause + ClauseSeparator + "fullText contains '"


  /** The text literal of the client's query: when the trimmed input holds
      no backslash, the literal closes exactly at the quote after it and
      holds the trimmed input, whatever follows. (A backslash keeps it open,
      as `Query.BackslashKeepsLiteralOpen` shows.) */
  lemma ClientTextLiteral(input: string, fileType: string, rest: string)
    ensures '\\' !in Trim(input) ==>
              ReadLiteral(EscapeAll(Trim(input)) + "'" + rest) == Some((Trim(input), rest))
    ensures TrashedClause <= ClientQuery(input, fileType)
  {
    var t := Trim(input);
    if '\\' !in t {
      EscapeAllWithoutBackslash(t);
      ReadEscapedLiteral(t, rest);
    }
  }

  /** Inside the query itself: for non-empty trimmed input without a
      backslash, the literal after `fullText contains '` holds exactly the
      trimmed input, whatever file type follows it. */
  lemma ClientQueryLiteral(input: string, fileType: string)
    requires Trim(input) != "" && '\\' !in Trim(input)
    ensures ReadLiteral(ClientQuery(input, fileType)[|TextPrefix|..]) ==
              Some((Trim(input), ClientQuery(input, fileType)[|TextPrefix| + |EscapeAll(Trim(input))| + 1..]))
  {
    QueryLiteralReads(ClientQuery(input, fileType), Trim(input));
  }

  /** A query that starts with the text prefix and the escaped text holds
      that text as its literal. */
  lemma QueryLiteralReads(q: string, t: string)
    requires '\\' !in t
    requires TextPrefix + EscapeAll(t) + "'" <= q
    ensures ReadLiteral(q[|TextPrefix|..]) == Some((t, q[|TextPrefix| + |EscapeAll(t)| + 1..]))
  {
    var lit := EscapeAll(t) + "'";
    var after := q[|TextPrefix| + |lit|..];
    assert q == TextPrefix + lit + after;
    assert q[|TextPrefix|..] == EscapeAll(t) + "'" + after;
    EscapeAllWithoutBackslash(t);
    ReadEscapedLiteral(t, after);
  }

  /** The ids a search filters by: the stored index when there is one,
      otherwise everything the crawl reaches. */
  ghost function SearchIndex(items: map<string, seq<string>>, drive: DriveTree, rootId: string): set<string>
    requires IndexKey(rootId) in items || FoldersFinite(drive, rootId)
  {
    if IndexKey(rootId) in items then Elems(items[IndexKey(rootId)]) else FullReach(drive, rootId)
  }

  /** What a search leads to: the sign-in prompt, a failed listing (a
      response without `files`, on which `app.js` throws), or the files
      shown. */
  datatype SearchOutcome = NotSignedIn | ListingFailed | Shown(files: seq<DriveFile>)

  /** `search()`. `input` and `fileType` are the values of the search box
      and the type selector, `driveSearch` Drive's answer to a query. The
      second result is the query sent to Drive, if any. */
  method Search(accessToken: Option<string>, input: string, fileType: string, rootId: string,
                store: Storage, drive: DriveTree, driveSearch: string -> Option<seq<DriveFile>>)
    returns (out: SearchOutcome, query: Option<string>)
    requires SignedIn(accessToken) ==> IndexKey(rootId) in store.items || FoldersFinite(drive, rootId)
    modifies store
    ensures !SignedIn(accessToken) ==> out == NotSignedIn && query.None? && store.items == old(store.items)
    ensures SignedIn(accessToken) ==> query == Some(ClientQuery(input, fileType))
    ensures SignedIn(accessToken) && driveSearch(ClientQuery(input, fileType)).None? ==> out == ListingFailed
    ensures SignedIn(accessToken) && driveSearch(ClientQuery(input, fileType)).Some? ==>
              out.Shown? && IsSubseq(out.files, driveSearch(ClientQuery(input, fileType)).value)
    ensures SignedIn(accessToken) && driveSearch(ClientQuery(input, fileType)).Some? ==>
              forall f :: f in out.files <==>
                (f in driveSearch(ClientQuery(input, fileType)).value &&
                 f.id in SearchIndex(old(store.items), drive, rootId))
    ensures SignedIn(accessToken) && driveSearch(ClientQuery(input, fileType)).Some? ==>
              forall f :: Count(out.files, f) ==
                if f.id in SearchIndex(old(store.items), drive, rootId)
                then Count(driveSearch(ClientQuery(input, fileType)).value, f) else 0
    ensures SignedIn(accessToken) ==>
              IndexKey(rootId) in store.items &&
              Elems(store.items[IndexKey(rootId)]) == SearchIndex(old(store.items), drive, rootId) &&
              store.items == old(store.items)[IndexKey(rootId) := store.items[IndexKey(rootId)]]
    ensures SignedIn(accessToken) && IndexKey(rootId) in old(store.items) ==> store.items == old(store.items)
  {
    if !SignedIn(accessToken) {
      return NotSignedIn, None;
    }
    var qInput := Trim(input);
    ghost var index := SearchIndex(store.items, drive, rootId);
    var ids := CrawlDescendants(store, drive, rootId);
    assert Elems(ids) == index;
    var parts := BuildClientClauses(qInput, fileType);
    var q := Join(parts, ClauseSeparator);
    query := Some(q);
    var response := driveSearch(q);
    if response.None? {
      return ListingFailed, query;
    }
    var filtered := Filter(response.value, (f: DriveFile) => f.id in ids);
    out := Shown(filtered);
  }
}
