/** The server-side Drive helpers: the children query, the activity request
    body, the `files` fallback of a listing, and the depth-bounded
    breadth-first crawl that collects the ids under the root folder. */
module Drive {
  import opened Common
  import opened Folders

  // ---------------------------------------------------------------------
  // Requests

  const ChildrenQuerySuffix: string := "' in parents and trashed = false"

  /** The query that lists the non-trashed children of a folder:
      `'F' in parents and trashed = false`. */
  function ChildrenQuery(folderId: string): (q: string)
    ensures |q| == |folderId| + 1 + |ChildrenQuerySuffix|
    ensures q[0] == '\'' && q[1..|folderId| + 1] == folderId
    ensures q[|folderId| + 1..] == ChildrenQuerySuffix
  {
    "'" + folderId + ChildrenQuerySuffix
  }

  /** Reads the folder id back out of a children query. */
  function ParseChildrenQuery(q: string): Option<string> {
    var n := |ChildrenQuerySuffix|;
    if |q| >= n + 1 && q[0] == '\'' && q[|q| - n..] == ChildrenQuerySuffix
    then Some(q[1..|q| - n])
    else None
  }

  /** The query names exactly the folder it was built for, so different
      folders give different queries. */
  lemma ChildrenQueryRoundTrip(folderId: string)
    ensures ParseChildrenQuery(ChildrenQuery(folderId)) == Some(folderId)
  {
  }

  lemma ChildrenQueryInjective(a: string, b: string)
    requires ChildrenQuery(a) == ChildrenQuery(b)
    ensures a == b
  {
    ChildrenQueryRoundTrip(a);
    ChildrenQueryRoundTrip(b);
  }

  /** A listing response whose `files` member may be missing. */
  function ListedFiles(files: Option<seq<DriveFile>>): (r: seq<DriveFile>)
    ensures files.None? ==> r == []
    ensures files.Some? ==> r == files.value
  {
    files.GetOr([])
  }

  const DefaultActivityPageSize: int := 50

  datatype Consolidation = Legacy

  /** The JSON body posted to the activity query endpoint. */
  datatype ActivityBody = ActivityBody(ancestorName: string, pageSize: int, consolidationStrategy: Consolidation)

  const ItemsPrefix: string := "items/"

  /** Builds the body for the activity feed under `ancestorId`; the page
      size defaults to 50. */
  function ActivityRequestBody(ancestorId: string, pageSize: Option<int>): (body: ActivityBody)
    ensures |body.ancestorName| == |ItemsPrefix| + |ancestorId|
    ensures body.ancestorName[..|ItemsPrefix|] == ItemsPrefix
    ensures body.ancestorName[|ItemsPrefix|..] == ancestorId
    ensures pageSize.None? ==> body.pageSize == DefaultActivityPageSize
    ensures pageSize.Some? ==> body.pageSize == pageSize.value
    ensures body.consolidationStrategy == Legacy
  {
    ActivityBody(ItemsPrefix + ancestorId, pageSize.GetOr(DefaultActivityPageSize), Legacy)
  }

  // ---------------------------------------------------------------------
  // The crawl

  const DefaultMaxDepth: int := 10

  /** The inner loop of the crawl: record the id of every listed child and
      queue every folder-typed child one level deeper, in listing order. */
  method AddChildren(children: seq<DriveFile>, depth: int, allIds: seq<string>, queue: seq<QueueEntry>)
    returns (allIds': seq<string>, queue': seq<QueueEntry>)
    requires Distinct(allIds)
    ensures Distinct(allIds')
    ensures Elems(allIds') == Elems(allIds) + IdsOf(children)
    ensures queue' == queue + FolderEntries(children, depth + 1)
  {
    allIds', queue' := allIds, queue;
    for i := 0 to |children|
      invariant Distinct(allIds')
      invariant Elems(allIds') == Elems(allIds) + IdsOf(children[..i])
      invariant queue' == queue + FolderEntries(children[..i], depth + 1)
    {
      var child := children[i];
      assert children[..i + 1] == children[..i] + [child];
      ghost var ids0, queue0 := allIds', queue';
      allIds' := SetAdd(allIds', child.id);
      if IsFolder(child) {
        queue' := queue' + [QueueEntry(child.id, depth + 1)];
      }
      RecordChild(ids0, allIds', Elems(allIds), children[..i], child);
      QueueChild(queue0, queue', queue, children[..i], child, depth + 1);
    }
    assert children[..|children|] == children;
  }

  /** The body of the crawl loop for an entry within the bound: record the
      folder's id, list its children, record theirs and queue the
      folder-typed ones one level deeper after `rest`. */
  method VisitFolder(drive: DriveTree, entry: QueueEntry, allIds: seq<string>, rest: seq<QueueEntry>)
    returns (allIds': seq<string>, queue': seq<QueueEntry>)
    requires Distinct(allIds)
    ensures Distinct(allIds')
    ensures Elems(allIds') == Elems(allIds) + {entry.id} + ChildIds(drive, entry.id)
    ensures queue' == rest + FolderEntries(Children(drive, entry.id), entry.depth + 1)
  {
    allIds' := SetAdd(allIds, entry.id);
    ghost var midIds := allIds';
    var children := Children(drive, entry.id);
    allIds', queue' := AddChildren(children, entry.depth, allIds', rest);
    RecordListing(drive, entry.id, allIds, midIds, allIds');
  }

  /** One listing step of the crawl keeps its invariant. */
  method ListFolder(drive: DriveTree, rootId: string, maxDepth: int,
                    allIds: seq<string>, queue: seq<QueueEntry>, ghost listed: set<QueueEntry>)
    returns (allIds': seq<string>, queue': seq<QueueEntry>)
    requires queue != [] && queue[0].depth <= maxDepth
    requires CrawlState(drive, rootId, maxDepth, listed, queue, allIds)
    ensures queue' == queue[1..] + FolderEntries(Children(drive, queue[0].id), queue[0].depth + 1)
    ensures CrawlState(drive, rootId, maxDepth, listed + {queue[0]}, queue', allIds')
  {
    allIds', queue' := VisitFolder(drive, queue[0], allIds, queue[1..]);
    ListStepState(drive, rootId, maxDepth, listed, queue, allIds, queue', allIds');
  }

  /** Breadth-first crawl from `rootId`: an entry deeper than `maxDepth` is
      dropped without being listed; every other entry is recorded, listed,
      its children recorded and its folder children queued one level deeper.
      The result holds each id once, and its ids are exactly the reference
      set `Reach`. The ghost `listed` is the set of (folder, depth) pairs the
      crawl listed: exactly those within the bound. */
  method CrawlDescendants(drive: DriveTree, rootId: string, maxDepth: int)
    returns (ids: seq<string>, ghost listed: set<QueueEntry>)
    ensures Distinct(ids)
    ensures Elems(ids) == Reach(drive, rootId, maxDepth)
    ensures listed == Expanded(drive, rootId, maxDepth)
    ensures forall e :: e in listed ==> e.depth <= maxDepth
  {
    var allIds: seq<string> := [];
    var queue := [QueueEntry(rootId, 0)];
    listed := {};
    StartState(drive, rootId, maxDepth);
    while |queue| > 0
      invariant CrawlState(drive, rootId, maxDepth, listed, queue, allIds)
      decreases QueueWeight(queue, MaxFanout(drive), maxDepth)
    {
      var entry := queue[0];
      if entry.depth > maxDepth {
        SkipStepState(drive, rootId, maxDepth, listed, queue, allIds);
        queue := queue[1..];
      } else {
        ListStepDecreases(drive, maxDepth, queue);
        allIds, queue := ListFolder(drive, rootId, maxDepth, allIds, queue, listed);
        listed := listed + {entry};
      }
    }
    FinalState(drive, rootId, maxDepth, listed, allIds);
    ids := allIds;
  }
}
