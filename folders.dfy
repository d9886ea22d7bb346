/** The remote Drive, seen as what a listing returns: a finite map from a
    folder id to the records of its (non-trashed) children. A folder absent
    from the map lists as empty, as a response without `files` does.

    The module also holds the reference definition of what a breadth-first
    crawl from a root folder collects, and the measure that proves a
    depth-bounded crawl terminates on any finite map, cyclic or not. */
module Folders {
  import opened Common

  const FolderMime: string := "application/vnd.google-apps.folder"

  /** A file record; only the fields the core reads are kept. */
  datatype DriveFile = DriveFile(id: string, name: string, mimeType: string, parents: Option<seq<string>>)

  type DriveTree = map<string, seq<DriveFile>>

  predicate IsFolder(f: DriveFile) {
    f.mimeType == FolderMime
  }

  /** What listing the children of `folderId` returns. */
  function Children(drive: DriveTree, folderId: string): seq<DriveFile> {
    if folderId in drive then drive[folderId] else []
  }

  /** Ids of all listed records of a sequence. */
  function IdsOf(files: seq<DriveFile>): set<string> {
    set f | f in files :: f.id
  }

  function ChildIds(drive: DriveTree, folderId: string): set<string> {
    IdsOf(Children(drive, folderId))
  }

  /** Ids of the folder-typed records of a sequence. */
  function FolderIdsOf(files: seq<DriveFile>): set<string> {
    set f | f in files && IsFolder(f) :: f.id
  }

  function FolderChildIds(drive: DriveTree, folderId: string): set<string> {
    FolderIdsOf(Children(drive, folderId))
  }

  // ---------------------------------------------------------------------
  // What a crawl reaches

  /** The ids found at folder depth `k`: the root at depth 0, and at depth
      k + 1 every folder-typed child of an id at depth k. */
  ghost function Level(drive: DriveTree, root: string, k: nat): set<string>
    decreases k
  {
    if k == 0 then {root}
    else set p, c | p in Level(drive, root, k - 1) && c in FolderChildIds(drive, p) :: c
  }

  /** A queue entry of the crawl: a folder id and the depth it was found at. */
  datatype QueueEntry = QueueEntry(id: string, depth: int)

  /** The (folder, depth) pairs a crawl bounded by `maxDepth` lists. */
  ghost function Expanded(drive: DriveTree, root: string, maxDepth: int): set<QueueEntry> {
    set k: nat, p | k <= maxDepth && p in Level(drive, root, k) :: QueueEntry(p, k)
  }

  /** The ids a crawl records once it has listed the entries in `e`: each
      listed folder and each of its children. */
  ghost function Covered(drive: DriveTree, e: set<QueueEntry>): set<string> {
    (set x | x in e :: x.id) + (set x, c | x in e && c in ChildIds(drive, x.id) :: c)
  }

  /** The reference result of a crawl from `root` bounded by `maxDepth`. */
  ghost function Reach(drive: DriveTree, root: string, maxDepth: int): set<string> {
    Covered(drive, Expanded(drive, root, maxDepth))
  }

  lemma CoveredAdd(drive: DriveTree, e: set<QueueEntry>, x: QueueEntry)
    ensures Covered(drive, e + {x}) == Covered(drive, e) + {x.id} + ChildIds(drive, x.id)
  {
  }

  /** The path view of a level: `path` starts at the root and every next id
      is a folder-typed child of the one before. */
  ghost predicate IsFolderPath(drive: DriveTree, root: string, path: seq<string>) {
    |path| >= 1 && path[0] == root &&
    forall j :: 0 <= j < |path| - 1 ==> path[j + 1] in FolderChildIds(drive, path[j])
  }

  /** An id is at depth k exactly when a folder path of k hops from the root
      ends at it. */
  lemma LevelIsPathEnd(drive: DriveTree, root: string, k: nat, p: string)
    ensures p in Level(drive, root, k) <==>
            exists path :: IsFolderPath(drive, root, path) && |path| == k + 1 && path[k] == p
  {
    if p in Level(drive, root, k) {
      var path := LevelHasPath(drive, root, k, p);
    }
    forall path | IsFolderPath(drive, root, path) && |path| == k + 1 && path[k] == p
      ensures p in Level(drive, root, k)
    {
      PathEndInLevel(drive, root, path);
    }
  }

  /** A witness path for an id found at depth k. */
  lemma {:induction false} LevelHasPath(drive: DriveTree, root: string, k: nat, p: string)
    returns (path: seq<string>)
    requires p in Level(drive, root, k)
    ensures IsFolderPath(drive, root, path) && |path| == k + 1 && path[k] == p
  {
    if k == 0 {
      path := [root];
    } else {
      var q := LevelParent(drive, root, k, p);
      var prefix := LevelHasPath(drive, root, k - 1, q);
      ExtendPath(drive, root, prefix, p);
      path := prefix + [p];
    }
  }

  /** Some id one level up lists `p` as a folder child. */
  lemma LevelParent(drive: DriveTree, root: string, k: nat, p: string) returns (q: string)
    requires k > 0 && p in Level(drive, root, k)
    ensures q in Level(drive, root, k - 1) && p in FolderChildIds(drive, q)
  {
    q :| q in Level(drive, root, k - 1) && p in FolderChildIds(drive, q);
  }

  lemma ExtendPath(drive: DriveTree, root: string, path: seq<string>, p: string)
    requires IsFolderPath(drive, root, path)
    requires p in FolderChildIds(drive, path[|path| - 1])
    ensures IsFolderPath(drive, root, path + [p])
  {
    var longer := path + [p];
    forall j | 0 <= j < |longer| - 1 ensures longer[j + 1] in FolderChildIds(drive, longer[j]) {
      if j < |path| - 1 {
        assert longer[j + 1] == path[j + 1] && longer[j] == path[j];
      }
    }
  }

  lemma PathPrefix(drive: DriveTree, root: string, path: seq<string>, n: nat)
    requires IsFolderPath(drive, root, path) && 1 <= n <= |path|
    ensures IsFolderPath(drive, root, path[..n])
  {
    var prefix := path[..n];
    forall j | 0 <= j < n - 1 ensures prefix[j + 1] in FolderChildIds(drive, prefix[j]) {
      assert prefix[j + 1] == path[j + 1] && prefix[j] == path[j];
    }
  }

  lemma {:induction false} PathEndInLevel(drive: DriveTree, root: string, path: seq<string>)
    requires IsFolderPath(drive, root, path)
    ensures path[|path| - 1] in Level(drive, root, |path| - 1)
  {
    var k := |path| - 1;
    if k > 0 {
      var prefix := path[..k];
      PathPrefix(drive, root, path, k);
      PathEndInLevel(drive, root, prefix);
      assert prefix[k - 1] == path[k - 1];
      assert path[k] in FolderChildIds(drive, path[k - 1]);
    }
  }

  /** With a non-negative bound the root is always reached; with a negative
      one nothing is. */
  lemma ReachRoot(drive: DriveTree, root: string, maxDepth: int)
    ensures maxDepth >= 0 ==> root in Reach(drive, root, maxDepth)
    ensures maxDepth < 0 ==> Reach(drive, root, maxDepth) == {}
  {
    if maxDepth >= 0 {
      assert root in Level(drive, root, 0);
      assert QueueEntry(root, 0) in Expanded(drive, root, maxDepth);
    }
  }

  /** Completeness: every child listed for a folder at the end of a folder
      path of at most `maxDepth` hops is reached. */
  lemma ReachComplete(drive: DriveTree, root: string, maxDepth: int, path: seq<string>, c: string)
    requires IsFolderPath(drive, root, path) && |path| <= maxDepth + 1
    requires c in ChildIds(drive, path[|path| - 1])
    ensures c in Reach(drive, root, maxDepth)
  {
    var k := |path| - 1;
    LevelIsPathEnd(drive, root, k, path[k]);
    assert QueueEntry(path[k], k) in Expanded(drive, root, maxDepth);
  }

  /** Soundness: every reached id is the root or a child listed for a folder
      at the end of a folder path of at most `maxDepth` hops. */
  lemma ReachSound(drive: DriveTree, root: string, maxDepth: int, x: string)
    requires x in Reach(drive, root, maxDepth)
    ensures maxDepth >= 0
    ensures x == root || exists path :: IsFolderPath(drive, root, path) && |path| <= maxDepth + 1 &&
                                        x in ChildIds(drive, path[|path| - 1])
  {
    var e :| e in Expanded(drive, root, maxDepth) && (x == e.id || x in ChildIds(drive, e.id));
    var k: nat := e.depth;
    var path := LevelHasPath(drive, root, k, e.id);
    if x in ChildIds(drive, e.id) {
      assert IsFolderPath(drive, root, path) && |path| <= maxDepth + 1 && x in ChildIds(drive, path[|path| - 1]);
    } else if x != root {
      var prefix := path[..k];
      PathPrefix(drive, root, path, k);
      FolderChildIsChild(drive, path[k - 1], x);
      assert prefix[|prefix| - 1] == path[k - 1];
      assert IsFolderPath(drive, root, prefix) && |prefix| <= maxDepth + 1 && x in ChildIds(drive, prefix[|prefix| - 1]);
    }
  }

  lemma FolderChildIsChild(drive: DriveTree, folderId: string, x: string)
    requires x in FolderChildIds(drive, folderId)
    ensures x in ChildIds(drive, folderId)
  {
    var f :| f in Children(drive, folderId) && IsFolder(f) && f.id == x;
  }

  /** Once a level is empty, every later level is too. */
  lemma {:induction false} LevelEmptyAfter(drive: DriveTree, root: string, h: nat, m: nat)
    requires Level(drive, root, h) == {}
    requires h <= m
    ensures Level(drive, root, m) == {}
  {
    if h < m {
      LevelEmptyAfter(drive, root, h, m - 1);
    }
  }

  /** On a folder graph whose level `h` is empty (a finite graph with no
      cycle reachable from the root), any bound of at least `h - 1` reaches
      the same ids: the bound no longer matters. */
  lemma ReachStable(drive: DriveTree, root: string, h: nat, maxDepth: int)
    requires Level(drive, root, h) == {}
    requires h - 1 <= maxDepth
    ensures Reach(drive, root, maxDepth) == Reach(drive, root, h - 1)
  {
    forall k: nat | h <= k ensures Level(drive, root, k) == {} {
      LevelEmptyAfter(drive, root, h, k);
    }
    assert Expanded(drive, root, maxDepth) == Expanded(drive, root, h - 1);
  }

  // ---------------------------------------------------------------------
  // The crawl's loop invariant, shared by both crawls

  /** Every listed entry is within the bound and genuine; every queued entry
      is genuine. */
  ghost predicate Genuine(drive: DriveTree, root: string, maxDepth: int,
                          listed: set<QueueEntry>, queue: seq<QueueEntry>) {
    listed <= Expanded(drive, root, maxDepth) &&
    forall j | 0 <= j < |queue| :: queue[j] in Expanded(drive, root, QueueBound(maxDepth))
  }

  /** Queued entries are at most one level below the bound (the root entry
      is at depth 0 whatever the bound). */
  function QueueBound(maxDepth: int): int {
    if maxDepth < 0 then 0 else maxDepth + 1
  }

  /** Nothing within the bound is lost: the root entry and the folder
      children of every listed entry are listed or still queued. */
  ghost predicate Closed(drive: DriveTree, root: string, maxDepth: int,
                         listed: set<QueueEntry>, queue: seq<QueueEntry>) {
    (0 <= maxDepth ==> QueueEntry(root, 0) in listed || QueueEntry(root, 0) in queue) &&
    forall e, c | e in listed && c in FolderChildIds(drive, e.id) && e.depth + 1 <= maxDepth ::
      QueueEntry(c, e.depth + 1) in listed || QueueEntry(c, e.depth + 1) in queue
  }

  /** The loop invariant of the crawl: `ids` records, each once, exactly the
      listed folders and their children. */
  ghost predicate CrawlState(drive: DriveTree, root: string, maxDepth: int,
                             listed: set<QueueEntry>, queue: seq<QueueEntry>, ids: seq<string>) {
    Distinct(ids) && Elems(ids) == Covered(drive, listed) &&
    Genuine(drive, root, maxDepth, listed, queue) && Closed(drive, root, maxDepth, listed, queue)
  }

  /** Listing the head entry keeps the invariant, once its id and its
      children's ids are recorded in `ids'`. */
  lemma ListStepState(drive: DriveTree, root: string, maxDepth: int, listed: set<QueueEntry>,
                      queue: seq<QueueEntry>, ids: seq<string>, queue': seq<QueueEntry>, ids': seq<string>)
    requires queue != [] && queue[0].depth <= maxDepth
    requires CrawlState(drive, root, maxDepth, listed, queue, ids)
    requires Distinct(ids')
    requires Elems(ids') == Elems(ids) + {queue[0].id} + ChildIds(drive, queue[0].id)
    requires queue' == queue[1..] + FolderEntries(Children(drive, queue[0].id), queue[0].depth + 1)
    ensures CrawlState(drive, root, maxDepth, listed + {queue[0]}, queue', ids')
  {
    ListStep(drive, root, maxDepth, listed, queue);
    CoveredAdd(drive, listed, queue[0]);
  }

  lemma SkipStepState(drive: DriveTree, root: string, maxDepth: int,
                      listed: set<QueueEntry>, queue: seq<QueueEntry>, ids: seq<string>)
    requires queue != [] && queue[0].depth > maxDepth
    requires CrawlState(drive, root, maxDepth, listed, queue, ids)
    ensures CrawlState(drive, root, maxDepth, listed, queue[1..], ids)
  {
    SkipStep(drive, root, maxDepth, listed, queue);
  }

  /** Once the queue is empty the crawl has recorded exactly `Reach`. */
  lemma FinalState(drive: DriveTree, root: string, maxDepth: int,
                   listed: set<QueueEntry>, ids: seq<string>)
    requires CrawlState(drive, root, maxDepth, listed, [], ids)
    ensures Distinct(ids)
    ensures listed == Expanded(drive, root, maxDepth)
    ensures Elems(ids) == Reach(drive, root, maxDepth)
  {
    ClosedListedIsExpanded(drive, root, maxDepth, listed);
  }

  /** Recording a folder id and then its children's ids. */
  lemma RecordListing(drive: DriveTree, folderId: string, ids0: seq<string>, ids1: seq<string>, ids2: seq<string>)
    requires Elems(ids1) == Elems(ids0) + {folderId}
    requires Elems(ids2) == Elems(ids1) + IdsOf(Children(drive, folderId))
    ensures Elems(ids2) == Elems(ids0) + {folderId} + ChildIds(drive, folderId)
  {
  }

  /** The crawl starts with the root queued at depth 0 and nothing listed. */
  lemma StartState(drive: DriveTree, root: string, maxDepth: int)
    ensures Genuine(drive, root, maxDepth, {}, [QueueEntry(root, 0)])
    ensures Closed(drive, root, maxDepth, {}, [QueueEntry(root, 0)])
    ensures Covered(drive, {}) == {}
    ensures CrawlState(drive, root, maxDepth, {}, [QueueEntry(root, 0)], [])
  {
    assert root in Level(drive, root, 0);
  }

  /** When the queue has run dry, the listed entries are exactly the
      reference ones. */
  lemma ClosedListedIsExpanded(drive: DriveTree, root: string, maxDepth: int, listed: set<QueueEntry>)
    requires Genuine(drive, root, maxDepth, listed, [])
    requires Closed(drive, root, maxDepth, listed, [])
    ensures listed == Expanded(drive, root, maxDepth)
  {
    forall k: nat | k <= maxDepth
      ensures forall p :: p in Level(drive, root, k) ==> QueueEntry(p, k) in listed
    {
      LevelListed(drive, root, maxDepth, listed, k);
    }
  }

  lemma {:induction false} LevelListed(drive: DriveTree, root: string, maxDepth: int,
                                       listed: set<QueueEntry>, k: nat)
    requires Closed(drive, root, maxDepth, listed, [])
    requires k <= maxDepth
    ensures forall p :: p in Level(drive, root, k) ==> QueueEntry(p, k) in listed
  {
    if k > 0 {
      LevelListed(drive, root, maxDepth, listed, k - 1);
      forall p | p in Level(drive, root, k) ensures QueueEntry(p, k) in listed {
        var q :| q in Level(drive, root, k - 1) && p in FolderChildIds(drive, q);
        assert QueueEntry(q, k - 1) in listed;
      }
    }
  }

  /** Listing the head entry keeps the invariant: its folder children join
      the queue one level deeper. */
  lemma ListStep(drive: DriveTree, root: string, maxDepth: int,
                 listed: set<QueueEntry>, queue: seq<QueueEntry>)
    requires queue != [] && queue[0].depth <= maxDepth
    requires Genuine(drive, root, maxDepth, listed, queue)
    requires Closed(drive, root, maxDepth, listed, queue)
    ensures Genuine(drive, root, maxDepth, listed + {queue[0]},
                    queue[1..] + FolderEntries(Children(drive, queue[0].id), queue[0].depth + 1))
    ensures Closed(drive, root, maxDepth, listed + {queue[0]},
                   queue[1..] + FolderEntries(Children(drive, queue[0].id), queue[0].depth + 1))
  {
    ListStepGenuine(drive, root, maxDepth, listed, queue);
    ListStepClosed(drive, root, maxDepth, listed, queue);
  }

  lemma ChildInNextLevel(drive: DriveTree, root: string, d: nat, p: string, c: string)
    requires p in Level(drive, root, d) && c in FolderChildIds(drive, p)
    ensures c in Level(drive, root, d + 1)
  {
  }

  lemma ListStepGenuine(drive: DriveTree, root: string, maxDepth: int,
                        listed: set<QueueEntry>, queue: seq<QueueEntry>)
    requires queue != [] && queue[0].depth <= maxDepth
    requires Genuine(drive, root, maxDepth, listed, queue)
    ensures Genuine(drive, root, maxDepth, listed + {queue[0]},
                    queue[1..] + FolderEntries(Children(drive, queue[0].id), queue[0].depth + 1))
  {
    var e := queue[0];
    assert e in Expanded(drive, root, QueueBound(maxDepth));
    var d: nat := e.depth;
    assert e.id in Level(drive, root, d);
    assert e in Expanded(drive, root, maxDepth);
    var pushed := FolderEntries(Children(drive, e.id), e.depth + 1);
    FolderEntriesExact(Children(drive, e.id), e.depth + 1);
    var q' := queue[1..] + pushed;
    forall j | 0 <= j < |q'| ensures q'[j] in Expanded(drive, root, QueueBound(maxDepth)) {
      if j >= |queue| - 1 {
        assert q'[j] == pushed[j - (|queue| - 1)];
        ChildInNextLevel(drive, root, d, e.id, q'[j].id);
        assert q'[j] == QueueEntry(q'[j].id, d + 1);
      } else {
        assert q'[j] == queue[j + 1];
      }
    }
  }

  lemma ListStepClosed(drive: DriveTree, root: string, maxDepth: int,
                       listed: set<QueueEntry>, queue: seq<QueueEntry>)
    requires queue != [] && queue[0].depth <= maxDepth
    requires Closed(drive, root, maxDepth, listed, queue)
    ensures Closed(drive, root, maxDepth, listed + {queue[0]},
                   queue[1..] + FolderEntries(Children(drive, queue[0].id), queue[0].depth + 1))
  {
    var e := queue[0];
    var pushed := FolderEntries(Children(drive, e.id), e.depth + 1);
    FolderEntriesExact(Children(drive, e.id), e.depth + 1);
    var q' := queue[1..] + pushed;
    forall x | x in queue ensures x in listed + {e} || x in q' {
      var j :| 0 <= j < |queue| && queue[j] == x;
      if j > 0 { assert q'[j - 1] == x; }
    }
    forall c | c in FolderChildIds(drive, e.id) ensures QueueEntry(c, e.depth + 1) in q' {
      var f :| f in Children(drive, e.id) && IsFolder(f) && f.id == c;
      assert QueueEntry(c, e.depth + 1) in pushed;
    }
  }

  /** Skipping a head entry beyond the bound keeps the invariant. */
  lemma SkipStep(drive: DriveTree, root: string, maxDepth: int,
                 listed: set<QueueEntry>, queue: seq<QueueEntry>)
    requires queue != [] && queue[0].depth > maxDepth
    requires Genuine(drive, root, maxDepth, listed, queue)
    requires Closed(drive, root, maxDepth, listed, queue)
    ensures Genuine(drive, root, maxDepth, listed, queue[1..])
    ensures Closed(drive, root, maxDepth, listed, queue[1..])
  {
    forall x | x in queue && x.depth <= maxDepth ensures x in queue[1..] {
      var j :| 0 <= j < |queue| && queue[j] == x;
      assert j > 0 && queue[1..][j - 1] == x;
    }
  }

  // ---------------------------------------------------------------------
  // Enqueued children

  /** The entries `(id, depth)` of the folder-typed records of `files`, in
      order: what the crawl pushes after listing a folder. */
  function FolderEntries(files: seq<DriveFile>, depth: int): (r: seq<QueueEntry>)
    ensures |r| <= |files|
  {
    if files == [] then []
    else
      var init := files[..|files| - 1];
      var last := files[|files| - 1];
      assert files == init + [last];
      FolderEntries(init, depth) + (if IsFolder(last) then [QueueEntry(last.id, depth)] else [])
  }

  /** Exactly the folder-typed records are queued, all at the given depth. */
  lemma {:induction false} FolderEntriesExact(files: seq<DriveFile>, depth: int)
    ensures forall j :: 0 <= j < |FolderEntries(files, depth)| ==> FolderEntries(files, depth)[j].depth == depth
    ensures forall j :: 0 <= j < |FolderEntries(files, depth)| ==> FolderEntries(files, depth)[j].id in FolderIdsOf(files)
    ensures forall f :: f in files && IsFolder(f) ==> QueueEntry(f.id, depth) in FolderEntries(files, depth)
  {
    if files != [] {
      var init := files[..|files| - 1];
      var last := files[|files| - 1];
      assert files == init + [last];
      FolderEntriesExact(init, depth);
      assert FolderIdsOf(init) <= FolderIdsOf(files);
    }
  }

  lemma FolderEntriesSnoc(files: seq<DriveFile>, f: DriveFile, depth: int)
    ensures FolderEntries(files + [f], depth) ==
            FolderEntries(files, depth) + (if IsFolder(f) then [QueueEntry(f.id, depth)] else [])
  {
    assert (files + [f])[..|files|] == files;
  }

  /** One more listed child recorded: the recorded ids grow by its id. */
  lemma RecordChild(ids: seq<string>, ids': seq<string>, base: set<string>, pre: seq<DriveFile>, f: DriveFile)
    requires Elems(ids) == base + IdsOf(pre)
    requires Elems(ids') == Elems(ids) + {f.id}
    ensures Elems(ids') == base + IdsOf(pre + [f])
  {
    IdsOfSnoc(pre, f);
  }

  /** One more listed child seen: the queue grows by its entry if it is a
      folder. */
  lemma QueueChild(q: seq<QueueEntry>, q': seq<QueueEntry>, base: seq<QueueEntry>,
                   pre: seq<DriveFile>, f: DriveFile, depth: int)
    requires q == base + FolderEntries(pre, depth)
    requires q' == if IsFolder(f) then q + [QueueEntry(f.id, depth)] else q
    ensures q' == base + FolderEntries(pre + [f], depth)
  {
    FolderEntriesSnoc(pre, f, depth);
    if IsFolder(f) {
      assert base + FolderEntries(pre, depth) + [QueueEntry(f.id, depth)]
          == base + (FolderEntries(pre, depth) + [QueueEntry(f.id, depth)]);
    }
  }

  lemma IdsOfSnoc(files: seq<DriveFile>, f: DriveFile)
    ensures IdsOf(files + [f]) == IdsOf(files) + {f.id}
  {
    assert forall g :: g in files + [f] <==> g in files || g == f;
  }

  // ---------------------------------------------------------------------
  // Termination

  /** The largest number of children any folder lists. */
  ghost function MaxFanout(drive: DriveTree): (b: nat)
    ensures forall id :: |Children(drive, id)| <= b
    decreases |drive|
  {
    if drive == map[] then 0
    else
      var k :| k in drive;
      var rest := drive - {k};
      assert rest.Keys == drive.Keys - {k};
      assert |rest.Keys| < |drive.Keys|;
      var b0 := MaxFanout(rest);
      assert forall id :: id != k ==> Children(drive, id) == Children(rest, id);
      if |drive[k]| > b0 then |drive[k]| else b0
  }

  /** `n` copies of `w` added up, kept free of multiplication so that the
      termination measure stays in linear arithmetic. */
  function Times(n: nat, w: nat): nat {
    if n == 0 then 0 else w + Times(n - 1, w)
  }

  lemma {:induction false} TimesMonotone(a: nat, b: nat, w: nat)
    requires a <= b
    ensures Times(a, w) <= Times(b, w)
  {
    if a < b {
      TimesMonotone(a, b - 1, w);
    }
  }

  /** The size of a full tree of fan-out `b` and height `h`: what an entry
      `h` levels above the cut-off can still put into the queue, itself
      included. */
  function Weight(b: nat, h: nat): (w: nat)
    ensures w >= 1
  {
    if h == 0 then 1 else 1 + Times(b, Weight(b, h - 1))
  }

  function Height(e: QueueEntry, maxDepth: int): nat {
    if e.depth > maxDepth then 0 else maxDepth + 1 - e.depth
  }

  function QueueWeight(q: seq<QueueEntry>, b: nat, maxDepth: int): nat {
    if q == [] then 0 else Weight(b, Height(q[0], maxDepth)) + QueueWeight(q[1..], b, maxDepth)
  }

  lemma {:induction false} QueueWeightAppend(p: seq<QueueEntry>, q: seq<QueueEntry>, b: nat, maxDepth: int)
    ensures QueueWeight(p + q, b, maxDepth) == QueueWeight(p, b, maxDepth) + QueueWeight(q, b, maxDepth)
  {
    if p != [] {
      assert (p + q)[0] == p[0];
      assert (p + q)[1..] == p[1..] + q;
      QueueWeightAppend(p[1..], q, b, maxDepth);
    } else {
      assert p + q == q;
    }
  }

  lemma {:induction false} QueueWeightUniform(q: seq<QueueEntry>, b: nat, maxDepth: int, h: nat)
    requires forall j :: 0 <= j < |q| ==> Height(q[j], maxDepth) == h
    ensures QueueWeight(q, b, maxDepth) == Times(|q|, Weight(b, h))
  {
    if q != [] {
      QueueWeightUniform(q[1..], b, maxDepth, h);
    }
  }

  /** Replacing the head entry by at most `b` entries one level deeper makes
      the queue strictly lighter. */
  lemma ListDecreases(q: seq<QueueEntry>, pushed: seq<QueueEntry>, b: nat, maxDepth: int)
    requires q != [] && q[0].depth <= maxDepth && |pushed| <= b
    requires forall j :: 0 <= j < |pushed| ==> pushed[j].depth == q[0].depth + 1
    ensures QueueWeight(q[1..] + pushed, b, maxDepth) < QueueWeight(q, b, maxDepth)
  {
    var h := Height(q[0], maxDepth);
    QueueWeightAppend(q[1..], pushed, b, maxDepth);
    QueueWeightUniform(pushed, b, maxDepth, h - 1);
    TimesMonotone(|pushed|, b, Weight(b, h - 1));
  }

  /** One listing step makes the crawl's queue strictly lighter. */
  lemma ListStepDecreases(drive: DriveTree, maxDepth: int, queue: seq<QueueEntry>)
    requires queue != [] && queue[0].depth <= maxDepth
    ensures QueueWeight(queue[1..] + FolderEntries(Children(drive, queue[0].id), queue[0].depth + 1),
                        MaxFanout(drive), maxDepth)
            < QueueWeight(queue, MaxFanout(drive), maxDepth)
  {
    FolderEntriesExact(Children(drive, queue[0].id), queue[0].depth + 1);
    ListDecreases(queue, FolderEntries(Children(drive, queue[0].id), queue[0].depth + 1), MaxFanout(drive), maxDepth);
  }
}
